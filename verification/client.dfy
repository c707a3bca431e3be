/** The client's end of the serial link. */
module ClientSide {
  import opened Bytes
  import opened Crc8
  import opened Packets

  /** `_recv_attempt` on the bytes at hand: the id is checked first, and only then the rest is read. */
  function RecvAttempt(gid: byte, rx: seq<byte>): (r: Received)
    ensures r.Got? ==> |r.packet| >= 4
  {
    if |rx| < 4 then Blocked
    else if Id(rx) != gid then Got(E_ID_MISMATCH, rx[..4], rx[4..])
    else if Size(rx) < HEADER_SIZE || Size(rx) > PACKET_MAX_SIZE then BadSize(|rx| > PACKET_MAX_SIZE)
    else if |rx| < Size(rx) then Blocked
    else
      var p, rest := rx[..Size(rx)], rx[Size(rx)..];
      Got(if Checksum(p) != 0 then E_CORRUPTED_CHECKSUM else E_SUCCESS, p, rest)
  }

  /** Whether the answer to a sent packet is an acknowledgement with the expected id. */
  predicate Acknowledges(r: Received) {
    r.Got? && r.error == E_SUCCESS && |r.packet| >= 4 && Type(r.packet) == COM_TYPE_ACK
  }

  /** The id after the answer to a sent packet. */
  function GidAfterAnswer(gid: byte, r: Received): byte {
    if Acknowledges(r) then NextId(gid) else 0
  }

  /** What `communication_recv` sends back: ACK or NAK with the id of what it received. */
  function ResponseTo(r: Received): seq<byte>
    requires r.Got? && |r.packet| >= 4
  {
    Frame(Id(r.packet), if r.error == E_SUCCESS then COM_TYPE_ACK else COM_TYPE_NAK, 0, [])
  }

  /** A frame with the expected id at the front is taken whole. */
  lemma AttemptTakesFrame(gid: byte, p: seq<byte>, rest: seq<byte>)
    requires Sane(p) && Id(p) == gid
    ensures RecvAttempt(gid, p + rest) == Got(E_SUCCESS, p, rest)
  {
    hide Checksum;
    assert (p + rest)[..|p|] == p && (p + rest)[|p|..] == rest;
  }

  /** An answer is accepted exactly if it has the expected id, a size that its packet can have, and checksum 0. */
  lemma AttemptAcceptsExactly(gid: byte, rx: seq<byte>, p: seq<byte>, rest: seq<byte>)
    ensures RecvAttempt(gid, rx) == Got(E_SUCCESS, p, rest)
       <==> rx == p + rest && 4 <= |p| <= 37 && p[0] == gid && p[3] == |p| && Checksum(p) == 0
  {
    hide Checksum;
    if rx == p + rest && 4 <= |p| <= 37 && p[0] == gid && p[3] == |p| {
      assert rx[..|p|] == p && rx[|p|..] == rest;
    }
  }

  /** When an attempt ends, and when it writes past the packet, by the bytes of the header. */
  lemma AttemptEndsExactly(gid: byte, rx: seq<byte>)
    ensures RecvAttempt(gid, rx).Got? <==> |rx| >= 4 && (rx[0] != gid || (4 <= rx[3] <= 37 && |rx| >= rx[3]))
    ensures RecvAttempt(gid, rx) == BadSize(true) <==> |rx| > 37 && rx[0] == gid && (rx[3] < 4 || rx[3] > 37)
  {
    hide Checksum;
  }

  /** One with another checksum is consumed whole and refused. */
  lemma AttemptRefusesDamage(gid: byte, p: seq<byte>, rest: seq<byte>)
    requires 4 <= |p| <= 37 && p[0] == gid && p[3] == |p| && Checksum(p) != 0
    ensures RecvAttempt(gid, p + rest) == Got(E_CORRUPTED_CHECKSUM, p, rest)
  {
    hide Checksum;
    assert (p + rest)[..|p|] == p && (p + rest)[|p|..] == rest;
  }

  /** A frame with another id is refused on its header; its tail stays in the receive queue. */
  lemma AttemptRefusesOtherId(gid: byte, p: seq<byte>, rest: seq<byte>)
    requires Sane(p) && Id(p) != gid
    ensures RecvAttempt(gid, p + rest) == Got(E_ID_MISMATCH, p[..4], p[4..] + rest)
  {
    hide Checksum;
    assert (p + rest)[..4] == p[..4] && (p + rest)[4..] == p[4..] + rest;
  }

  // ----- The client in place

  datatype Outcome = Success | Failure | Hangs | Overruns

  /** What becomes of a call whose receive attempt does not end: it waits, or writes past its packet. */
  function Unended(r: Received): Outcome {
    if r == BadSize(true) then Overruns else Hangs
  }

  /**
   `rx` are the bytes the device has received and `tx` those it has sent. A blocking read is given
   the bytes that arrive while it waits.
   */
  class Client {
    var gid: byte
    var rx: seq<byte>
    var tx: seq<byte>

    constructor ()
      ensures gid == 0 && rx == [] && tx == []
    {
      gid, rx, tx := 0, [], [];
    }

    method Attempt(arriving: seq<byte>) returns (r: Received)
      modifies this`rx
      ensures r == RecvAttempt(gid, old(rx) + arriving)
      ensures r.Got? ==> rx == r.rest
    {
      hide Checksum;
      rx := rx + arriving;
      if |rx| < 4 {
        return Blocked;
      }
      if Id(rx) != gid {
        r := Got(E_ID_MISMATCH, rx[..4], rx[4..]);
        rx := rx[4..];
        return;
      }
      var size := Size(rx);
      if size < HEADER_SIZE || size > PACKET_MAX_SIZE {
        return BadSize(|rx| > PACKET_MAX_SIZE);
      }
      if |rx| < size {
        return Blocked;
      }
      var p := rx[..size];
      rx := rx[size..];
      r := Got(if Checksum(p) != 0 then E_CORRUPTED_CHECKSUM else E_SUCCESS, p, rx);
    }

    /**
     `communication_send`: flush, transmit, and wait for the answer. A packet whose size byte no packet can
     have is not sent.
     */
    method Send(p: array<byte>, arriving: seq<byte>) returns (outcome: Outcome)
      requires p.Length == PACKET_MAX_SIZE
      modifies this
      ensures Size(p[..]) == 0 || Size(p[..]) > PACKET_MAX_SIZE ==>
        outcome == Failure && gid == old(gid) && rx == old(rx) && tx == old(tx)
      ensures 0 < Size(p[..]) <= PACKET_MAX_SIZE ==>
        && tx == old(tx) + p[..Size(p[..])]
        && var r := RecvAttempt(old(gid), arriving);
        if r.Got? then
          gid == GidAfterAnswer(old(gid), r) && rx == r.rest && (outcome == Success <==> Acknowledges(r))
        else outcome == (if r == BadSize(true) then Overruns else Hangs) && gid == old(gid)
    {
      hide RecvAttempt, Checksum;
      if p[3] == 0 || p[3] > PACKET_MAX_SIZE {
        return Failure;
      }
      rx := [];
      tx := tx + p[..p[3]];
      var r := Attempt(arriving);
      assert [] + arriving == arriving;
      if !r.Got? {
        return Unended(r);
      }
      if r.error == E_SUCCESS && Type(r.packet) == COM_TYPE_ACK {
        gid := NextId(gid);
        return Success;
      }
      gid := 0;
      return Failure;
    }

    /** `communication_recv`: wait for a packet and answer it. A refused packet leaves the id alone. */
    method Recv(arriving: seq<byte>) returns (outcome: Outcome, p: seq<byte>)
      modifies this
      ensures var r := RecvAttempt(old(gid), old(rx) + arriving);
        if r.Got? && r.error == E_SUCCESS then
          && outcome == Success && p == r.packet && rx == r.rest && gid == NextId(old(gid))
          && tx == old(tx) + Frame(r.packet[0], COM_TYPE_ACK, 0, [])
        else if r.Got? then
          && outcome == Failure && p == r.packet && rx == r.rest && gid == old(gid)
          && tx == old(tx) + Frame(r.packet[0], COM_TYPE_NAK, 0, [])
        else outcome == (if r == BadSize(true) then Overruns else Hangs) && gid == old(gid) && tx == old(tx)
    {
      hide RecvAttempt, Frame, Checksum;
      p := [];
      var r := Attempt(arriving);
      if !r.Got? {
        return Unended(r), p;
      }
      p := r.packet;
      if r.error == E_SUCCESS {
        tx := tx + Frame(Id(p), COM_TYPE_ACK, 0, []);
        gid := NextId(gid);
        return Success, p;
      }
      tx := tx + Frame(Id(p), COM_TYPE_NAK, 0, []);
      return Failure, p;
    }

    /** `communication_connect`: the handshake always goes out with id 0. */
    method Connect(arriving: seq<byte>) returns (outcome: Outcome)
      modifies this
      ensures tx == old(tx) + Frame(0, COM_TYPE_HND, 0, [])
      ensures var r := RecvAttempt(0, arriving);
        if r.Got? then gid == GidAfterAnswer(0, r) && (outcome == Success <==> Acknowledges(r))
        else outcome == Unended(r) && gid == 0
    {
      hide RecvAttempt, Frame;
      gid := 0;
      outcome := CraftAndSend(COM_TYPE_HND, 0, null, 0, arriving);
    }

    /** `communication_craft_and_send`: what cannot be crafted is not sent. */
    method CraftAndSend(typ: byte, sel: byte, data: array?<byte>, size: byte, arriving: seq<byte>)
      returns (outcome: Outcome)
      requires data != null ==> size <= data.Length
      modifies this
      ensures (data == null && size > 0) || size > BODY_MAX_LEN || typ >= COM_TYPE_LIMIT ==>
        outcome == Failure && gid == old(gid) && rx == old(rx) && tx == old(tx)
      ensures (data == null ==> size == 0) && size <= BODY_MAX_LEN && typ < COM_TYPE_LIMIT ==>
        && tx == old(tx) + Frame(old(gid), typ, sel, if data == null then [] else data[..size])
        && var r := RecvAttempt(old(gid), arriving);
        if r.Got? then gid == GidAfterAnswer(old(gid), r) && (outcome == Success <==> Acknowledges(r))
        else outcome == Unended(r) && gid == old(gid)
    {
      hide RecvAttempt, Frame, Checksum, Sane;
      var p := new byte[PACKET_MAX_SIZE];
      var err := PacketCraft(p, gid, typ, sel, size, data);
      if err {
        return Failure;
      }
      ghost var body := if data == null then [] else data[..size];
      FrameSize(gid, typ, sel, body);
      assert p[..][..size + 5][3] == p[..][3] && p[..][..size + 5] == p[..size + 5];
      outcome := Send(p, arriving);
    }
  }

  lemma FrameSize(id: byte, typ: byte, sel: byte, body: seq<byte>)
    requires Craftable(typ, body)
    ensures |Frame(id, typ, sel, body)| == |body| + 5 && Size(Frame(id, typ, sel, body)) == |body| + 5
  {
    hide Checksum;
    FrameIsSane(id, typ, sel, body);
  }
}
