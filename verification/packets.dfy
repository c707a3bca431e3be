/**
 Packets of the serial protocol. A frame is a 4-byte header (id, type, selector, size), a body of at
 most 32 bytes and a checksum; `size` counts all of them.
 */
module Packets {
  import opened Bytes
  import opened Crc8
  import CrcTheory

  const BODY_MAX_LEN := 32
  const HEADER_SIZE := 4
  const PACKET_MAX_SIZE := HEADER_SIZE + BODY_MAX_LEN + 1

  const COM_TYPE_NULL: byte := 0
  const COM_TYPE_HND: byte := 1
  const COM_TYPE_ACK: byte := 2
  const COM_TYPE_NAK: byte := 3
  const COM_TYPE_ECHO: byte := 4
  const COM_TYPE_PING: byte := 5
  const COM_TYPE_GET_SPEED: byte := 6
  const COM_TYPE_SET_SPEED: byte := 7
  const COM_TYPE_APPLY: byte := 8
  const COM_TYPE_DAT: byte := 9
  const COM_TYPE_SET_SLAVE_ADDR: byte := 10
  const COM_TYPE_LIMIT: byte := 11

  datatype ComError =
    | E_SUCCESS
    | E_ID_MISMATCH
    | E_CORRUPTED_CHECKSUM
    | E_WRONG_TYPE
    | E_TOO_BIG
    | E_SLAVE_NOT_FOUND

  function ErrorCode(e: ComError): byte {
    match e
    case E_SUCCESS => 0
    case E_ID_MISMATCH => 1
    case E_CORRUPTED_CHECKSUM => 2
    case E_WRONG_TYPE => 3
    case E_TOO_BIG => 4
    case E_SLAVE_NOT_FOUND => 5
  }

  /** The codes are the positions in the enumeration, so that no two errors share one. */
  lemma ErrorCodesDiffer(a: ComError, b: ComError)
    ensures ErrorCode(E_SUCCESS) == 0 && ErrorCode(E_ID_MISMATCH) == 1 && ErrorCode(E_CORRUPTED_CHECKSUM) == 2
    ensures ErrorCode(E_WRONG_TYPE) == 3 && ErrorCode(E_TOO_BIG) == 4 && ErrorCode(E_SLAVE_NOT_FOUND) == 5
    ensures ErrorCode(a) == ErrorCode(b) <==> a == b
  {
  }

  /** `(id + 1) % 0xFF`, on both sides of the link. */
  function NextId(id: byte): byte {
    (id + 1) % 255
  }

  function Id(p: seq<byte>): byte requires |p| >= 4 { p[0] }
  function Type(p: seq<byte>): byte requires |p| >= 4 { p[1] }
  function Selector(p: seq<byte>): byte requires |p| >= 4 { p[2] }
  function Size(p: seq<byte>): byte requires |p| >= 4 { p[3] }

  /** What lies between the header and the checksum. */
  function Body(p: seq<byte>): seq<byte>
    requires |p| >= 5
  {
    p[4..|p| - 1]
  }

  // ----- Crafting

  predicate Craftable(typ: byte, body: seq<byte>) {
    |body| <= BODY_MAX_LEN && typ < COM_TYPE_LIMIT
  }

  function Header(id: byte, typ: byte, sel: byte, body: seq<byte>): seq<byte>
    requires |body| <= BODY_MAX_LEN
  {
    [id, typ, sel, HEADER_SIZE + |body| + 1]
  }

  /** The bytes that `packet_craft` leaves in the packet. */
  function Frame(id: byte, typ: byte, sel: byte, body: seq<byte>): (p: seq<byte>)
    requires |body| <= BODY_MAX_LEN
    ensures |p| == |body| + 5
  {
    var covered := Header(id, typ, sel, body) + body;
    covered + [Checksum(covered)]
  }

  /** `packet_craft`, in place; true is the source's error return. */
  method PacketCraft(p: array?<byte>, id: byte, typ: byte, sel: byte, bodySize: byte, body: array?<byte>)
    returns (err: bool)
    requires p != null ==> p.Length == PACKET_MAX_SIZE && body != p
    requires body != null ==> bodySize <= body.Length
    modifies if p == null then {} else {p}
    ensures err <==> p == null || bodySize > BODY_MAX_LEN || (body == null && bodySize > 0) || typ >= COM_TYPE_LIMIT
    ensures err && p != null ==> p[..] == old(p[..])
    ensures !err ==>
      p[..bodySize + 5] == Frame(id, typ, sel, if body == null then [] else old(body[..bodySize]))
  {
    hide Checksum;
    if p == null || bodySize > BODY_MAX_LEN || (body == null && bodySize > 0) || typ >= COM_TYPE_LIMIT {
      return true;
    }
    p[0], p[1], p[2], p[3] := id, typ, sel, HEADER_SIZE + bodySize + 1;
    if body != null {
      forall i | 0 <= i < bodySize {
        p[4 + i] := body[i];
      }
    }
    ghost var b := if body == null then [] else old(body[..bodySize]);
    assert p[..4 + bodySize] == Header(id, typ, sel, b) + b;
    var cksum := ComputeCrc(p, 4 + bodySize);
    p[4 + bodySize] := cksum;
    err := false;
  }

  /** A received byte sequence that is a crafted packet. */
  predicate Sane(p: seq<byte>) {
    && 5 <= |p| <= PACKET_MAX_SIZE
    && Size(p) == |p|
    && Type(p) < COM_TYPE_LIMIT
    && Checksum(p) == 0
  }

  /** A header without body and checksum that counts itself as a packet, and whose four bytes have checksum 0. */
  predicate Bare(p: seq<byte>) {
    |p| == HEADER_SIZE && Size(p) == HEADER_SIZE && Type(p) < COM_TYPE_LIMIT && Checksum(p) == 0
  }

  /** What the sanity checks let through. */
  predicate Passes(p: seq<byte>) {
    Sane(p) || Bare(p)
  }

  lemma FrameIsSane(id: byte, typ: byte, sel: byte, body: seq<byte>)
    requires Craftable(typ, body)
    ensures var p := Frame(id, typ, sel, body);
      Sane(p) && Id(p) == id && Type(p) == typ && Selector(p) == sel && Body(p) == body
  {
    hide Checksum;
    var covered := Header(id, typ, sel, body) + body;
    CrcTheory.ChecksumOfAppended(covered, Checksum(covered));
  }

  lemma SaneHasHeader(p: seq<byte>)
    ensures Sane(p) ==> |p| >= HEADER_SIZE && Type(p) < COM_TYPE_LIMIT
  {
    hide Checksum;
  }

  lemma FrameLength(id: byte, typ: byte, sel: byte, body: seq<byte>)
    requires |body| <= BODY_MAX_LEN
    ensures |Frame(id, typ, sel, body)| == |body| + 5
  {
    hide Checksum;
  }

  lemma PassesHasHeader(p: seq<byte>)
    ensures Passes(p) ==> |p| >= HEADER_SIZE && Type(p) < COM_TYPE_LIMIT
  {
    hide Checksum;
  }

  /** The sane packets are exactly the crafted ones. */
  lemma SaneIsFrame(p: seq<byte>)
    requires Sane(p)
    ensures p == Frame(Id(p), Type(p), Selector(p), Body(p))
  {
    hide Checksum;
    var covered := p[..|p| - 1];
    assert p == covered + [p[|p| - 1]];
    assert covered == Header(Id(p), Type(p), Selector(p), Body(p)) + Body(p);
    CrcTheory.ChecksumOfAppended(covered, p[|p| - 1]);
  }

  lemma RoundIsTimesX8(crc: bv8, b: bv8)
    ensures DivisionRound(crc, b) == TimesX8(crc ^ b)
  {
    hide StepN, TimesX8;
    TimesX8IsEightSteps(crc ^ b);
  }

  /** The accumulator behind an id of 0 and a type, as bits. */
  lemma CrcBehindZero(typ: byte, bits: bv8)
    requires typ as bv8 == bits
    ensures Crc(AsBits([0, typ])) == TimesX8(bits)
  {
    assert AsBits([]) == [] && Crc([]) == 0 && AsBits([0]) == [0] && Crc([0]) == DivisionRound(0, 0);
    hide Crc, AsBits, DivisionRound;
    RoundIsTimesX8(0, 0);
    assert TimesX8(0) == 0 && 0 ^ bits == bits;
    hide TimesX8;
    RoundIsTimesX8(0, bits);
    assert [0] + [typ] == [0, typ];
    CrcSnoc([0], typ);
  }

  lemma OneSelector(crc: bv8, sel: bv8)
    ensures DivisionRound(crc, sel) == 4 <==> sel == crc ^ 0x6D
  {
    RoundIsTimesX8(crc, sel);
    hide DivisionRound;
  }

  lemma SizeByte(v: bv8)
    ensures v as int == HEADER_SIZE <==> v == 4
  {
  }

  lemma SelectorDecides(p: seq<byte>, sel: byte)
    ensures Checksum(p + [sel]) == HEADER_SIZE <==> sel as bv8 == Crc(AsBits(p)) ^ 0x6D
  {
    hide Crc, AsBits, DivisionRound;
    CrcSnoc(p, sel);
    SizeByte(Crc(AsBits(p + [sel])));
    OneSelector(Crc(AsBits(p)), sel as bv8);
  }

  /** For any id and type exactly one selector makes a header of size 4 pass for a packet. */
  lemma BareExactly(id: byte, typ: byte, sel: byte)
    requires typ < COM_TYPE_LIMIT
    ensures Bare([id, typ, sel, HEADER_SIZE]) <==> sel as bv8 == Crc(AsBits([id, typ])) ^ 0x6D
  {
    hide Checksum, Crc, AsBits;
    assert [id, typ, sel] + [HEADER_SIZE] == [id, typ, sel, HEADER_SIZE] && [id, typ] + [sel] == [id, typ, sel];
    CrcTheory.ChecksumOfAppended([id, typ, sel], HEADER_SIZE);
    SelectorDecides([id, typ], sel);
  }

  // ----- Receiving on the master

  /**
   The outcome of a receive call on the bytes at hand: an error code with the bytes consumed; or the
   call still waits in `serial_rx` for bytes that the packet has room for; or the header claims a size
   for which it asks for more than that, and `past` says whether the bytes at hand already go beyond
   the packet.
   */
  datatype Received =
    | Got(error: ComError, packet: seq<byte>, rest: seq<byte>)
    | Blocked
    | BadSize(past: bool)

  predicate HeaderMatches(gid: byte, header: seq<byte>)
    requires |header| >= 4
  {
    Id(header) == gid || (Type(header) == COM_TYPE_HND && Id(header) == 0)
  }

  function Receive(gid: byte, input: seq<byte>): (r: Received)
    ensures r.Got? ==> input == r.packet + r.rest && |r.packet| >= 4 && |r.rest| < |input|
    ensures r.Got? && r.error == E_SUCCESS ==> Passes(r.packet) && HeaderMatches(gid, r.packet)
  {
    if |input| < 4 then Blocked
    else if !HeaderMatches(gid, input) then Got(E_ID_MISMATCH, input[..4], input[4..])
    else if Size(input) > PACKET_MAX_SIZE then Got(E_TOO_BIG, input[..4], input[4..])
    else if Size(input) < HEADER_SIZE then BadSize(|input| > PACKET_MAX_SIZE)
    else if |input| < Size(input) then Blocked
    else
      var p, rest := input[..Size(input)], input[Size(input)..];
      if Type(p) >= COM_TYPE_LIMIT then Got(E_WRONG_TYPE, p, rest)
      else if Checksum(p) != 0 then Got(E_CORRUPTED_CHECKSUM, p, rest)
      else Got(E_SUCCESS, p, rest)
  }

  /** The checks, byte by byte and in their order, each with what is consumed when it fails. */
  lemma ReceiveByTheBytes(gid: byte, input: seq<byte>)
    requires |input| >= 4
    ensures var r, size, known := Receive(gid, input), input[3], input[0] == gid || (input[0] == 0 && input[1] == 1);
      if !known then r == Got(E_ID_MISMATCH, input[..4], input[4..])
      else if size > 37 then r == Got(E_TOO_BIG, input[..4], input[4..])
      else if size < 4 || |input| < size then !r.Got?
      else if input[1] >= 11 then r == Got(E_WRONG_TYPE, input[..size], input[size..])
      else if Checksum(input[..size]) != 0 then r == Got(E_CORRUPTED_CHECKSUM, input[..size], input[size..])
      else r == Got(E_SUCCESS, input[..size], input[size..])
  {
    hide Checksum;
  }

  /** What arrives is accepted exactly when a crafted frame, or a bare header, with an expected id is at the front. */
  lemma AcceptsExactlyFrames(gid: byte, input: seq<byte>, p: seq<byte>, rest: seq<byte>)
    ensures Receive(gid, input) == Got(E_SUCCESS, p, rest)
       <==> (Sane(p) || Bare(p)) && HeaderMatches(gid, p) && input == p + rest
  {
    hide Checksum;
    if Passes(p) && HeaderMatches(gid, p) && input == p + rest {
      assert input[..|p|] == p && input[|p|..] == rest;
    }
  }

  /** How many bytes `communication_recv` has written from the start of its packet, with the bytes at hand. */
  function Stored(gid: byte, input: seq<byte>): nat {
    if |input| < HEADER_SIZE then |input|
    else if !HeaderMatches(gid, input) || Size(input) > PACKET_MAX_SIZE then HEADER_SIZE
    else
      var asked := HEADER_SIZE + (Size(input) - HEADER_SIZE) % 0x100;
      if |input| < asked then |input| else asked
  }

  /** The packet is overrun exactly if more than it holds follows an expected header of size 0 to 3. */
  lemma OverrunsExactly(gid: byte, input: seq<byte>)
    ensures Stored(gid, input) > PACKET_MAX_SIZE <==> Receive(gid, input) == BadSize(true)
    ensures Receive(gid, input) == BadSize(true) <==>
      |input| > PACKET_MAX_SIZE && HeaderMatches(gid, input) && Size(input) < HEADER_SIZE
    ensures |input| >= 4 && HeaderMatches(gid, input) && input[3] < 4 ==>
      Stored(gid, input) == if |input| < 256 + input[3] as int then |input| else 256 + input[3] as int
  {
    hide Checksum;
  }

  /** A frame damaged outside its id and size bytes is consumed whole and refused. */
  lemma DamagedFrameIsRefused(gid: byte, p: seq<byte>, rest: seq<byte>)
    requires 5 <= |p| <= PACKET_MAX_SIZE && Size(p) == |p| && Id(p) == gid
    requires !Sane(p)
    ensures Receive(gid, p + rest)
         == Got(if Type(p) >= COM_TYPE_LIMIT then E_WRONG_TYPE else E_CORRUPTED_CHECKSUM, p, rest)
  {
    hide Checksum;
    assert (p + rest)[..|p|] == p && (p + rest)[|p|..] == rest;
  }

  // ----- Streams of frames

  datatype Message = Message(typ: byte, sel: byte, body: seq<byte>)

  predicate AllCraftable(msgs: seq<Message>) {
    forall i :: 0 <= i < |msgs| ==> Craftable(msgs[i].typ, msgs[i].body)
  }

  /** The frames of a sequence of messages, with successive ids, end to end. */
  function Stream(id: byte, msgs: seq<Message>): seq<byte>
    requires AllCraftable(msgs)
    decreases |msgs|
  {
    if msgs == [] then []
    else Frame(id, msgs[0].typ, msgs[0].sel, msgs[0].body) + Stream(NextId(id), msgs[1..])
  }

  /** `communication_recv` until the input is empty or a packet is refused; the id advances on success. */
  function ReceiveAll(gid: byte, input: seq<byte>): (r: (seq<Message>, seq<byte>))
    decreases |input|
  {
    if input == [] then ([], [])
    else
      match Receive(gid, input)
      case Got(E_SUCCESS, p, rest) =>
        var (msgs, left) := ReceiveAll(NextId(gid), rest);
        ([Message(Type(p), Selector(p), if |p| > HEADER_SIZE then Body(p) else [])] + msgs, left)
      case _ => ([], input)
  }

  /** Printing a sequence of messages and parsing it back gives the messages, with no byte left over. */
  lemma {:induction false} FramingRoundTrip(id: byte, msgs: seq<Message>)
    requires AllCraftable(msgs)
    ensures ReceiveAll(id, Stream(id, msgs)) == (msgs, [])
    decreases |msgs|
  {
    hide Frame, Receive, Sane;
    if msgs != [] {
      var m := msgs[0];
      var p, rest := Frame(id, m.typ, m.sel, m.body), Stream(NextId(id), msgs[1..]);
      FrameIsSane(id, m.typ, m.sel, m.body);
      AcceptsExactlyFrames(id, p + rest, p, rest);
      FramingRoundTrip(NextId(id), msgs[1..]);
      assert Stream(id, msgs) == p + rest != [];
      assert msgs == [m] + msgs[1..];
    }
  }

  /** So no byte sequence is the image of two message sequences: no byte is shared between frames. */
  lemma StreamIsInjective(id: byte, a: seq<Message>, b: seq<Message>)
    requires AllCraftable(a) && AllCraftable(b)
    requires Stream(id, a) == Stream(id, b)
    ensures a == b
  {
    FramingRoundTrip(id, a);
    FramingRoundTrip(id, b);
  }
}
