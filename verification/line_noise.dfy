/** Flipped bits on the serial line: what the checksum promises, seen from the protocol. */
module LineNoise {
  import opened Bytes
  import opened Crc8
  import opened CrcTheory
  import opened Packets
  import opened ClientSide
  import Link
  import LinkCalls

  /** The line flips the bits of `e`, none of them in the id or the size byte. */
  predicate Flips(frame: seq<byte>, wire: seq<byte>, e: seq<bv8>) {
    && |wire| == |e| == |frame| >= 5
    && AsBits(wire) == Corrupt(AsBits(frame), e)
    && e[0] == 0 && e[3] == 0
  }

  /** One, two or three flipped bits in a frame of at most 15 bytes. */
  predicate FewFlips(e: seq<bv8>) {
    |e| <= 15 && 1 <= Count(AllBits(e)) <= 3
  }

  /** Flipped bits within eight consecutive ones, in a frame of any length. */
  ghost predicate ShortBurst(e: seq<bv8>) {
    && (exists i :: 0 <= i < 8 * |e| && AllBits(e)[i])
    && forall j, k :: 0 <= j < k < 8 * |e| && AllBits(e)[j] && AllBits(e)[k] ==> k - j < 8
  }

  lemma ByteIsKept(frame: seq<byte>, wire: seq<byte>, e: seq<bv8>, k: nat)
    requires |wire| == |e| == |frame| && AsBits(wire) == Corrupt(AsBits(frame), e) && k < |e| && e[k] == 0
    ensures wire[k] == frame[k]
  {
    var a, b := wire[k] as bv8, frame[k] as bv8;
    assert AsBits(wire)[k] == a && Corrupt(AsBits(frame), e)[k] == b ^ e[k];
    assert a == b;
    BitsOfByte(wire[k]);
    BitsOfByte(frame[k]);
  }

  lemma ChecksumIsZero(p: seq<byte>)
    ensures Checksum(p) == 0 <==> Crc(AsBits(p)) == 0
  {
    hide Crc, AsBits;
    ZeroByte(Crc(AsBits(p)));
  }

  /** The checksum sees few flips, and short bursts. */
  lemma NoiseIsSeen(frame: seq<byte>, wire: seq<byte>, e: seq<bv8>)
    requires Sane(frame) && Flips(frame, wire, e) && (FewFlips(e) || ShortBurst(e))
    ensures Checksum(wire) != 0
  {
    hide Crc, Corrupt, AllBits, Count;
    ChecksumIsZero(frame);
    ChecksumIsZero(wire);
    if FewFlips(e) {
      UpToThreeFlipsAreDetected(AsBits(frame), e);
    } else {
      var i :| 0 <= i < 8 * |e| && AllBits(e)[i];
      BurstsAreDetected(AsBits(frame), e, i);
    }
  }

  /** So the master's sanity checks do. */
  lemma NoiseIsDamage(frame: seq<byte>, wire: seq<byte>, e: seq<bv8>)
    requires Sane(frame) && Flips(frame, wire, e) && (FewFlips(e) || ShortBurst(e))
    ensures Link.Damages(wire, frame)
  {
    ByteIsKept(frame, wire, e, 0);
    ByteIsKept(frame, wire, e, 3);
    NoiseIsSeen(frame, wire, e);
    hide Checksum, Corrupt, FewFlips, ShortBurst;
  }

  /**
   An answer or a reply hit by such noise is consumed whole and refused by the client: a send fails and
   the id falls back to 0; a receive sends a NAK with the id of the reply.
   */
  lemma NoisyAnswerIsRefused(gid: byte, typ: byte, sel: byte, body: seq<byte>,
                             wire: seq<byte>, e: seq<bv8>, rest: seq<byte>)
    requires Craftable(typ, body)
    requires Flips(Frame(gid, typ, sel, body), wire, e) && (FewFlips(e) || ShortBurst(e))
    ensures var r := RecvAttempt(gid, wire + rest);
      && r == Got(E_CORRUPTED_CHECKSUM, wire, rest)
      && !Acknowledges(r) && GidAfterAnswer(gid, r) == 0
      && |wire| >= 4 && ResponseTo(r) == Frame(gid, 3, 0, [])
  {
    var frame := Frame(gid, typ, sel, body);
    FrameIsSane(gid, typ, sel, body);
    ByteIsKept(frame, wire, e, 0);
    ByteIsKept(frame, wire, e, 3);
    NoiseIsSeen(frame, wire, e);
    hide Frame, Checksum, Corrupt, FewFlips, ShortBurst, RecvAttempt;
    AttemptRefusesDamage(gid, wire, rest);
  }

  /**
   A command hit by few flips or a short burst outside its id and size is run by nobody and refused;
   both ends are back at id 0, connected, and ready for the next command.
   */
  lemma NoisyCommandIsHarmless<E(!new)>(
    exec: Link.Exec<E>, s: Link.Link<E>, typ: byte, sel: byte, body: seq<byte>, wire: seq<byte>, e: seq<bv8>)
    requires Link.Answers(exec) && Link.Inv(exec, s) && Link.Quiet(s) && s.connected
    requires Link.IsCommand(typ) && |body| <= BODY_MAX_LEN
    requires Flips(Frame(s.gid, typ, sel, body), wire, e) && (FewFlips(e) || ShortBurst(e))
    ensures var t := Link.Run(exec, s,
        [Link.Damaged(typ, sel, body, wire), Link.MasterStep, Link.MasterStep, Link.TakeAnswer]);
      && Link.Inv(exec, t) && Link.Quiet(t) && t.connected && t.gid == 0 && t.master.gid == 0
      && t.master.executed == s.master.executed && t.master.env == s.master.env && t.issued == s.issued
  {
    NoiseIsEnabled(s, typ, sel, body, wire, e);
    hide *;
    LinkCalls.DamagedCommandIsHarmless(exec, s, Link.Damaged(typ, sel, body, wire));
  }

  lemma NoiseIsEnabled<E(!new)>(
    s: Link.Link<E>, typ: byte, sel: byte, body: seq<byte>, wire: seq<byte>, e: seq<bv8>)
    requires Link.Quiet(s) && s.connected && Link.IsCommand(typ) && |body| <= BODY_MAX_LEN
    requires Flips(Frame(s.gid, typ, sel, body), wire, e) && (FewFlips(e) || ShortBurst(e))
    ensures Link.Enabled(s, Link.Damaged(typ, sel, body, wire))
  {
    hide Frame, Checksum, Flips, FewFlips, ShortBurst, Link.Damages;
    FrameIsSane(s.gid, typ, sel, body);
    NoiseIsDamage(Frame(s.gid, typ, sel, body), wire, e);
  }
}
