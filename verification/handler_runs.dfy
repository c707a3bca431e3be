/**
 The master's handler on input made of whole frames: what it answers and executes, when it returns, and
 what becomes of frames with an id that it does not expect.
 */
module HandlerRuns {
  import opened Bytes
  import Crc8
  import opened Packets
  import opened MasterSide
  import opened Link

  // ----- Whole frames, with the ids that the handler expects

  function Joined(frames: seq<seq<byte>>): seq<byte> {
    if frames == [] then [] else Joined(frames[..|frames| - 1]) + frames[|frames| - 1]
  }

  /** The expected id after the frames: a handshake starts over. */
  function FinalGid(gid: byte, frames: seq<seq<byte>>): byte {
    if frames == [] then gid
    else
      var before, p := FinalGid(gid, frames[..|frames| - 1]), frames[|frames| - 1];
      if |p| >= HEADER_SIZE then GidAfter(before, p) else before
  }

  /** Crafted frames, each with the id expected after those before it; a handshake may come at any time. */
  predicate Expected(gid: byte, frames: seq<seq<byte>>) {
    if frames == [] then true
    else
      var front, p := frames[..|frames| - 1], frames[|frames| - 1];
      Expected(gid, front) && Sane(p) && HeaderMatches(FinalGid(gid, front), p)
  }

  /** No frames are expected at once, and then any crafted frame with the id that is due, or a handshake. */
  lemma CraftedIsExpected(gid: byte, frames: seq<seq<byte>>, id: byte, typ: byte, sel: byte, body: seq<byte>)
    requires Craftable(typ, body) && Expected(gid, frames)
    ensures Expected(gid, [])
    ensures Expected(gid, frames + [Frame(id, typ, sel, body)])
      <==> id == FinalGid(gid, frames) || (id == 0 && typ == 1)
  {
    FrameIsSane(id, typ, sel, body);
    hide Frame, Crc8.Checksum, Sane, FinalGid;
    assert (frames + [Frame(id, typ, sel, body)])[..|frames|] == frames;
  }

  /** The frames that carry a command. */
  function Commands(frames: seq<seq<byte>>): seq<seq<byte>> {
    if frames == [] then [] else Commands(frames[..|frames| - 1]) + ToRun(frames[|frames| - 1])
  }

  /** An ACK for every frame, with its id, and behind it the DAT packet of its reply, if it has one. */
  function Answered<E>(exec: Exec<E>, start: E, done: seq<seq<byte>>, gid: byte, frames: seq<seq<byte>>): seq<byte> {
    if frames == [] then []
    else
      var front, p := frames[..|frames| - 1], frames[|frames| - 1];
      Answered(exec, start, done, gid, front) +
      if Sane(p) then AnswerTo(exec, Replay(exec, start, done + Commands(front)).0, FinalGid(gid, front), p) else []
  }

  function AnswerTo<E>(exec: Exec<E>, e: E, gid: byte, p: seq<byte>): seq<byte>
    requires Sane(p)
  {
    AckFrame(AckId(gid, p)) + InTransit(GidAfter(gid, p), SentFor(exec, e, p))
  }

  // ----- One frame

  lemma FrameIsServed<E>(exec: Exec<E>, m: Master<E>, start: E, p: seq<byte>, rest: seq<byte>)
    requires Sane(p) && (m.env, m.replies) == Replay(exec, start, m.executed)
    ensures var t := m.Served(exec, p, rest);
      && t.state == RECEIVING && t.input == rest && t.gid == GidAfter(m.gid, p)
      && t.executed == m.executed + ToRun(p) && (t.env, t.replies) == Replay(exec, start, t.executed)
      && t.output == m.output + AnswerTo(exec, m.env, m.gid, p)
  {
    hide Frame, Crc8.Checksum, Replay, ToRun, SentFor, InTransit, Master.Execute;
    var ack := AckFrame(AckId(m.gid, p));
    var acked := m.(rx := p, error := E_SUCCESS, input := rest, state := EXECUTE, gid := GidAfter(m.gid, p),
                    output := m.output + ack);
    ExecuteEffect(exec, acked, start);
    var dat := InTransit(GidAfter(m.gid, p), SentFor(exec, m.env, p));
    assert m.output + ack + dat == m.output + (ack + dat);
  }

  // ----- All of them

  /** Where the frames lead, with `rest` still to be read. */
  ghost predicate Reached<E>(
    exec: Exec<E>, m: Master<E>, start: E, frames: seq<seq<byte>>, rest: seq<byte>, t: Master<E>) {
    && t.state == RECEIVING && t.input == rest && t.gid == FinalGid(m.gid, frames)
    && t.executed == m.executed + Commands(frames) && (t.env, t.replies) == Replay(exec, start, t.executed)
    && t.output == m.output + Answered(exec, start, m.executed, m.gid, frames)
  }

  lemma NothingReached<E>(exec: Exec<E>, m: Master<E>, start: E)
    requires m.state == RECEIVING && (m.env, m.replies) == Replay(exec, start, m.executed)
    ensures Reached(exec, m, start, [], m.input, m)
  {
    hide Replay;
    assert m.executed + [] == m.executed && m.output + [] == m.output;
  }

  lemma Associate<T>(a: seq<T>, b: seq<T>, c: seq<T>)
    ensures a + b + c == a + (b + c)
  {
  }

  lemma OneMoreReached<E>(
    exec: Exec<E>, m: Master<E>, start: E, frames: seq<seq<byte>>, p: seq<byte>, rest: seq<byte>, t: Master<E>)
    requires Reached(exec, m, start, frames, p + rest, t) && Sane(p)
    ensures Reached(exec, m, start, frames + [p], rest, t.Served(exec, p, rest))
  {
    FrameIsServed(exec, t, start, p, rest);
    OneMoreFrame(exec, start, m.executed, m.gid, frames, p);
    hide Frame, Crc8.Checksum, Replay, ToRun, AnswerTo, Sane, Master.Served, FinalGid, Commands, Answered;
    Associate(m.executed, Commands(frames), ToRun(p));
    Associate(m.output, Answered(exec, start, m.executed, m.gid, frames), AnswerTo(exec, t.env, t.gid, p));
  }

  lemma OneMoreFrame<E>(
    exec: Exec<E>, start: E, done: seq<seq<byte>>, gid: byte, frames: seq<seq<byte>>, p: seq<byte>)
    requires Sane(p)
    ensures |p| >= HEADER_SIZE && FinalGid(gid, frames + [p]) == GidAfter(FinalGid(gid, frames), p)
    ensures Commands(frames + [p]) == Commands(frames) + ToRun(p)
    ensures Answered(exec, start, done, gid, frames + [p]) == Answered(exec, start, done, gid, frames)
      + AnswerTo(exec, Replay(exec, start, done + Commands(frames)).0, FinalGid(gid, frames), p)
  {
    SaneHasHeader(p);
    hide Frame, Crc8.Checksum, Replay, ToRun, AnswerTo, Sane;
    assert (frames + [p])[..|frames + [p]| - 1] == frames;
  }

  lemma {:induction false} FramesAreServed<E>(
    exec: Exec<E>, m: Master<E>, start: E, frames: seq<seq<byte>>, rest: seq<byte>) returns (t: Master<E>)
    requires m.state == RECEIVING && Expected(m.gid, frames) && m.input == Joined(frames) + rest
    requires (m.env, m.replies) == Replay(exec, start, m.executed)
    ensures m.Valid() && t.Valid() && m.Run(exec) == t.Run(exec) && Reached(exec, m, start, frames, rest, t)
    decreases |frames|
  {
    hide Frame, Crc8.Checksum, Replay, Reached, Sane, HeaderMatches, FinalGid, Master.Run, Master.Served;
    if frames == [] {
      assert [] + rest == rest;
      t := m;
      NothingReached(exec, m, start);
    } else {
      var front, p := frames[..|frames| - 1], frames[|frames| - 1];
      assert Joined(front) + p + rest == Joined(front) + (p + rest);
      var before := FramesAreServed(exec, m, start, front, p + rest);
      ReachedAt(exec, m, start, front, p + rest, before);
      before.ServeRun(exec, p, rest);
      OneMoreReached(exec, m, start, front, p, rest, before);
      t := before.Served(exec, p, rest);
      assert front + [p] == frames;
    }
  }

  lemma ReachedAt<E>(exec: Exec<E>, m: Master<E>, start: E, frames: seq<seq<byte>>, rest: seq<byte>, t: Master<E>)
    requires Reached(exec, m, start, frames, rest, t)
    ensures t.Valid() && t.state == RECEIVING && t.input == rest && t.gid == FinalGid(m.gid, frames)
  {
    hide Replay, FinalGid, Commands, Answered;
  }

  /**
   On whole frames with the expected ids the handler returns, in RECEIVING and with its input empty. It
   has acknowledged each frame with its id, run the commands among them in order, each once, and sent
   their replies, each behind the acknowledgement of its command.
   */
  lemma WholeFramesAreHandled<E>(exec: Exec<E>, m: Master<E>, start: E, frames: seq<seq<byte>>)
    requires m.state == RECEIVING && Expected(m.gid, frames) && m.input == Joined(frames)
    requires (m.env, m.replies) == Replay(exec, start, m.executed)
    ensures m.Valid() && Digestible(m.gid, m.input)
    ensures var r := m.Run(exec);
      && r.state == RECEIVING && r.input == [] && r.gid == FinalGid(m.gid, frames)
      && r.executed == m.executed + Commands(frames) && (r.env, r.replies) == Replay(exec, start, r.executed)
      && r.output == m.output + Answered(exec, start, m.executed, m.gid, frames)
  {
    hide Replay, Expected, Joined, FinalGid, Commands, Answered, Master.Run, Undigested;
    assert Joined(frames) + [] == Joined(frames);
    var t := FramesAreServed(exec, m, start, frames, []);
    t.RunsNoMore(exec);
    m.RunEndsExactly(exec);
  }

  // ----- A frame with another id

  /** What a frame with an unexpected id comes to: its header is dropped, and its tail is taken for the next. */
  lemma ForeignFrameLeavesItsTail<E>(exec: Exec<E>, m: Master<E>, p: seq<byte>)
    requires m.state == RECEIVING && m.input == p && Sane(p) && |p| <= 7 && !HeaderMatches(m.gid, p)
    ensures m.Valid()
    ensures var r := m.Run(exec);
      && r.state == RECEIVING && r.input == p[4..] != [] && r.gid == 0 && r.executed == m.executed
      && r.output == m.output + NakFrame(m.gid, E_ID_MISMATCH)
  {
    hide Frame, Crc8.Checksum, Master.Run;
    assert Receive(m.gid, p) == Got(E_ID_MISMATCH, p[..4], p[4..]);
    m.RefuseRun(exec);
    m.Refused(Receive(m.gid, p)).RunsNoMore(exec);
  }

  /**
   The exact condition for frames of at most 7 bytes, which all commands but ECHO have: behind whole
   frames with the expected ids, the handler returns exactly if one more frame has its expected id too.
   */
  lemma ReturnsOnExpectedIdExactly<E>(exec: Exec<E>, m: Master<E>, start: E, frames: seq<seq<byte>>, p: seq<byte>)
    requires m.state == RECEIVING && Expected(m.gid, frames) && Sane(p) && |p| <= 7
    requires m.input == Joined(frames) + p && (m.env, m.replies) == Replay(exec, start, m.executed)
    ensures m.Valid() && (m.Run(exec).input == [] <==> HeaderMatches(FinalGid(m.gid, frames), p))
    ensures Digestible(m.gid, m.input) <==> HeaderMatches(FinalGid(m.gid, frames), p)
  {
    hide Frame, Crc8.Checksum, Replay, Sane, FinalGid, HeaderMatches, Master.Run, Master.Served, Reached, Undigested;
    var t := FramesAreServed(exec, m, start, frames, p);
    ReachedAt(exec, m, start, frames, p, t);
    m.RunEndsExactly(exec);
    SaneHasHeader(p);
    if HeaderMatches(t.gid, p) {
      assert p + [] == p;
      t.ServeRun(exec, p, []);
      t.ServedIsBehind(exec, p, []);
      t.Served(exec, p, []).RunsNoMore(exec);
    } else {
      ForeignFrameLeavesItsTail(exec, t, p);
    }
  }

  /** So a master that expects id 0 blocks for good on a whole APPLY frame with id 1: its checksum is left over. */
  lemma ForeignApplyHangs<E>(exec: Exec<E>, m: Master<E>)
    requires m.state == RECEIVING && m.gid == 0 && m.input == Frame(1, COM_TYPE_APPLY, 0, [])
    ensures m.Valid() && |m.Run(exec).input| == 1 && m.Run(exec).Waiting() && !Digestible(m.gid, m.input)
  {
    FrameIsSane(1, COM_TYPE_APPLY, 0, []);
    FrameLength(1, COM_TYPE_APPLY, 0, []);
    hide Frame, Crc8.Checksum, Master.Run, Undigested, Sane;
    ForeignFrameLeavesItsTail(exec, m, m.input);
    m.RunEndsExactly(exec);
  }

  /**
   Input that the checks refuse is answered within two iterations by a NAK with the id that was expected
   and the number of the check that failed; nothing is run, and the id is 0.
   */
  lemma RefusalIsNamed<E>(exec: Exec<E>, m: Master<E>)
    requires m.state == RECEIVING && |m.input| >= 4
    requires var size, known := m.input[3], m.input[0] == m.gid || (m.input[0] == 0 && m.input[1] == 1);
      || !known || size > 37
      || (4 <= size <= |m.input| && (m.input[1] >= 11 || Crc8.Checksum(m.input[..size]) != 0))
    ensures m.Valid() && !m.Waiting() && m.Step(exec).Valid() && !m.Step(exec).Waiting()
    ensures var t, known := m.Step(exec).Step(exec), m.input[0] == m.gid || (m.input[0] == 0 && m.input[1] == 1);
      var code := if !known then 1 else if m.input[3] > 37 then 4 else if m.input[1] >= 11 then 3 else 2;
      && |t.output| == |m.output| + 5 && t.output[..|m.output|] == m.output
      && t.output[|m.output|..][..4] == [m.gid, 3, code, 5] && Crc8.Checksum(t.output[|m.output|..]) == 0
      && t.state == RECEIVING && t.gid == 0 && t.executed == m.executed && t.env == m.env
  {
    ReceiveByTheBytes(m.gid, m.input);
    var r := Receive(m.gid, m.input);
    ErrorCodesDiffer(r.error, r.error);
    NakOnTheWire(m.gid, r.error);
    hide Frame, Crc8.Checksum, Receive, Master.Step, Master.Waiting, ErrorCode;
    m.RefuseStep(exec);
    m.Step(exec).NakStep(exec);
    assert (m.output + NakFrame(m.gid, r.error))[|m.output|..] == NakFrame(m.gid, r.error);
  }

  lemma NakOnTheWire(gid: byte, e: ComError)
    ensures var p := NakFrame(gid, e);
      |p| == 5 && p[..4] == [gid, 3, ErrorCode(e), 5] && Crc8.Checksum(p) == 0
  {
    NakIsSane(gid, e);
    hide Crc8.Checksum, ErrorCode;
  }

  /** Nothing tells the body of a dropped header from a packet: what passes there, under id 0, is served. */
  lemma BodyIsServed<E>(exec: Exec<E>, m: Master<E>, p: seq<byte>, q: seq<byte>, rest: seq<byte>)
    requires m.state == RECEIVING && m.input == p && |p| >= HEADER_SIZE && !HeaderMatches(m.gid, p)
    requires p[HEADER_SIZE..] == q + rest && Passes(q) && HeaderMatches(0, q)
    ensures m.Valid()
    ensures var s := m.Refused(Got(E_ID_MISMATCH, p[..4], p[4..])).Served(exec, q, rest);
      s.state == RECEIVING && s.Valid() && m.Run(exec) == s.Run(exec)
  {
    hide Frame, Crc8.Checksum, Master.Run, Master.Served, Passes, HeaderMatches;
    assert Receive(m.gid, p) == Got(E_ID_MISMATCH, p[..4], p[4..]);
    m.RefuseRun(exec);
    m.Refused(Receive(m.gid, p)).ServeRun(exec, q, rest);
  }

  /** A bare ECHO is acknowledged and answered by what an uninitialised packet holds, up to 32 bytes of it. */
  lemma BareEchoIsServed<E>(exec: Exec<E>, m: Master<E>, p: seq<byte>, rest: seq<byte>)
    requires Bare(p) && p[1] == 4
    ensures var t, n := m.Served(exec, p, rest), if |m.stack| == 37 then m.stack[3] else 0;
      && t.executed == m.executed + [p] && t.replies == m.replies && t.env == m.env && t.state == RECEIVING
      && t.output == m.output + AckFrame(m.gid) + if 0 < n <= 32 then m.stack[..n] else []
  {
    hide Frame, Crc8.Checksum;
  }

  /** A header of an APPLY packet with id 0 that counts itself as a packet. */
  const BARE_APPLY: seq<byte> := [0, COM_TYPE_APPLY, 85, HEADER_SIZE]

  lemma ApplyIsBare()
    ensures Bare(BARE_APPLY)
  {
    hide Crc8.Checksum;
    CrcBehindZero(COM_TYPE_APPLY, 8);
    BareExactly(0, COM_TYPE_APPLY, 85);
  }

  lemma BareApplyIsRun<E>(exec: Exec<E>, m: Master<E>, rest: seq<byte>)
    requires Bare(BARE_APPLY)
    ensures var s := m.Served(exec, BARE_APPLY, rest);
      s.executed == m.executed + [BARE_APPLY] && s.env == exec(m.env, BARE_APPLY).0 && s.input == rest
  {
    hide Frame, Crc8.Checksum;
  }

  lemma LoneHeaderIsRefused<E>(exec: Exec<E>, m: Master<E>)
    requires m.state == RECEIVING && |m.input| == HEADER_SIZE && !HeaderMatches(m.gid, m.input)
    ensures m.Valid() && m.Run(exec) == m.Refused(Got(E_ID_MISMATCH, m.input, []))
  {
    assert Receive(m.gid, m.input) == Got(E_ID_MISMATCH, m.input, []);
    hide Frame, Crc8.Checksum, Receive, Master.Run;
    m.RefuseRun(exec);
    m.Refused(Receive(m.gid, m.input)).RunsNoMore(exec);
  }

  /** So a whole ECHO frame with another id can make the master run an APPLY that nobody sent. */
  lemma EchoedHeaderIsRun<E>(exec: Exec<E>, m: Master<E>)
    requires m.state == RECEIVING && m.gid != 1
    requires m.input == Frame(1, COM_TYPE_ECHO, 0, BARE_APPLY + [9, 9, 9])
    ensures m.Valid() && Digestible(m.gid, m.input)
    ensures var r := m.Run(exec);
      && r.state == RECEIVING && r.input == [] && r.gid == 0
      && r.executed == m.executed + [BARE_APPLY] && r.env == exec(m.env, BARE_APPLY).0
  {
    var p := m.input;
    assert p[..4] == [1, COM_TYPE_ECHO, 0, 12] && p[4..] == BARE_APPLY + p[8..] && p[8] == 9 && p[9] == 9;
    ApplyIsBare();
    hide Frame, Crc8.Checksum, Bare, Master.Run, Master.Served, Undigested;
    BodyIsServed(exec, m, p, BARE_APPLY, p[8..]);
    var refused := m.Refused(Got(E_ID_MISMATCH, p[..4], p[4..]));
    BareApplyIsRun(exec, refused, p[8..]);
    refused.ServedIsBehind(exec, BARE_APPLY, p[8..]);
    var served := refused.Served(exec, BARE_APPLY, p[8..]);
    LoneHeaderIsRefused(exec, served);
    m.RunEndsExactly(exec);
  }

  /**
   A client whose id fell back to 0 sets a speed of 0 and connects. The master, at another id, takes the
   tail of the first frame and the id of the second for a header of size 0: it waits, and writes past its
   packet as soon as more than 29 bytes follow.
   */
  lemma SetSpeedThenConnectOverruns<E>(exec: Exec<E>, m: Master<E>, more: seq<byte>)
    requires m.state == RECEIVING && m.gid != 0
    requires m.input == Frame(0, COM_TYPE_SET_SPEED, 1, [0, 0]) + HANDSHAKE + more
    ensures m.Valid() && m.Run(exec).executed == m.executed && m.Run(exec).gid == 0
    ensures !Digestible(m.gid, m.input) && (Overrun(m.gid, m.input) <==> |more| > 29)
  {
    FrameLength(0, COM_TYPE_SET_SPEED, 1, [0, 0]);
    FrameLength(0, COM_TYPE_HND, 0, []);
    var p, left := m.input, m.input[4..];
    assert p[..4] == [0, COM_TYPE_SET_SPEED, 1, 7] && left[0] == 0 && left[3] == 0 && |left| == 8 + |more|;
    hide Frame, Crc8.Checksum, Master.Run, Undigested, HANDSHAKE;
    assert Receive(m.gid, p) == Got(E_ID_MISMATCH, p[..4], left);
    m.RefuseRun(exec);
    assert !Receive(0, left).Got?;
    m.Refused(Receive(m.gid, p)).RunsNoMore(exec);
    m.RunEndsExactly(exec);
  }
}
