/**
 Single calls on the link, from a given point to their end: a handshake, an accepted command, an echo
 that is too long, a damaged command, and a command that outruns the master's last acknowledgement; and
 which calls are accepted.
 */
module LinkCalls {
  import opened Bytes
  import Crc8
  import opened Packets
  import opened ClientSide
  import opened MasterSide
  import opened Link

  // ----- Calls, step by step

  lemma RunSnoc<E>(exec: Exec<E>, s: Link<E>, actions: seq<Action>, a: Action)
    ensures Run(exec, s, actions + [a]) == Step(exec, Run(exec, s, actions), a)
  {
    hide Step;
    assert (actions + [a])[..|actions|] == actions;
  }

  lemma Run1<E>(exec: Exec<E>, s: Link<E>, a: Action)
    ensures Run(exec, s, [a]) == Step(exec, s, a)
  {
    hide Step;
    RunSnoc(exec, s, [], a);
    assert [] + [a] == [a];
  }

  lemma Run2<E>(exec: Exec<E>, s: Link<E>, a: Action, b: Action)
    ensures Run(exec, s, [a, b]) == Step(exec, Step(exec, s, a), b)
  {
    hide Step, Run;
    Run1(exec, s, a);
    RunSnoc(exec, s, [a], b);
    assert [a] + [b] == [a, b];
  }

  lemma Run3<E>(exec: Exec<E>, s: Link<E>, a: Action, b: Action, c: Action)
    ensures Run(exec, s, [a, b, c]) == Step(exec, Step(exec, Step(exec, s, a), b), c)
  {
    hide Step, Run;
    Run2(exec, s, a, b);
    RunSnoc(exec, s, [a, b], c);
    assert [a, b] + [c] == [a, b, c];
  }

  lemma Run4<E>(exec: Exec<E>, s: Link<E>, a: Action, b: Action, c: Action, d: Action)
    ensures Run(exec, s, [a, b, c, d]) == Step(exec, Step(exec, Step(exec, Step(exec, s, a), b), c), d)
  {
    hide Step, Run;
    Run3(exec, s, a, b, c);
    RunSnoc(exec, s, [a, b, c], d);
    assert [a, b, c] + [d] == [a, b, c, d];
  }

  lemma Run5<E>(exec: Exec<E>, s: Link<E>, a: Action, b: Action, c: Action, d: Action, e: Action)
    ensures Run(exec, s, [a, b, c, d, e]) == Step(exec, Run(exec, s, [a, b, c, d]), e)
  {
    hide Step, Run;
    RunSnoc(exec, s, [a, b, c, d], e);
    assert [a, b, c, d] + [e] == [a, b, c, d, e];
  }

  lemma MasterStepIs<E>(exec: Exec<E>, s: Link<E>)
    requires s.master.Valid() && !s.master.Waiting()
    ensures Step(exec, s, MasterStep) == s.(master := s.master.Step(exec))
  {
    hide Master.Step, Master.Waiting;
  }

  lemma QuietAgrees<E>(exec: Exec<E>, s: Link<E>)
    requires Inv(exec, s) && Quiet(s)
    ensures InStep(s) && (s.connected ==> s.master.gid == s.gid)
  {
    hide Frame, Crc8.Checksum, Replay, Counts;
  }

  /** The link once the master has acknowledged a frame and is about to execute it. */
  function Acknowledged<E>(s: Link<E>, frame: seq<byte>): Link<E> {
    s.(phase := AwaitAck(frame),
       master := s.master.(rx := frame, error := E_SUCCESS, input := [], output := AckFrame(s.gid),
                           gid := NextId(s.gid), state := EXECUTE))
  }

  lemma FrameIsAcknowledged<E>(exec: Exec<E>, s: Link<E>, frame: seq<byte>)
    requires s.master.state == RECEIVING && s.master.input == [] && s.master.gid == s.gid
    requires Sane(frame) && Id(frame) == s.gid && Type(frame) != COM_TYPE_HND
    ensures Step(exec, Step(exec, Transmit(s, frame, frame), MasterStep), MasterStep) == Acknowledged(s, frame)
  {
    hide Frame, Crc8.Checksum, Receive, Step, Master.Step, Master.Waiting;
    var s1 := Transmit(s, frame, frame);
    assert s1.master.input == frame + [];
    s1.master.TakeStep(exec, frame, []);
    MasterStepIs(exec, s1);
    var s2 := Step(exec, s1, MasterStep);
    s2.master.AckStep(exec);
    MasterStepIs(exec, s2);
    assert [] + AckFrame(s.gid) == AckFrame(s.gid);
  }

  /** A command issued at a quiet point is accepted, and is the next that the master executes. */
  lemma CommandIsAccepted<E(!new)>(exec: Exec<E>, s: Link<E>, a: Action)
    requires Answers(exec) && Inv(exec, s) && Quiet(s)
    requires a.Command? && Enabled(s, a)
    ensures var t, frame := Run(exec, s, [a, MasterStep, MasterStep, TakeAnswer]), Frame(s.gid, a.typ, a.sel, a.body);
      && t.issued == s.issued + [frame] && t.gid == NextId(s.gid) && t.connected
      && t.phase == (if WantsReply(a.typ) then AwaitData(frame) else Ready)
      && t.master.state == EXECUTE && t.master.rx == frame && t.master.input == [] && t.master.output == []
  {
    var frame := Frame(s.gid, a.typ, a.sel, a.body);
    FrameIsSane(s.gid, a.typ, a.sel, a.body);
    QuietAgrees(exec, s);
    Run4(exec, s, a, MasterStep, MasterStep, TakeAnswer);
    assert Step(exec, s, a) == Transmit(s, frame, frame) by { hide Frame, Crc8.Checksum; }
    hide Frame, Crc8.Checksum, Inv, Step, Run, AckFrame, Enabled, Transmit;
    FrameIsAcknowledged(exec, s, frame);
    CommandIsTaken(exec, s, frame);
  }

  lemma CommandIsTaken<E>(exec: Exec<E>, s: Link<E>, frame: seq<byte>)
    requires Sane(frame) && IsCommand(Type(frame))
    ensures Step(exec, Acknowledged(s, frame), TakeAnswer) == Accepted(Acknowledged(s, frame), [])
  {
    hide Frame, Crc8.Checksum, AckFrame, TakeAnswerStep, Enabled;
    assert AckFrame(s.gid) + [] == AckFrame(s.gid);
    TakeAckStep(Acknowledged(s, frame), []);
  }

  /** A command without a reply, from a quiet point to the next: it is issued, and it is what the master has run. */
  lemma SetterIsRun<E(!new)>(exec: Exec<E>, s: Link<E>, a: Action)
    requires Answers(exec) && Inv(exec, s) && Quiet(s)
    requires a.Command? && Enabled(s, a) && !WantsReply(a.typ)
    ensures var t, frame := Run(exec, s, [a, MasterStep, MasterStep, TakeAnswer, MasterStep]),
                            Frame(s.gid, a.typ, a.sel, a.body);
      && Inv(exec, t) && Quiet(t) && t.connected && t.issued == s.issued + [frame]
      && Sane(frame) && t.master.env == Result(exec, s.master.env, frame).0
  {
    var frame, calls := Frame(s.gid, a.typ, a.sel, a.body), [a, MasterStep, MasterStep, TakeAnswer];
    FrameIsSane(s.gid, a.typ, a.sel, a.body);
    CommandIsAccepted(exec, s, a);
    hide Frame, Crc8.Checksum, Inv, Answers, Run, Step, Replay, Result, Fits, Sane, Enabled, Quiet;
    Run5(exec, s, a, MasterStep, MasterStep, TakeAnswer, MasterStep);
    RunKeepsInv(exec, s, calls + [MasterStep]);
    StartStays(exec, s, calls + [MasterStep]);
    assert calls + [MasterStep] == [a, MasterStep, MasterStep, TakeAnswer, MasterStep];
    ReplaySnoc(exec, s.start, s.issued, frame);
    SetterEnds(exec, s, Run(exec, s, calls), frame);
    QuietReplays(exec, s);
    QuietReplays(exec, Run(exec, s, calls + [MasterStep]));
  }

  lemma SetterEnds<E>(exec: Exec<E>, s: Link<E>, u: Link<E>, frame: seq<byte>)
    requires u.phase == Ready && u.master.state == EXECUTE && u.master.input == []
    requires u.master.rx == frame && Sane(frame)
    ensures var t := Step(exec, u, MasterStep); Quiet(t) && t.issued == u.issued && t.connected == u.connected
  {
    hide Frame, Crc8.Checksum, Receive, Step, Master.Step, Master.Waiting, Master.Execute;
    u.master.ExecuteStep(exec);
    u.master.ExecuteReturns(exec);
    MasterStepIs(exec, u);
  }

  /** The acknowledgement of a reply is acknowledged in turn, and the link is quiet. */
  lemma OwedAckSettles<E>(exec: Exec<E>, s: Link<E>)
    requires Inv(exec, s) && s.phase == Ready && s.master.state == RECEIVING && s.master.input != []
    ensures var t := Step(exec, Step(exec, Step(exec, s, MasterStep), MasterStep), MasterStep);
      Quiet(t) && t.issued == s.issued && t.received == s.received && t.connected == s.connected
  {
    OwedAck(exec, s);
    var ack := AckFrame(s.master.gid);
    AckIsSane(s.master.gid);
    hide Frame, Crc8.Checksum, Inv, Receive, Step, Master.Step, Master.Waiting, Master.Execute, AckFrame, Sane;
    assert ack + [] == ack;
    s.master.TakeStep(exec, ack, []);
    MasterStepIs(exec, s);
    var s1 := Step(exec, s, MasterStep);
    s1.master.AckStep(exec);
    MasterStepIs(exec, s1);
    SetterEnds(exec, s, Step(exec, s1, MasterStep), ack);
  }

  lemma DataIsTaken<E>(exec: Exec<E>, u: Link<E>)
    requires Inv(exec, u) && Enabled(u, TakeData)
    ensures var t := Step(exec, u, TakeData);
      && t.phase == Ready && t.master.state == RECEIVING && t.master.input != []
      && t.issued == u.issued && t.connected == u.connected
  {
    var r := OneReplyOutstanding(exec, u);
    AwaitingHasRead(exec, u);
    AckIsSane(u.gid);
    hide Frame, Crc8.Checksum, RecvAttempt, Inv, TakeDataStep, AckFrame, DataFrame, Enabled;
    TakeReplyStep(u, r);
  }

  lemma AwaitingHasRead<E>(exec: Exec<E>, u: Link<E>)
    requires Inv(exec, u) && u.phase.AwaitData?
    ensures u.master.input == [] && u.connected && (u.master.state == RECEIVING || u.master.state == EXECUTE)
    ensures u.master.state == RECEIVING ==> u.master.Waiting()
  {
    hide Frame, Crc8.Checksum, Replay, Counts, Receive;
  }

  /** A query, from a quiet point to the next: its reply is what the master's operation gave. */
  lemma QueryIsRun<E(!new)>(exec: Exec<E>, s: Link<E>, a: Action)
    requires Answers(exec) && Inv(exec, s) && Quiet(s)
    requires a.Command? && Enabled(s, a) && WantsReply(a.typ) && (a.typ == COM_TYPE_ECHO ==> |a.body| <= 27)
    ensures var t := Run(exec, s, [a, MasterStep, MasterStep, TakeAnswer, MasterStep]
                                  + [TakeData, MasterStep, MasterStep, MasterStep]);
      var frame := Frame(s.gid, a.typ, a.sel, a.body);
      && Inv(exec, t) && Quiet(t) && t.connected && t.issued == s.issued + [frame]
      && Sane(frame) && t.master.env == Result(exec, s.master.env, frame).0
      && t.received == s.received + Fits(Result(exec, s.master.env, frame).1)
  {
    var frame, calls := Frame(s.gid, a.typ, a.sel, a.body), [a, MasterStep, MasterStep, TakeAnswer];
    FrameIsSane(s.gid, a.typ, a.sel, a.body);
    CommandIsAccepted(exec, s, a);
    hide Frame, Crc8.Checksum, Inv, Answers, Run, Step, Replay, Result, Fits, Sane, Enabled, Quiet, WantsReply;
    Run5(exec, s, a, MasterStep, MasterStep, TakeAnswer, MasterStep);
    var first := [a, MasterStep, MasterStep, TakeAnswer, MasterStep];
    var rest := [TakeData, MasterStep, MasterStep, MasterStep];
    assert calls + [MasterStep] == first;
    RunKeepsInv(exec, s, first);
    var u := Run(exec, s, first);
    QueryWaits(exec, Run(exec, s, calls), frame);
    DataIsTaken(exec, u);
    StepKeepsInv(exec, u, TakeData);
    OwedAckSettles(exec, Step(exec, u, TakeData));
    Run4(exec, u, TakeData, MasterStep, MasterStep, MasterStep);
    RunAppend(exec, s, first, rest);
    RunKeepsInv(exec, s, first + rest);
    StartStays(exec, s, first + rest);
    ReplaySnoc(exec, s.start, s.issued, frame);
    QuietReplays(exec, s);
    QuietReplays(exec, Run(exec, s, first + rest));
  }

  lemma QueryWaits<E(!new)>(exec: Exec<E>, t: Link<E>, frame: seq<byte>)
    requires Answers(exec) && Inv(exec, Step(exec, t, MasterStep)) && t.phase == AwaitData(frame)
    requires t.master.state == EXECUTE && t.master.rx == frame && Sane(frame)
    requires Type(frame) == COM_TYPE_ECHO ==> |Body(frame)| <= 27
    ensures var u := Step(exec, t, MasterStep);
      Enabled(u, TakeData) && u.issued == t.issued && u.connected == t.connected
  {
    hide Frame, Crc8.Checksum, Inv, Answers, Step, Sane, Master.Waiting, RecvAttempt;
    EchoIsRun(exec, t);
    var u := Step(exec, t, MasterStep);
    ReceiveIsStuckOnLongEcho(exec, u);
    AwaitingHasRead(exec, u);
  }

  lemma {:induction false} RunAppend<E>(exec: Exec<E>, s: Link<E>, a: seq<Action>, b: seq<Action>)
    ensures Run(exec, s, a + b) == Run(exec, Run(exec, s, a), b)
  {
    hide Step;
    if b == [] {
      assert a + b == a;
    } else {
      var front, e := b[..|b| - 1], b[|b| - 1];
      assert a + b == a + front + [e] && b == front + [e];
      RunAppend(exec, s, a, front);
      RunSnoc(exec, s, a + front, e);
    }
  }

  lemma QuietReplays<E>(exec: Exec<E>, s: Link<E>)
    requires Inv(exec, s) && Quiet(s)
    ensures s.master.executed == s.issued && (s.master.env, s.received) == Replay(exec, s.start, s.issued)
  {
    QuietAgrees(exec, s);
    hide Frame, Crc8.Checksum, Replay, Counts;
  }

  /** From any start a handshake connects the two ends, with id 1 on both sides. */
  lemma HandshakeConnects<E(!new)>(exec: Exec<E>, s: Link<E>)
    requires Answers(exec) && Initial(s)
    ensures var t := Run(exec, s, HANDSHAKING);
      Inv(exec, t) && Quiet(t) && t.connected && t.gid == t.master.gid == 1 && t.issued == []
  {
    hide Crc8.Checksum, Frame, Inv, Answers;
    InitialInv(exec, s);
    RunKeepsInv(exec, s, HANDSHAKING);
    HandshakeSteps(exec, s);
  }

  const HANDSHAKING: seq<Action> := [Connect, MasterStep, MasterStep, MasterStep, MasterStep] + [TakeAnswer]

  function Greeted<E>(s: Link<E>): Link<E> {
    s.(gid := 0, phase := AwaitAck(HANDSHAKE),
       master := s.master.(rx := HANDSHAKE, error := E_SUCCESS, input := [], output := AckFrame(0), gid := 1,
                           state := EXECUTE))
  }

  lemma HandshakeIsAcknowledged<E>(exec: Exec<E>, s: Link<E>)
    requires s.master.state == RECEIVING && s.master.input == []
    ensures var s1 := Transmit(s.(gid := 0), HANDSHAKE, HANDSHAKE);
      Step(exec, Step(exec, Step(exec, s1, MasterStep), MasterStep), MasterStep) == Greeted(s)
  {
    HandshakeIsSane();
    hide Crc8.Checksum, Frame, Receive, Step, Master.Step, Master.Waiting, HANDSHAKE;
    var s1 := Transmit(s.(gid := 0), HANDSHAKE, HANDSHAKE);
    assert s1.master.input == HANDSHAKE + [];
    s1.master.TakeStep(exec, HANDSHAKE, []);
    MasterStepIs(exec, s1);
    var s2 := Step(exec, s1, MasterStep);
    s2.master.HndStep(exec);
    MasterStepIs(exec, s2);
    var s3 := Step(exec, s2, MasterStep);
    s3.master.AckStep(exec);
    MasterStepIs(exec, s3);
    assert [] + AckFrame(0) == AckFrame(0);
  }

  lemma GreetingEnds<E>(exec: Exec<E>, s: Link<E>)
    ensures var t := Step(exec, Step(exec, Greeted(s), MasterStep), TakeAnswer);
      Quiet(t) && t.connected && t.gid == t.master.gid == 1 && t.issued == s.issued
  {
    HandshakeIsSane();
    hide Crc8.Checksum, Frame, Receive, Step, Master.Step, Master.Waiting, HANDSHAKE, AckFrame, TakeAnswerStep, Enabled;
    var s4 := Greeted(s);
    s4.master.ExecuteStep(exec);
    s4.master.ExecuteNull(exec);
    MasterStepIs(exec, s4);
    var s5 := Step(exec, s4, MasterStep);
    assert AckFrame(0) + [] == AckFrame(0);
    TakeAckStep(s5, []);
    TakeAnswerIs(exec, s5);
  }

  lemma HandshakeSteps<E>(exec: Exec<E>, s: Link<E>)
    requires Initial(s)
    ensures var t := Run(exec, s, HANDSHAKING);
      Quiet(t) && t.connected && t.gid == t.master.gid == 1 && t.issued == []
  {
    hide Crc8.Checksum, Frame;
    assert Step(exec, s, Connect) == Transmit(s.(gid := 0), HANDSHAKE, HANDSHAKE);
    hide Step, Run, HANDSHAKE, Greeted;
    HandshakeIsAcknowledged(exec, s);
    GreetingEnds(exec, s);
    Run4(exec, s, Connect, MasterStep, MasterStep, MasterStep);
    Run5(exec, s, Connect, MasterStep, MasterStep, MasterStep, MasterStep);
    RunSnoc(exec, s, [Connect, MasterStep, MasterStep, MasterStep, MasterStep], TakeAnswer);
  }

  lemma TakeAnswerIs<E>(exec: Exec<E>, s: Link<E>)
    requires Enabled(s, TakeAnswer)
    ensures Step(exec, s, TakeAnswer) == TakeAnswerStep(s)
  {
    hide TakeAnswerStep, Enabled;
  }

  // ----- Echoes that are too long

  /** An ECHO call from a quiet point: nothing can happen any more exactly if its body has more than 27 bytes. */
  lemma EchoHangsExactly<E(!new)>(exec: Exec<E>, s: Link<E>, sel: byte, body: seq<byte>)
    requires Answers(exec) && Inv(exec, s) && Quiet(s) && s.connected && |body| <= BODY_MAX_LEN
    ensures var t := Run(exec, s, [Command(COM_TYPE_ECHO, sel, body), MasterStep, MasterStep, TakeAnswer, MasterStep]);
      && t.phase == AwaitData(Frame(s.gid, COM_TYPE_ECHO, sel, body))
      && ((forall a: Action :: !Enabled(t, a)) <==> |body| > 27)
  {
    var a, frame := Command(COM_TYPE_ECHO, sel, body), Frame(s.gid, COM_TYPE_ECHO, sel, body);
    FrameIsSane(s.gid, COM_TYPE_ECHO, sel, body);
    CommandIsAccepted(exec, s, a);
    Run5(exec, s, a, MasterStep, MasterStep, TakeAnswer, MasterStep);
    RunKeepsInv(exec, s, [a, MasterStep, MasterStep, TakeAnswer, MasterStep]);
    hide Frame, Crc8.Checksum, Inv, Run, Answers, Step, Receive, RecvAttempt;
    var t := Run(exec, s, [a, MasterStep, MasterStep, TakeAnswer]);
    EchoIsRun(exec, t);
    var u := Step(exec, t, MasterStep);
    ReceiveIsStuckOnLongEcho(exec, u);
    assert Enabled(u, TakeData) || Enabled(u, MasterStep) ==> exists b: Action :: Enabled(u, b);
    OnlyTheseWait(u);
  }

  lemma EchoIsRun<E>(exec: Exec<E>, t: Link<E>)
    requires t.master.state == EXECUTE && Sane(t.master.rx)
    ensures var u := Step(exec, t, MasterStep);
      && u.phase == t.phase && u.master.state == RECEIVING && u.issued == t.issued && u.connected == t.connected
  {
    hide Frame, Crc8.Checksum, Receive, Step, Master.Step, Master.Waiting, Master.Execute;
    t.master.ExecuteStep(exec);
    t.master.ExecuteReturns(exec);
    MasterStepIs(exec, t);
  }

  lemma OnlyTheseWait<E>(s: Link<E>)
    requires s.phase.AwaitData?
    ensures forall a: Action :: Enabled(s, a) ==> a == TakeData || a == MasterStep
  {
    hide Frame, Crc8.Checksum, RecvAttempt, Receive;
  }

  /** So 28 bytes, the first echo after connecting, hang the client. */
  lemma EchoOf28Hangs<E(!new)>(exec: Exec<E>, s: Link<E>, a: Action)
    requires Answers(exec) && Initial(s)
    ensures var echo := Command(COM_TYPE_ECHO, 0, seq(28, _ => 0));
      !Enabled(Run(exec, Run(exec, s, HANDSHAKING), [echo, MasterStep, MasterStep, TakeAnswer, MasterStep]), a)
  {
    hide Frame, Crc8.Checksum, Inv, Run, Answers, Step, Enabled;
    HandshakeConnects(exec, s);
    EchoHangsExactly(exec, Run(exec, s, HANDSHAKING), 0, seq(28, _ => 0));
  }

  // ----- Damaged commands

  /**
   A command damaged outside its id and size bytes is consumed whole, answered with NAK and run by
   nobody; both ids fall back to 0, where the next command starts without a new handshake.
   */
  lemma DamagedCommandIsHarmless<E(!new)>(exec: Exec<E>, s: Link<E>, a: Action)
    requires Answers(exec) && Inv(exec, s) && Quiet(s)
    requires a.Damaged? && Enabled(s, a)
    ensures var t := Run(exec, s, [a, MasterStep, MasterStep, TakeAnswer]);
      && Inv(exec, t) && Quiet(t) && t.connected
      && t.gid == 0 && t.master.gid == 0 && t.master.output == []
      && t.master.executed == s.master.executed && t.master.env == s.master.env && t.issued == s.issued
    ensures var u := Run(exec, s, [a, MasterStep, MasterStep]);
      && u.master.output == NakFrame(s.gid, u.master.error)
      && u.master.error in {E_WRONG_TYPE, E_CORRUPTED_CHECKSUM}
  {
    hide Frame, Crc8.Checksum, Inv, Run, Step, Enabled, NakFrame;
    Run4(exec, s, a, MasterStep, MasterStep, TakeAnswer);
    RunKeepsInv(exec, s, [a, MasterStep, MasterStep, TakeAnswer]);
    Run3(exec, s, a, MasterStep, MasterStep);
    var e := DamageIsRefused(exec, s, a);
    RefusalIsTaken(exec, s, Frame(s.gid, a.typ, a.sel, a.body), a.wire, e);
  }

  /** The link once the master has refused what the line delivered. */
  function RefusedLink<E>(s: Link<E>, frame: seq<byte>, wire: seq<byte>, e: ComError): Link<E> {
    s.(phase := AwaitAck(frame),
       master := s.master.(rx := wire, error := e, input := [], output := NakFrame(s.gid, e), gid := 0,
                           state := RECEIVING))
  }

  lemma DamageIsRefused<E>(exec: Exec<E>, s: Link<E>, a: Action) returns (e: ComError)
    requires Inv(exec, s) && Quiet(s)
    requires a.Damaged? && Enabled(s, a)
    ensures e in {E_WRONG_TYPE, E_CORRUPTED_CHECKSUM} && s.connected
    ensures Sane(Frame(s.gid, a.typ, a.sel, a.body)) && Type(Frame(s.gid, a.typ, a.sel, a.body)) != COM_TYPE_HND
    ensures Step(exec, Step(exec, Step(exec, s, a), MasterStep), MasterStep)
      == RefusedLink(s, Frame(s.gid, a.typ, a.sel, a.body), a.wire, e)
  {
    FrameIsSane(s.gid, a.typ, a.sel, a.body);
    QuietAgrees(exec, s);
    var s1 := Step(exec, s, a);
    assert s1 == Transmit(s, Frame(s.gid, a.typ, a.sel, a.body), a.wire);
    hide Frame, Crc8.Checksum, Inv, Receive, Step, Master.Step, Master.Waiting;
    assert s1.master.input == a.wire + [];
    DamagedFrameIsRefused(s.gid, a.wire, []);
    e := Receive(s.gid, s1.master.input).error;
    s1.master.RefuseStep(exec);
    MasterStepIs(exec, s1);
    var s2 := Step(exec, s1, MasterStep);
    s2.master.NakStep(exec);
    MasterStepIs(exec, s2);
    assert [] + NakFrame(s.gid, e) == NakFrame(s.gid, e);
  }

  lemma RefusalIsTaken<E>(exec: Exec<E>, s: Link<E>, frame: seq<byte>, wire: seq<byte>, e: ComError)
    requires Sane(frame) && s.connected
    ensures var t := Step(exec, RefusedLink(s, frame, wire, e), TakeAnswer);
      && Quiet(t) && t.connected && t.gid == 0 && t.master.gid == 0 && t.master.output == []
      && t.master.executed == s.master.executed && t.master.env == s.master.env && t.issued == s.issued
  {
    hide Frame, Crc8.Checksum, RecvAttempt;
    NakIsSane(s.gid, e);
    AttemptTakesFrame(s.gid, NakFrame(s.gid, e), []);
    assert NakFrame(s.gid, e) + [] == NakFrame(s.gid, e);
  }

  // ----- Outrunning the stray acknowledgement

  /** The iterations after which the acknowledgement that the master owes is out. */
  function Owing<E>(m: Master<E>): seq<Action> {
    if m.state == RECEIVING then [MasterStep, MasterStep] else [MasterStep]
  }

  /** A call made too early, once the master has acknowledged the acknowledgement before it. */
  function Outrun<E>(s: Link<E>, frame: seq<byte>): Link<E> {
    s.(phase := AwaitAck(frame),
       master := s.master.(rx := AckFrame(s.master.gid), input := frame, output := AckFrame(s.master.gid),
                           gid := s.gid, state := EXECUTE,
                           error := if s.master.state == RECEIVING then E_SUCCESS else s.master.error))
  }

  lemma OwedAck<E>(exec: Exec<E>, s: Link<E>)
    requires Inv(exec, s) && s.phase == Ready && !OwesNothing(s)
    ensures var m := s.master;
      && s.connected && InStep(s) && m.output == [] && s.gid == NextId(m.gid) && m.gid < 255
      && if m.state == RECEIVING then m.input == AckFrame(m.gid)
        else m.state == ACK && m.input == [] && m.rx == AckFrame(m.gid)
  {
    hide Frame, Crc8.Checksum, Replay, AckFrame;
  }

  lemma OwedAckGoesOut<E>(exec: Exec<E>, s: Link<E>, frame: seq<byte>)
    requires Inv(exec, s) && s.phase == Ready && !OwesNothing(s)
    ensures Run(exec, Transmit(s, frame, frame), Owing(s.master)) == Outrun(s, frame)
  {
    OwedAck(exec, s);
    var t, ack := Transmit(s, frame, frame), AckFrame(s.master.gid);
    AckIsSane(s.master.gid);
    hide Frame, Crc8.Checksum, Inv, Receive, Step, Master.Step, Master.Waiting, Run, AckFrame, Sane;
    assert [] + ack == ack && [] + frame == frame;
    if s.master.state == RECEIVING {
      t.master.TakeStep(exec, ack, frame);
      MasterStepIs(exec, t);
      var u := Step(exec, t, MasterStep);
      AckOut(exec, u);
      Run2(exec, t, MasterStep, MasterStep);
    } else {
      AckOut(exec, t);
      Run1(exec, t, MasterStep);
    }
  }

  lemma AckOut<E>(exec: Exec<E>, u: Link<E>)
    requires u.master.state == ACK && u.master.Valid() && u.master.output == []
    ensures Step(exec, u, MasterStep) ==
      u.(master := u.master.(output := AckFrame(u.master.gid), gid := NextId(u.master.gid), state := EXECUTE))
  {
    AckedMaster(exec, u);
  }

  /**
   A call made while the master still owes the acknowledgement of a DAT acknowledgement fails: that
   acknowledgement, with the id before the client's, is the first thing the call reads.
   */
  lemma StrayAckBeatsTheAnswer<E(!new)>(exec: Exec<E>, s: Link<E>, frame: seq<byte>, later: seq<byte>)
    requires Inv(exec, s) && s.phase == Ready && !OwesNothing(s)
    ensures var t := Transmit(s, frame, frame);
      t.master.output == [] && Run(exec, t, Owing(s.master)).master.output == AckFrame(s.master.gid)
    ensures var answer := RecvAttempt(s.gid, AckFrame(s.master.gid) + later);
      answer.Got? && !Acknowledges(answer) && GidAfterAnswer(s.gid, answer) == 0
  {
    OwedAck(exec, s);
    AckIsSane(s.master.gid);
    AttemptRefusesOtherId(s.gid, AckFrame(s.master.gid), later);
    hide Frame, Crc8.Checksum, RecvAttempt, Receive, Replay, Run, Step, Inv, AckFrame;
    OwedAckGoesOut(exec, s, frame);
  }

  /** The client takes the call for failed, and the id falls back to 0. */
  function GivenUp<E>(s: Link<E>, frame: seq<byte>): Link<E> {
    var u := Outrun(s, frame);
    u.(gid := 0, phase := Ready, base := 0, mark := |s.issued| + |s.received|,
       master := u.master.(output := AckFrame(s.master.gid)[4..]))
  }

  lemma CallIsGivenUp<E>(exec: Exec<E>, s: Link<E>, frame: seq<byte>)
    requires s.gid == NextId(s.master.gid) && s.master.gid < 255 && |frame| >= 5
    ensures |AckFrame(s.master.gid)| == 5
    ensures Step(exec, Outrun(s, frame), TakeAnswer) == GivenUp(s, frame)
  {
    var u, ack := Outrun(s, frame), AckFrame(s.master.gid);
    AckIsSane(s.master.gid);
    AttemptRefusesOtherId(s.gid, ack, []);
    hide Frame, Crc8.Checksum, RecvAttempt, AckFrame;
    assert ack + [] == ack && ack[4..] + [] == ack[4..];
  }

  lemma ForgottenCommandRuns<E>(exec: Exec<E>, s: Link<E>, frame: seq<byte>)
    requires Sane(frame) && Id(frame) == s.gid && IsCommand(Type(frame))
    ensures |AckFrame(s.master.gid)| == 5
    ensures var g := GivenUp(s, frame);
      var z := Step(exec, Step(exec, Step(exec, Step(exec, g, MasterStep), MasterStep), MasterStep), MasterStep);
      && z.phase == Ready && z.gid == 0 && z.issued == s.issued
      && z.master.executed == s.master.executed + [frame] && z.master.gid == NextId(s.gid)
  {
    AckIsSilent(s.master.gid);
    AckIsSane(s.master.gid);
    hide Frame, Crc8.Checksum, Receive, Step, Master.Step, Master.Waiting, Master.Execute, AckFrame, Sane, Silent;
    var g := GivenUp(s, frame);
    g.master.ExecuteStep(exec);
    g.master.ExecuteNull(exec);
    MasterStepIs(exec, g);
    var g1 := Step(exec, g, MasterStep);
    assert frame + [] == frame;
    g1.master.TakeStep(exec, frame, []);
    MasterStepIs(exec, g1);
    var g2 := Step(exec, g1, MasterStep);
    g2.master.AckStep(exec);
    MasterStepIs(exec, g2);
    var g3 := Step(exec, g2, MasterStep);
    g3.master.ExecuteStep(exec);
    CommandEffect(exec, g3.master);
    MasterStepIs(exec, g3);
  }

  /**
   The master runs the command of such a call all the same: it has then executed one command more than
   the client has issued, and the ids differ, except where the next one is 0 again.
   */
  lemma OutrunCommandRunsUnseen<E(!new)>(exec: Exec<E>, s: Link<E>, typ: byte, sel: byte, body: seq<byte>)
    requires Inv(exec, s) && s.phase == Ready && !OwesNothing(s) && IsCommand(typ) && |body| <= BODY_MAX_LEN
    ensures var frame := Frame(s.gid, typ, sel, body);
      var u := Run(exec, Transmit(s, frame, frame), Owing(s.master));
      var z := Run(exec, u, [TakeAnswer, MasterStep, MasterStep, MasterStep, MasterStep]);
      && z.phase == Ready && z.issued == s.issued && z.master.executed == z.issued + [frame]
      && z.gid == 0 && z.master.gid == NextId(s.gid) && (z.gid == z.master.gid <==> s.gid == 254)
  {
    var frame := Frame(s.gid, typ, sel, body);
    FrameIsSane(s.gid, typ, sel, body);
    OwedAck(exec, s);
    OwedAckGoesOut(exec, s, frame);
    NextIdFacts(s.master.gid);
    NextIdFacts(s.gid);
    hide Frame, Crc8.Checksum, Inv, Step, Run, AckFrame, Outrun, GivenUp, NextId, PrevId, OwesNothing, Sane;
    CallIsGivenUp(exec, s, frame);
    ForgottenCommandRuns(exec, s, frame);
    var u := Run(exec, Transmit(s, frame, frame), Owing(s.master));
    Run4(exec, u, TakeAnswer, MasterStep, MasterStep, MasterStep);
    Run5(exec, u, TakeAnswer, MasterStep, MasterStep, MasterStep, MasterStep);
  }

  // ----- When a call is accepted

  /** `k` iterations of the master's handler, all that can happen while a call waits for its answer. */
  function Iterated<E>(exec: Exec<E>, s: Link<E>, k: nat): Link<E> {
    if k == 0 then s else Step(exec, Iterated(exec, s, k - 1), MasterStep)
  }

  lemma Iterated3<E>(exec: Exec<E>, s: Link<E>)
    ensures Iterated(exec, s, 1) == Step(exec, s, MasterStep)
    ensures Iterated(exec, s, 2) == Step(exec, Step(exec, s, MasterStep), MasterStep)
    ensures Iterated(exec, s, 3) == Step(exec, Step(exec, Step(exec, s, MasterStep), MasterStep), MasterStep)
  {
    hide Step;
    assert Iterated(exec, s, 0) == s;
  }

  lemma MasterOnlyAdds<E>(exec: Exec<E>, m: Master<E>)
    requires m.Valid() && !m.Waiting()
    ensures m.Step(exec).Valid() && m.output <= m.Step(exec).output
  {
    m.StepDecreases(exec);
    hide Frame, Crc8.Checksum, Receive, Sane, Bare, Operation;
  }

  /** An iteration takes nothing back that the master has sent. */
  lemma StepOnlyAdds<E>(exec: Exec<E>, s: Link<E>)
    requires s.master.Valid()
    ensures var t := Step(exec, s, MasterStep);
      t.master.Valid() && s.master.output <= t.master.output
  {
    hide Master.Step, Master.Waiting;
    if !s.master.Waiting() {
      MasterOnlyAdds(exec, s.master);
    }
  }

  lemma {:induction false} IterationsOnlyAdd<E>(exec: Exec<E>, s: Link<E>, j: nat, k: nat)
    requires j <= k && Iterated(exec, s, j).master.Valid()
    ensures var t, u := Iterated(exec, s, j), Iterated(exec, s, k);
      u.master.Valid() && t.master.output <= u.master.output
  {
    hide Step, Master.Valid;
    if j < k {
      IterationsOnlyAdd(exec, s, j, k - 1);
      StepOnlyAdds(exec, Iterated(exec, s, k - 1));
    }
  }

  /** A call made while the master still executes a packet without a reply: the frame is next. */
  lemma CallWhileExecuting<E(!new)>(exec: Exec<E>, s: Link<E>, frame: seq<byte>) returns (n: Master<E>)
    requires Answers(exec) && Inv(exec, s) && s.phase == Ready && OwesNothing(s) && s.master.state == EXECUTE
    ensures n.state == RECEIVING && n.gid == s.gid && n.input == []
    ensures Step(exec, Transmit(s, frame, frame), MasterStep) == Transmit(s.(master := n), frame, frame)
  {
    hide Frame, Crc8.Checksum, Receive, Replay, Operation, Counts, Master.Step, Master.Execute;
    var t := Transmit(s, frame, frame);
    assert [] + frame == frame;
    assert t.master == s.master.(input := frame, output := []);
    t.master.ExecuteStep(exec);
    ExecuteEffect(exec, t.master, s.start);
    MasterStepIs(exec, t);
    assert AnswersOne(exec, t.master.env, t.master.rx);
    assert InTransit(t.master.gid, SentFor(exec, t.master.env, t.master.rx)) == [];
    n := t.master.Execute(exec).(input := []);
  }

  lemma NothingOwedHoldsIds<E>(exec: Exec<E>, s: Link<E>)
    requires Inv(exec, s) && s.phase == Ready && s.connected && OwesNothing(s)
    ensures s.master.input == [] && s.master.gid == s.gid
  {
    hide Frame, Crc8.Checksum, Replay, Counts;
  }

  /** The iterations that it takes the master to answer a call. */
  function ToAnswer<E>(m: Master<E>): nat {
    if m.state == EXECUTE then 3 else if m.state == RECEIVING then 2 else 1
  }

  /** The id of the acknowledgement that the call reads first. */
  function FirstId<E>(s: Link<E>): byte {
    if OwesNothing(s) then s.gid else s.master.gid
  }

  ghost predicate AnsweredFirst<E>(exec: Exec<E>, s: Link<E>, frame: seq<byte>) {
    var t, n := Transmit(s, frame, frame), ToAnswer(s.master);
    && Iterated(exec, t, n).master.Valid() && Iterated(exec, t, n).master.output == AckFrame(FirstId(s))
    && (n > 1 ==> Iterated(exec, t, 1).master.output == [])
    && (n > 2 ==> Iterated(exec, t, 2).master.output == [])
  }

  lemma FrameIsAnswered<E>(exec: Exec<E>, s: Link<E>, frame: seq<byte>)
    requires s.master.state == RECEIVING && s.master.input == [] && s.master.gid == s.gid
    requires Sane(frame) && Id(frame) == s.gid && Type(frame) != COM_TYPE_HND
    ensures var t := Step(exec, Transmit(s, frame, frame), MasterStep);
      && t.master.output == [] && Step(exec, t, MasterStep).master.Valid()
      && Step(exec, t, MasterStep).master.output == AckFrame(s.gid)
  {
    FrameIsAcknowledged(exec, s, frame);
    hide Frame, Crc8.Checksum, Receive, Step, Master.Step, Master.Waiting, AckFrame;
    var t := Transmit(s, frame, frame);
    assert t.master.input == frame + [];
    t.master.TakeStep(exec, frame, []);
    MasterStepIs(exec, t);
  }

  lemma OwedAckIsFirst<E>(exec: Exec<E>, s: Link<E>, frame: seq<byte>)
    requires Inv(exec, s) && s.phase == Ready && !OwesNothing(s)
    ensures s.master.state == RECEIVING || s.master.state == ACK
    ensures var t := Step(exec, Transmit(s, frame, frame), MasterStep);
      var u := if s.master.state == RECEIVING then Step(exec, t, MasterStep) else t;
      && (s.master.state == RECEIVING ==> t.master.output == [])
      && u.master.Valid() && u.master.output == AckFrame(s.master.gid)
  {
    OwedAck(exec, s);
    OwedAckGoesOut(exec, s, frame);
    AckIsSane(s.master.gid);
    hide Frame, Crc8.Checksum, Inv, Receive, Step, Master.Step, Master.Waiting, Run, AckFrame, Sane;
    var t, ack := Transmit(s, frame, frame), AckFrame(s.master.gid);
    if s.master.state == RECEIVING {
      t.master.TakeStep(exec, ack, frame);
      MasterStepIs(exec, t);
      Run2(exec, t, MasterStep, MasterStep);
    } else {
      Run1(exec, t, MasterStep);
    }
  }

  lemma OwedIsAnsweredFirst<E>(exec: Exec<E>, s: Link<E>, frame: seq<byte>)
    requires Inv(exec, s) && s.phase == Ready && !OwesNothing(s)
    ensures AnsweredFirst(exec, s, frame)
  {
    Iterated3(exec, Transmit(s, frame, frame));
    IteratedNone(exec, Transmit(s, frame, frame));
    OwedAckIsFirst(exec, s, frame);
    hide Frame, Crc8.Checksum, Inv, AckFrame, Step, Iterated, OwesNothing, Master.Valid;
  }

  lemma IdleIsAnsweredFirst<E>(exec: Exec<E>, s: Link<E>, frame: seq<byte>)
    requires s.master.state == RECEIVING && s.master.input == [] && s.master.gid == s.gid
    requires Sane(frame) && Id(frame) == s.gid && Type(frame) != COM_TYPE_HND
    ensures AnsweredFirst(exec, s, frame)
  {
    Iterated3(exec, Transmit(s, frame, frame));
    IteratedNone(exec, Transmit(s, frame, frame));
    hide Frame, Crc8.Checksum, AckFrame, Step, Iterated, Master.Valid, Sane;
    FrameIsAnswered(exec, s, frame);
  }

  lemma BusyIsAnsweredFirst<E(!new)>(exec: Exec<E>, s: Link<E>, frame: seq<byte>)
    requires Answers(exec) && Inv(exec, s) && s.phase == Ready && s.connected && OwesNothing(s)
    requires s.master.state == EXECUTE && Sane(frame) && Id(frame) == s.gid && Type(frame) != COM_TYPE_HND
    ensures AnsweredFirst(exec, s, frame)
  {
    Iterated3(exec, Transmit(s, frame, frame));
    IteratedNone(exec, Transmit(s, frame, frame));
    hide Frame, Crc8.Checksum, Inv, AckFrame, Step, Answers, Master.Execute, Iterated, Sane, Master.Valid, OwesNothing;
    var n := CallWhileExecuting(exec, s, frame);
    FrameIsAnswered(exec, s.(master := n), frame);
  }

  lemma IteratedNone<E>(exec: Exec<E>, s: Link<E>)
    ensures Iterated(exec, s, 0) == s
  {
  }

  lemma CallIsAnswered<E(!new)>(exec: Exec<E>, s: Link<E>, frame: seq<byte>)
    requires Answers(exec) && Inv(exec, s) && s.phase == Ready && s.connected
    requires Sane(frame) && Id(frame) == s.gid && IsCommand(Type(frame))
    ensures AnsweredFirst(exec, s, frame)
  {
    hide Frame, Crc8.Checksum, Inv, Answers, Sane, AnsweredFirst;
    if !OwesNothing(s) {
      OwedIsAnsweredFirst(exec, s, frame);
    } else if s.master.state == EXECUTE {
      BusyIsAnsweredFirst(exec, s, frame);
    } else {
      NothingOwedHoldsIds(exec, s);
      IdleIsAnsweredFirst(exec, s, frame);
    }
  }

  lemma AnswerIsRead<E>(exec: Exec<E>, s: Link<E>, u: Link<E>, frame: seq<byte>)
    requires Inv(exec, s) && s.phase == Ready && Sane(frame) && Type(frame) != COM_TYPE_HND
    requires u == Transmit(s, frame, frame).(master := u.master) && AckFrame(FirstId(s)) <= u.master.output
    ensures Enabled(u, TakeAnswer)
    ensures var t := Step(exec, u, TakeAnswer);
      && t.issued == (if OwesNothing(s) then s.issued + [frame] else s.issued)
      && t.gid == (if OwesNothing(s) then NextId(s.gid) else 0)
  {
    var ack, rest := AckFrame(FirstId(s)), u.master.output[5..];
    AckIsSane(FirstId(s));
    hide Frame, Crc8.Checksum, RecvAttempt, AckFrame, Inv, TakeAnswerStep, Enabled, OwesNothing;
    assert u.master.output == ack + rest;
    if OwesNothing(s) {
      TakeAckStep(u, rest);
      TakeAnswerIs(exec, u);
    } else {
      OtherAckIsRead(exec, s, u, frame, rest);
    }
  }

  lemma OtherAckIsRead<E>(exec: Exec<E>, s: Link<E>, u: Link<E>, frame: seq<byte>, rest: seq<byte>)
    requires Inv(exec, s) && s.phase == Ready && !OwesNothing(s)
    requires u == Transmit(s, frame, frame).(master := u.master) && u.master.output == AckFrame(s.master.gid) + rest
    ensures Enabled(u, TakeAnswer)
    ensures Step(exec, u, TakeAnswer).issued == s.issued && Step(exec, u, TakeAnswer).gid == 0
  {
    OwedAck(exec, s);
    AckIsSane(s.master.gid);
    AttemptRefusesOtherId(s.gid, AckFrame(s.master.gid), rest);
    hide Frame, Crc8.Checksum, RecvAttempt, AckFrame, Inv, OwesNothing;
  }

  lemma {:induction false} IterationsKeepClient<E>(exec: Exec<E>, s: Link<E>, k: nat)
    ensures Iterated(exec, s, k) == s.(master := Iterated(exec, s, k).master)
  {
    hide Master.Step, Master.Waiting, Master.Valid;
    if k > 0 {
      IterationsKeepClient(exec, s, k - 1);
    }
  }

  lemma NoAnswerYet<E>(u: Link<E>)
    requires u.master.output == []
    ensures !Enabled(u, TakeAnswer)
  {
    NothingToTake(u.gid);
  }

  lemma NothingSentYet<E>(exec: Exec<E>, s: Link<E>, frame: seq<byte>, k: nat)
    requires AnsweredFirst(exec, s, frame) && k < ToAnswer(s.master)
    ensures Iterated(exec, Transmit(s, frame, frame), k).master.output == []
  {
    IteratedNone(exec, Transmit(s, frame, frame));
    hide Iterated, Master.Valid, AckFrame, FirstId;
    if k == 0 {
    } else if k == 1 {
    } else {
      assert k == 2;
    }
  }

  lemma NothingToRead<E>(exec: Exec<E>, s: Link<E>, frame: seq<byte>, k: nat)
    requires AnsweredFirst(exec, s, frame) && k < ToAnswer(s.master)
    ensures !Enabled(Iterated(exec, Transmit(s, frame, frame), k), TakeAnswer)
  {
    hide Iterated, Enabled, AnsweredFirst, Transmit, ToAnswer;
    NothingSentYet(exec, s, frame, k);
    NoAnswerYet(Iterated(exec, Transmit(s, frame, frame), k));
  }

  lemma AnswerIsThere<E>(exec: Exec<E>, s: Link<E>, frame: seq<byte>, k: nat)
    requires Inv(exec, s) && s.phase == Ready && Sane(frame) && Type(frame) != COM_TYPE_HND
    requires AnsweredFirst(exec, s, frame) && k >= ToAnswer(s.master)
    ensures var u := Iterated(exec, Transmit(s, frame, frame), k);
      && Enabled(u, TakeAnswer)
      && var t := Step(exec, u, TakeAnswer);
      && t.issued == (if OwesNothing(s) then s.issued + [frame] else s.issued)
      && t.gid == (if OwesNothing(s) then NextId(s.gid) else 0)
  {
    var t := Transmit(s, frame, frame);
    hide Frame, Crc8.Checksum, Inv, Iterated, Sane, Enabled, Step, OwesNothing, NextId, Transmit, AckFrame;
    hide Master.Valid;
    IterationsKeepClient(exec, t, k);
    IterationsOnlyAdd(exec, t, ToAnswer(s.master), k);
    AnswerIsRead(exec, s, Iterated(exec, t, k), frame);
  }

  /**
   A call made between two others, at any state of the master, is answered within three iterations; and
   whenever the client reads the answer, the command is accepted exactly if the master owed nothing when
   the call was made.
   */
  lemma CallIsAcceptedExactly<E(!new)>(
    exec: Exec<E>, s: Link<E>, typ: byte, sel: byte, body: seq<byte>, k: nat)
    requires Answers(exec) && Inv(exec, s) && s.phase == Ready && s.connected
    requires IsCommand(typ) && |body| <= BODY_MAX_LEN
    ensures var frame := Frame(s.gid, typ, sel, body);
      var u := Iterated(exec, Transmit(s, frame, frame), k);
      && (k >= 3 ==> Enabled(u, TakeAnswer))
      && (Enabled(u, TakeAnswer) ==>
            var t := Step(exec, u, TakeAnswer);
            && (t.issued == s.issued + [frame] <==> OwesNothing(s))
            && t.gid == (if OwesNothing(s) then NextId(s.gid) else 0))
  {
    var frame := Frame(s.gid, typ, sel, body);
    FrameIsSane(s.gid, typ, sel, body);
    CallIsAnswered(exec, s, frame);
    hide Frame, Crc8.Checksum, Inv, Answers, Iterated, Sane, Enabled, Step, OwesNothing, NextId, AnsweredFirst;
    hide Transmit;
    if k < ToAnswer(s.master) {
      NothingToRead(exec, s, frame, k);
    } else {
      AnswerIsThere(exec, s, frame, k);
    }
  }
}
