/**
 The stop-and-wait protocol between the client and the master, as steps over two byte channels. The
 client's calls, its blocking reads and the iterations of the master's handler interleave freely.
 */
module Link {
  import opened Bytes
  import opened Crc8
  import opened Packets
  import opened ClientSide
  import opened MasterSide
  import Serial

  // ----- The frames of the protocol

  function AckFrame(id: byte): seq<byte> {
    Frame(id, COM_TYPE_ACK, 0, [])
  }

  function NakFrame(id: byte, e: ComError): seq<byte> {
    Frame(id, COM_TYPE_NAK, ErrorCode(e), [])
  }

  function DataFrame(id: byte, r: Reply): seq<byte>
    requires |r.body| <= BODY_MAX_LEN
  {
    Frame(id, COM_TYPE_DAT, r.selector, r.body)
  }

  const HANDSHAKE: seq<byte> := Frame(0, COM_TYPE_HND, 0, [])

  // ----- Operations

  /** The commands whose result the shell goes on to receive. */
  predicate WantsReply(typ: byte) {
    typ == COM_TYPE_ECHO || typ == COM_TYPE_PING || typ == COM_TYPE_GET_SPEED
  }

  /** The packets the shell sends. */
  predicate IsCommand(typ: byte) {
    WantsReply(typ) || typ == COM_TYPE_SET_SPEED || typ == COM_TYPE_APPLY || typ == COM_TYPE_SET_SLAVE_ADDR
  }

  type Exec<!E> = (E, seq<byte>) -> (E, Option<Reply>)

  /** PING and GET_SPEED are answered, within the transmit buffer; the setters are not. */
  ghost predicate Answers<E(!new)>(exec: Exec<E>) {
    forall e: E, p: seq<byte> :: AnswersOne(exec, e, p)
  }

  predicate AnswersOne<E>(exec: Exec<E>, e: E, p: seq<byte>) {
    Sane(p) && IsCommand(Type(p)) && Type(p) != COM_TYPE_ECHO ==>
      var reply := exec(e, p).1;
      && (reply.Some? <==> WantsReply(Type(p)))
      && (reply.Some? ==> |reply.value.body| + 5 <= Serial.TX_BUFFER_SIZE)
  }

  /** The reply the master sends for a packet, if it fits the transmit buffer. */
  function Fits(reply: Option<Reply>): seq<Reply> {
    if reply.Some? && |reply.value.body| + 5 <= Serial.TX_BUFFER_SIZE then [reply.value] else []
  }

  function Result<E>(exec: Exec<E>, e: E, p: seq<byte>): (E, Option<Reply>)
    requires Sane(p)
  {
    if Type(p) == COM_TYPE_ECHO then (e, Some(Reply(0, Body(p)))) else exec(e, p)
  }

  /** The environment and the replies after a sequence of commands, one after the other. */
  function Replay<E>(exec: Exec<E>, e: E, commands: seq<seq<byte>>): (E, seq<Reply>) {
    if commands == [] then (e, [])
    else
      var (before, replies) := Replay(exec, e, commands[..|commands| - 1]);
      var p := commands[|commands| - 1];
      if Sane(p) then (Result(exec, before, p).0, replies + Fits(Result(exec, before, p).1))
      else (before, replies)
  }

  // ----- The two ends and the channels between them

  datatype Phase =
    | Ready                                  // between two calls
    | AwaitAck(frame: seq<byte>)             // in `communication_send`, waiting for the answer
    | AwaitData(frame: seq<byte>)            // in `communication_recv`, waiting for the DAT packet

  /**
   `gid` and `phase` are the client's. `issued` are the commands whose send returned 0 and `received`
   the replies its calls returned. `base` and `mark` say since when the ids count: the id is `base`
   plus the issues and receptions after the first `mark`.
   */
  datatype Link<E> = Link(
    gid: byte, phase: Phase, connected: bool, master: Master<E>, start: E,
    issued: seq<seq<byte>>, received: seq<Reply>, base: byte, mark: nat)

  /** What may happen next. `Damaged` is a command whose frame the line changes into `wire`. */
  datatype Action =
    | Connect
    | Command(typ: byte, sel: byte, body: seq<byte>)
    | Damaged(typ: byte, sel: byte, body: seq<byte>, wire: seq<byte>)
    | TakeAnswer
    | TakeData
    | MasterStep

  /** The line damages a frame outside its id and size bytes, in a way the sanity checks see. */
  predicate Damages(wire: seq<byte>, frame: seq<byte>)
    requires 5 <= |frame| <= PACKET_MAX_SIZE
  {
    |wire| == |frame| && wire[0] == frame[0] && wire[3] == frame[3] && !Sane(wire)
  }

  /** The master owes the client no acknowledgement of a DAT acknowledgement. */
  predicate OwesNothing<E>(s: Link<E>) {
    s.master.input == [] && (s.master.state == RECEIVING || s.master.state == EXECUTE)
  }

  predicate Enabled<E>(s: Link<E>, a: Action) {
    match a
    case Connect => s.phase == Ready && OwesNothing(s)
    case Command(typ, sel, body) =>
      s.phase == Ready && s.connected && OwesNothing(s) && IsCommand(typ) && |body| <= BODY_MAX_LEN
    case Damaged(typ, sel, body, wire) =>
      && s.phase == Ready && s.connected && OwesNothing(s) && IsCommand(typ) && |body| <= BODY_MAX_LEN
      && Damages(wire, Frame(s.gid, typ, sel, body))
    case TakeAnswer => s.phase.AwaitAck? && RecvAttempt(s.gid, s.master.output).Got?
    case TakeData => s.phase.AwaitData? && RecvAttempt(s.gid, s.master.output).Got?
    case MasterStep => s.master.Valid() && !s.master.Waiting()
  }

  /** `_transmit_packet`: flush what has arrived, then send; `wire` is what reaches the master. */
  function Transmit<E>(s: Link<E>, frame: seq<byte>, wire: seq<byte>): Link<E> {
    s.(phase := AwaitAck(frame), master := s.master.(input := s.master.input + wire, output := []))
  }

  /** The end of `communication_send`. */
  function TakeAnswerStep<E>(s: Link<E>): Link<E>
    requires Enabled(s, TakeAnswer)
  {
    var r := RecvAttempt(s.gid, s.master.output);
    var t := s.(gid := GidAfterAnswer(s.gid, r), master := s.master.(output := r.rest), phase := Ready);
    var frame := s.phase.frame;
    if |frame| < 5 then t
    else if !Acknowledges(r) then t.(base := 0, mark := |s.issued| + |s.received|)
    else if Type(frame) == COM_TYPE_HND then
      t.(connected := true, base := 1, mark := |s.issued| + |s.received|)
    else
      t.(issued := s.issued + [frame], phase := if WantsReply(Type(frame)) then AwaitData(frame) else Ready)
  }

  /** `communication_recv`: a good packet is acknowledged and handed to the caller. */
  function TakeDataStep<E>(s: Link<E>): Link<E>
    requires Enabled(s, TakeData)
  {
    var r := RecvAttempt(s.gid, s.master.output);
    var t := s.(phase := Ready,
                master := s.master.(input := s.master.input + ResponseTo(r), output := r.rest));
    if r.error == E_SUCCESS && |r.packet| >= 5 then
      t.(gid := NextId(s.gid), received := s.received + [Reply(Selector(r.packet), Body(r.packet))])
    else t
  }

  function Step<E>(exec: Exec<E>, s: Link<E>, a: Action): Link<E> {
    if !Enabled(s, a) then s
    else
      match a
      case Connect => Transmit(s.(gid := 0), HANDSHAKE, HANDSHAKE)
      case Command(typ, sel, body) =>
        var frame := Frame(s.gid, typ, sel, body);
        Transmit(s, frame, frame)
      case Damaged(typ, sel, body, wire) => Transmit(s, Frame(s.gid, typ, sel, body), wire)
      case TakeAnswer => TakeAnswerStep(s)
      case TakeData => TakeDataStep(s)
      case MasterStep => s.(master := s.master.Step(exec))
  }

  /** Any start: the master may hold any id, and the client has not connected. */
  ghost predicate Initial<E>(s: Link<E>) {
    && s.gid == 0 && s.phase == Ready && !s.connected
    && s.master.state == RECEIVING && s.master.input == [] && s.master.output == [] && s.master.gid < 255
    && s.master.env == s.start && s.master.executed == [] && s.master.replies == []
    && s.issued == [] && s.received == [] && s.base == 0 && s.mark == 0
  }

  /** Both ends after their start-up, with the id that the master happens to expect. */
  function PoweredOn<E>(gid: byte, env: E, stack: seq<byte>): (s: Link<E>)
    requires gid < 255
    ensures Initial(s)
  {
    Link(0, Ready, false, Master(gid, RECEIVING, [], E_SUCCESS, [], [], env, [], [], stack), env, [], [], 0, 0)
  }

  function Run<E>(exec: Exec<E>, s: Link<E>, actions: seq<Action>): Link<E> {
    if actions == [] then s
    else Step(exec, Run(exec, s, actions[..|actions| - 1]), actions[|actions| - 1])
  }

  // ----- The invariant, by the client's phase and the master's state

  function PrevId(id: byte): byte {
    (id + 254) % 255
  }

  /** The master has sent nothing, or one last acknowledgement that nobody waits for. */
  predicate AtMostStray<E>(m: Master<E>) {
    m.output == [] || m.output == AckFrame(PrevId(m.gid))
  }

  /** A packet that EXECUTE runs without a reply. */
  predicate Silent(p: seq<byte>) {
    && Sane(p)
    && (Type(p) == COM_TYPE_HND || Type(p) == COM_TYPE_ACK || (IsCommand(Type(p)) && !WantsReply(Type(p))))
  }

  /** What EXECUTE will add to the log. */
  function ToRun(p: seq<byte>): seq<seq<byte>> {
    if Sane(p) && IsCommand(Type(p)) then [p] else []
  }

  /** The master has run every issued command, and the client has got every reply. */
  predicate InStep<E>(s: Link<E>) {
    s.master.executed == s.issued && s.master.replies == s.received
  }

  predicate ReadyInv<E>(s: Link<E>)
    requires s.phase == Ready
  {
    var m := s.master;
    match m.state
    case RECEIVING =>
      && InStep(s)
      && if m.input == [] then
        AtMostStray(m) && (s.connected ==> m.gid == s.gid)
      else
        m.input == AckFrame(m.gid) && m.output == [] && s.gid == NextId(m.gid) && s.connected
    case ACK =>
      && InStep(s)
      && m.rx == AckFrame(m.gid) && m.input == [] && m.output == [] && s.gid == NextId(m.gid) && s.connected
    case EXECUTE =>
      && m.input == [] && AtMostStray(m) && s.connected && m.gid == s.gid && Silent(m.rx)
      && s.issued == m.executed + ToRun(m.rx) && m.replies == s.received
    case _ => false
  }

  /** The frame, as the line delivers it, waits in the master's input. */
  predicate Underway<E>(s: Link<E>, frame: seq<byte>)
    requires Sane(frame)
  {
    var m := s.master;
    && m.output == []
    && if Type(frame) == COM_TYPE_HND then m.input == frame
      else m.gid == s.gid && (m.input == frame || Damages(m.input, frame))
  }

  /** The last command run is `frame`, and the replies not received yet are the ones it caused. */
  predicate Ran<E>(exec: Exec<E>, s: Link<E>, frame: seq<byte>)
    requires Sane(frame)
  {
    var n := |s.issued|;
    if !IsCommand(Type(frame)) then InStep(s)
    else
      && s.master.executed != []
      && var k := |s.master.executed| - 1;
      && s.master.executed[k] == frame
      && s.master.replies == s.received + Fits(Result(exec, Replay(exec, s.start, s.master.executed[..k]).0, frame).1)
  }

  /** The DAT packets that carry the replies on their way; there is at most one. */
  function InTransit(id: byte, replies: seq<Reply>): seq<byte> {
    if |replies| == 1 && |replies[0].body| <= BODY_MAX_LEN then DataFrame(id, replies[0]) else []
  }

  /** The replies sent and not yet received. */
  function Outstanding<E>(s: Link<E>): seq<Reply> {
    if |s.received| <= |s.master.replies| then s.master.replies[|s.received|..] else []
  }

  predicate AwaitAckInv<E>(exec: Exec<E>, s: Link<E>)
    requires s.phase.AwaitAck?
  {
    var m, frame := s.master, s.phase.frame;
    && Sane(frame) && Id(frame) == s.gid
    && (if Type(frame) == COM_TYPE_HND then s.gid == 0 else IsCommand(Type(frame)) && s.connected)
    && match m.state
      case RECEIVING =>
        if m.input != [] then Underway(s, frame) && InStep(s)
        else if m.output == NakFrame(s.gid, m.error) then
          m.gid == 0 && InStep(s) && Type(frame) != COM_TYPE_HND
        else
          && m.gid == NextId(s.gid)
          && Ran(exec, s, frame) && m.executed == s.issued + ToRun(frame)
          && m.output == AckFrame(s.gid) + InTransit(m.gid, Outstanding(s))
      case HND => m.rx == frame && Type(frame) == COM_TYPE_HND && m.input == [] && m.output == [] && InStep(s)
      case ACK => m.rx == frame && m.gid == s.gid && m.input == [] && m.output == [] && InStep(s)
      case NAK => Type(frame) != COM_TYPE_HND && m.gid == s.gid && m.input == [] && m.output == [] && InStep(s)
      case EXECUTE =>
        if m.input != [] then
          && Underway(s, frame) && Silent(m.rx)
          && s.issued == m.executed + ToRun(m.rx) && m.replies == s.received
        else
          m.rx == frame && m.gid == NextId(s.gid) && m.output == AckFrame(s.gid) && InStep(s)
  }

  predicate AwaitDataInv<E>(exec: Exec<E>, s: Link<E>)
    requires s.phase.AwaitData?
  {
    var m, frame := s.master, s.phase.frame;
    && Sane(frame) && WantsReply(Type(frame)) && s.connected
    && m.gid == s.gid && m.input == []
    && match m.state
      case EXECUTE =>
        && m.rx == frame && m.output == []
        && s.issued == m.executed + [frame] && m.replies == s.received
      case RECEIVING =>
        && m.executed == s.issued && Ran(exec, s, frame)
        && m.output == InTransit(s.gid, Outstanding(s))
      case _ => false
  }

  /** The id counts the issues and receptions since the last handshake or refusal. */
  predicate Counts<E>(s: Link<E>) {
    && s.gid < 255 && s.master.gid < 255
    && s.mark <= |s.issued| + |s.received|
    && ((s.phase.AwaitAck? && |s.phase.frame| >= 4 && Type(s.phase.frame) == COM_TYPE_HND)
      || s.gid == (s.base + |s.issued| + |s.received| - s.mark) % 255)
  }

  ghost predicate Inv<E>(exec: Exec<E>, s: Link<E>) {
    && s.master.Valid()
    && Counts(s)
    && (s.master.env, s.master.replies) == Replay(exec, s.start, s.master.executed)
    && match s.phase
      case Ready => ReadyInv(s)
      case AwaitAck(_) => AwaitAckInv(exec, s)
      case AwaitData(_) => AwaitDataInv(exec, s)
  }

  // ----- Facts about frames

  lemma AckIsSane(id: byte)
    ensures var p := AckFrame(id); Sane(p) && Id(p) == id && Type(p) == COM_TYPE_ACK && |p| == 5
  {
    hide Frame, Checksum;
    FrameIsSane(id, COM_TYPE_ACK, 0, []);
  }

  lemma NakIsSane(id: byte, e: ComError)
    ensures var p := NakFrame(id, e); Sane(p) && Id(p) == id && Type(p) == COM_TYPE_NAK && |p| == 5
  {
    hide Frame, Checksum;
    FrameIsSane(id, COM_TYPE_NAK, ErrorCode(e), []);
  }

  lemma AckIsNoNak(id: byte, rest: seq<byte>, e: ComError)
    ensures AckFrame(id) + rest != NakFrame(id, e)
  {
    hide Frame, Checksum;
    AckIsSane(id);
    NakIsSane(id, e);
    assert (AckFrame(id) + rest)[1] == COM_TYPE_ACK;
  }

  lemma DataIsSane(id: byte, r: Reply)
    requires |r.body| <= BODY_MAX_LEN
    ensures var p := DataFrame(id, r);
      Sane(p) && Id(p) == id && Type(p) == COM_TYPE_DAT && Selector(p) == r.selector && Body(p) == r.body
  {
    hide Frame, Checksum;
    FrameIsSane(id, COM_TYPE_DAT, r.selector, r.body);
  }

  lemma HandshakeIsSane()
    ensures Sane(HANDSHAKE) && Id(HANDSHAKE) == 0 && Type(HANDSHAKE) == COM_TYPE_HND
  {
    hide Frame, Checksum;
    FrameIsSane(0, COM_TYPE_HND, 0, []);
  }

  // ----- The client's steps keep the invariant

  lemma InitialInv<E>(exec: Exec<E>, s: Link<E>)
    requires Initial(s)
    ensures Inv(exec, s)
  {
    hide Checksum;
  }

  lemma ConnectKeepsInv<E>(exec: Exec<E>, s: Link<E>, a: Action)
    requires Inv(exec, s) && Enabled(s, a) && a.Connect?
    ensures Inv(exec, Step(exec, s, a))
  {
    hide Frame, Checksum;
    HandshakeIsSane();
  }

  lemma TransmitCounts<E>(s: Link<E>, frame: seq<byte>, wire: seq<byte>)
    requires Counts(s) && s.phase == Ready
    ensures Counts(Transmit(s, frame, wire))
  {
  }

  lemma MasterCounts<E>(s: Link<E>, m: Master<E>)
    requires Counts(s) && (m.gid < 255 || m.gid == s.master.gid)
    ensures Counts(s.(master := m))
  {
  }

  /** A call puts a frame on its way, in whatever form the line delivers it. */
  lemma TransmitKeepsInv<E>(exec: Exec<E>, s: Link<E>, frame: seq<byte>, wire: seq<byte>)
    requires Inv(exec, s) && s.phase == Ready && s.connected && OwesNothing(s)
    requires Sane(frame) && Id(frame) == s.gid && IsCommand(Type(frame))
    requires wire == frame || Damages(wire, frame)
    ensures Inv(exec, Transmit(s, frame, wire))
  {
    TransmitCounts(s, frame, wire);
    TransmitIsUnderway(exec, s, frame, wire);
    hide Frame, Checksum, Replay, Counts, Sane, Underway, Damages;
  }

  lemma TransmitIsUnderway<E>(exec: Exec<E>, s: Link<E>, frame: seq<byte>, wire: seq<byte>)
    requires Inv(exec, s) && s.phase == Ready && s.connected && OwesNothing(s)
    requires Sane(frame) && Id(frame) == s.gid && IsCommand(Type(frame))
    requires wire == frame || Damages(wire, frame)
    ensures Underway(Transmit(s, frame, wire), frame) && Transmit(s, frame, wire).master.input != []
  {
    DamagedIsNotEmpty(wire, frame);
    hide Frame, Checksum, Replay, Counts, Damages;
    assert s.master.input + wire == wire;
  }

  lemma DamagedIsNotEmpty(wire: seq<byte>, frame: seq<byte>)
    requires 5 <= |frame| <= PACKET_MAX_SIZE
    ensures wire == frame || Damages(wire, frame) ==> wire != []
  {
    hide Checksum;
  }

  lemma CommandKeepsInv<E>(exec: Exec<E>, s: Link<E>, a: Action)
    requires Inv(exec, s) && Enabled(s, a) && (a.Command? || a.Damaged?)
    ensures Inv(exec, Step(exec, s, a))
  {
    hide Frame, Checksum, Inv, Damages, Transmit;
    var frame := Frame(s.gid, a.typ, a.sel, a.body);
    FrameIsSane(s.gid, a.typ, a.sel, a.body);
    TransmitKeepsInv(exec, s, frame, if a.Command? then frame else a.wire);
  }

  lemma NothingToTake(gid: byte)
    ensures !RecvAttempt(gid, []).Got?
  {
  }

  lemma TakeNakKeepsInv<E>(exec: Exec<E>, s: Link<E>)
    requires Inv(exec, s) && Enabled(s, TakeAnswer)
    requires s.master.state == RECEIVING && s.master.output == NakFrame(s.gid, s.master.error)
    ensures Inv(exec, TakeAnswerStep(s))
  {
    hide Frame, Checksum, RecvAttempt;
    NothingToTake(s.gid);
    NakIsSane(s.gid, s.master.error);
    AttemptTakesFrame(s.gid, s.master.output, []);
    assert s.master.output + [] == s.master.output;
  }

  /** The client has read the acknowledgement of its frame. */
  function Accepted<E>(s: Link<E>, rest: seq<byte>): Link<E>
    requires s.phase.AwaitAck? && Sane(s.phase.frame)
  {
    var t := s.(gid := NextId(s.gid), master := s.master.(output := rest), phase := Ready);
    if Type(s.phase.frame) == COM_TYPE_HND then
      t.(connected := true, base := 1, mark := |s.issued| + |s.received|)
    else
      t.(issued := s.issued + [s.phase.frame],
         phase := if WantsReply(Type(s.phase.frame)) then AwaitData(s.phase.frame) else Ready)
  }

  lemma TakeAckStep<E>(s: Link<E>, rest: seq<byte>)
    requires s.phase.AwaitAck? && Sane(s.phase.frame) && s.master.output == AckFrame(s.gid) + rest
    ensures Enabled(s, TakeAnswer) && TakeAnswerStep(s) == Accepted(s, rest)
  {
    hide Frame, Checksum, RecvAttempt;
    AckIsSane(s.gid);
    AttemptTakesFrame(s.gid, AckFrame(s.gid), rest);
  }

  /** What the answer is, when it is there and is no NAK. */
  lemma AnswerIsAck<E>(exec: Exec<E>, s: Link<E>) returns (rest: seq<byte>)
    requires Inv(exec, s) && Enabled(s, TakeAnswer)
    requires s.master.state != RECEIVING || s.master.output != NakFrame(s.gid, s.master.error)
    ensures Sane(s.phase.frame) && s.master.output == AckFrame(s.gid) + rest
    ensures s.master.state == RECEIVING ==> s.master.input == [] && rest == InTransit(s.master.gid, Outstanding(s))
    ensures s.master.state != RECEIVING ==> s.master.state == EXECUTE && s.master.input == [] && rest == []
  {
    NothingToTake(s.gid);
    hide Frame, Checksum, RecvAttempt, Replay, Counts, AckFrame, NakFrame, Ran, InTransit, Outstanding, InStep;
    rest := if s.master.state == RECEIVING then InTransit(s.master.gid, Outstanding(s)) else [];
    assert AckFrame(s.gid) + [] == AckFrame(s.gid);
  }

  lemma CountUp(n: nat)
    ensures (n % 255 + 1) % 255 == (n + 1) % 255
  {
    var q, r := n / 255, n % 255;
    assert n + 1 == 255 * q + (r + 1);
  }

  lemma AcceptedCounts<E>(s: Link<E>, rest: seq<byte>)
    requires s.phase.AwaitAck? && Sane(s.phase.frame) && Counts(s)
    requires Type(s.phase.frame) == COM_TYPE_HND ==> s.gid == 0
    ensures Counts(Accepted(s, rest))
  {
    hide Checksum;
    CountUp(s.base + |s.issued| + |s.received| - s.mark);
  }

  /** A command that nobody waits to see answered sends nothing. */
  lemma SilentSendsNothing<E(!new)>(exec: Exec<E>, s: Link<E>, frame: seq<byte>)
    requires Answers(exec) && Sane(frame) && !WantsReply(Type(frame)) && Ran(exec, s, frame)
    ensures s.master.replies == s.received
  {
    hide Frame, Checksum, Replay;
    if IsCommand(Type(frame)) {
      var k := |s.master.executed| - 1;
      assert AnswersOne(exec, Replay(exec, s.start, s.master.executed[..k]).0, frame);
      assert s.received + [] == s.received;
    }
  }

  lemma NothingOutstanding<E>(s: Link<E>)
    requires s.master.replies == s.received
    ensures InTransit(s.master.gid, Outstanding(s)) == []
  {
    assert s.received[|s.received|..] == [];
  }

  lemma TakeAckKeepsInv<E(!new)>(exec: Exec<E>, s: Link<E>)
    requires Answers(exec) && Inv(exec, s) && Enabled(s, TakeAnswer)
    requires s.master.state != RECEIVING || s.master.output != NakFrame(s.gid, s.master.error)
    ensures Inv(exec, TakeAnswerStep(s))
  {
    var rest := AnswerIsAck(exec, s);
    hide Frame, Checksum, RecvAttempt, Replay, Counts, AckFrame, TakeAnswerStep, Enabled, Inv;
    TakeAckStep(s, rest);
    if s.master.state == EXECUTE {
      AcceptedInExecute(exec, s);
    } else {
      AcceptedInReceiving(exec, s, rest);
    }
  }

  lemma AcceptedInExecute<E>(exec: Exec<E>, s: Link<E>)
    requires Inv(exec, s) && s.phase.AwaitAck? && s.master.state == EXECUTE && s.master.input == []
    ensures Inv(exec, Accepted(s, []))
  {
    var frame := s.phase.frame;
    AcceptedCounts(s, []);
    hide Frame, Checksum, Replay, Counts, AckFrame, NakFrame, Sane, NextId, PrevId;
    assert s.issued + [] == s.issued;
  }

  lemma AcceptedInReceiving<E(!new)>(exec: Exec<E>, s: Link<E>, rest: seq<byte>)
    requires Answers(exec) && Inv(exec, s) && s.phase.AwaitAck? && s.master.state == RECEIVING && s.master.input == []
    requires s.master.output != NakFrame(s.gid, s.master.error) && rest == InTransit(s.master.gid, Outstanding(s))
    requires Sane(s.phase.frame)
    ensures Inv(exec, Accepted(s, rest))
  {
    hide Frame, Checksum, Inv, InTransit, Outstanding, NakFrame, Answers;
    if WantsReply(Type(s.phase.frame)) {
      AcceptedQuery(exec, s, rest);
    } else {
      AcceptedSilently(exec, s, rest);
    }
  }

  lemma AcceptedQuery<E(!new)>(exec: Exec<E>, s: Link<E>, rest: seq<byte>)
    requires Answers(exec) && Inv(exec, s) && s.phase.AwaitAck? && s.master.state == RECEIVING && s.master.input == []
    requires s.master.output != NakFrame(s.gid, s.master.error) && rest == InTransit(s.master.gid, Outstanding(s))
    requires Sane(s.phase.frame) && WantsReply(Type(s.phase.frame))
    ensures Inv(exec, Accepted(s, rest))
  {
    AcceptedCounts(s, rest);
    RanStays(exec, s, rest);
    hide Frame, Checksum, Replay, Counts, AckFrame, NakFrame, Sane, NextId, PrevId, Answers, Ran, InTransit;
    hide Outstanding;
  }

  lemma AcceptedSilently<E(!new)>(exec: Exec<E>, s: Link<E>, rest: seq<byte>)
    requires Answers(exec) && Inv(exec, s) && s.phase.AwaitAck? && s.master.state == RECEIVING && s.master.input == []
    requires s.master.output != NakFrame(s.gid, s.master.error) && rest == InTransit(s.master.gid, Outstanding(s))
    requires Sane(s.phase.frame) && !WantsReply(Type(s.phase.frame))
    ensures Inv(exec, Accepted(s, rest))
  {
    AcceptedCounts(s, rest);
    SilentSendsNothing(exec, s, s.phase.frame);
    NothingOutstanding(s);
    RanInStep(exec, s, s.phase.frame);
    hide Frame, Checksum, Replay, Counts, AckFrame, NakFrame, Sane, NextId, PrevId, Answers, Ran, InTransit;
    hide Outstanding;
    assert s.issued + [] == s.issued;
  }

  lemma RanInStep<E>(exec: Exec<E>, s: Link<E>, frame: seq<byte>)
    requires Sane(frame) && Ran(exec, s, frame)
    ensures !IsCommand(Type(frame)) ==> InStep(s)
  {
    hide Checksum;
  }

  lemma RanStays<E>(exec: Exec<E>, s: Link<E>, rest: seq<byte>)
    requires s.phase.AwaitAck? && Sane(s.phase.frame) && WantsReply(Type(s.phase.frame))
    ensures Ran(exec, s, s.phase.frame) ==> Ran(exec, Accepted(s, rest), s.phase.frame)
    ensures Outstanding(Accepted(s, rest)) == Outstanding(s)
  {
    hide Checksum, Replay, Result, Fits;
  }

  /** A DAT packet can be taken only when one reply is outstanding, and it carries that reply. */
  lemma OneReplyOutstanding<E>(exec: Exec<E>, s: Link<E>) returns (r: Reply)
    requires Inv(exec, s) && Enabled(s, TakeData)
    ensures s.master.state == RECEIVING && s.master.replies == s.received + [r]
    ensures |r.body| <= BODY_MAX_LEN && s.master.output == DataFrame(s.gid, r)
  {
    hide Frame, Checksum, RecvAttempt, Replay, Result;
    NothingToTake(s.gid);
    r := Outstanding(s)[0];
  }

  /** The client has read its reply and acknowledges it. */
  function Replied<E>(s: Link<E>, r: Reply): Link<E> {
    s.(gid := NextId(s.gid), phase := Ready, received := s.received + [r],
       master := s.master.(input := AckFrame(s.gid), output := []))
  }

  lemma TakeReplyStep<E>(s: Link<E>, r: Reply)
    requires s.phase.AwaitData? && s.master.input == [] && |r.body| <= BODY_MAX_LEN
    requires s.master.output == DataFrame(s.gid, r)
    ensures Enabled(s, TakeData) && TakeDataStep(s) == Replied(s, r)
  {
    hide Frame, Checksum, RecvAttempt;
    DataIsSane(s.gid, r);
    AttemptTakesFrame(s.gid, DataFrame(s.gid, r), []);
    assert s.master.output + [] == s.master.output;
    assert [] + AckFrame(s.gid) == AckFrame(s.gid);
  }

  lemma RepliedCounts<E>(s: Link<E>, r: Reply)
    requires s.phase.AwaitData? && Counts(s)
    ensures Counts(Replied(s, r))
  {
    hide Frame;
    CountUp(s.base + |s.issued| + |s.received| - s.mark);
  }

  lemma TakeDataKeepsInv<E>(exec: Exec<E>, s: Link<E>)
    requires Inv(exec, s) && Enabled(s, TakeData)
    ensures Inv(exec, TakeDataStep(s))
  {
    var r := OneReplyOutstanding(exec, s);
    var m := s.master;
    assert m.input == [] && m.gid == s.gid && s.connected && m.executed == s.issued;
    hide Frame, Checksum, RecvAttempt, Sane, Replay, Ran, Counts, AckFrame, DataFrame, NextId, Enabled, TakeDataStep;
    TakeReplyStep(s, r);
    RepliedCounts(s, r);
  }

  // ----- The master's steps keep the invariant

  lemma ReceivingKeepsInv<E>(exec: Exec<E>, s: Link<E>)
    requires Inv(exec, s) && Enabled(s, MasterStep) && s.master.state == RECEIVING
    ensures Inv(exec, Step(exec, s, MasterStep))
  {
    hide Frame, Checksum, Receive, Replay, Counts, Master.Step;
    var m := s.master;
    assert m.input + [] == m.input;
    MasterCounts(s, m.Step(exec)) by { m.StepDecreases(exec); ReceivingKeepsGid(exec, m); }
    if s.phase == Ready {
      AckIsSane(m.gid);
      m.TakeStep(exec, m.input, []);
    } else if s.phase.AwaitAck? {
      if m.input == s.phase.frame {
        m.TakeStep(exec, m.input, []);
      } else {
        DamagedFrameIsRefused(m.gid, m.input, []);
        m.RefuseStep(exec);
      }
    }
  }

  lemma ReceivingKeepsGid<E>(exec: Exec<E>, m: Master<E>)
    requires m.Valid() && !m.Waiting() && m.state == RECEIVING
    ensures m.Step(exec).gid == m.gid
  {
    hide Frame, Checksum, Receive, Master.Send, Master.Execute;
  }

  lemma HndKeepsInv<E>(exec: Exec<E>, s: Link<E>)
    requires Inv(exec, s) && s.master.state == HND
    ensures Inv(exec, Step(exec, s, MasterStep))
  {
    hide Frame, Checksum, Receive, Sane, Replay, Counts, Master.Step, Underway, Ran;
    s.master.HndStep(exec);
    MasterCounts(s, s.master.Step(exec));
  }

  lemma NextIdFacts(id: byte)
    ensures NextId(id) < 255 && (id < 255 ==> PrevId(NextId(id)) == id && (NextId(id) == 0 <==> id == 254))
  {
  }

  /** The answer to the client's frame goes out. */
  lemma AckKeepsInv<E>(exec: Exec<E>, s: Link<E>)
    requires Inv(exec, s) && s.master.state == ACK && s.phase.AwaitAck?
    ensures Inv(exec, Step(exec, s, MasterStep))
  {
    hide Frame, Checksum, Receive, Sane, Replay, Counts, Master.Step, Underway, Ran, NextId, AckFrame, NakFrame, Step;
    var m := s.master;
    NextIdFacts(m.gid);
    AckedMaster(exec, s);
    MasterCounts(s, m.Step(exec));
  }

  lemma AckIsSilent(id: byte)
    ensures Silent(AckFrame(id)) && ToRun(AckFrame(id)) == []
  {
    hide Frame, Checksum;
    AckIsSane(id);
  }

  /** The client's acknowledgement of a DAT packet is acknowledged in turn. */
  lemma StrayAckKeepsInv<E>(exec: Exec<E>, s: Link<E>)
    requires Inv(exec, s) && s.master.state == ACK && s.phase == Ready
    ensures Inv(exec, Step(exec, s, MasterStep))
  {
    var m := s.master;
    NextIdFacts(m.gid);
    assert PrevId(NextId(m.gid)) == m.gid;
    AckIsSilent(m.gid);
    hide Frame, Checksum, Receive, Sane, Replay, Counts, Master.Step, NextId, PrevId, AckFrame, Step, Silent, ToRun;
    AckedMaster(exec, s);
    MasterCounts(s, m.Step(exec));
    assert m.executed + [] == m.executed;
  }

  lemma AcknowledgingPhase<E>(exec: Exec<E>, s: Link<E>)
    requires Inv(exec, s) && s.master.state == ACK
    ensures s.phase == Ready || s.phase.AwaitAck?
  {
    hide Frame, Checksum, Replay, Counts;
  }

  lemma AckedMaster<E>(exec: Exec<E>, s: Link<E>)
    requires s.master.Valid() && s.master.state == ACK && s.master.output == []
    ensures var m := s.master;
      && m.Step(exec) == m.(output := AckFrame(m.gid), gid := NextId(m.gid), state := EXECUTE)
      && Step(exec, s, MasterStep) == s.(master := m.Step(exec))
  {
    hide Frame, Checksum, Receive, Sane, Master.Step;
    s.master.AckStep(exec);
    assert [] + AckFrame(s.master.gid) == AckFrame(s.master.gid);
  }

  lemma NakKeepsInv<E>(exec: Exec<E>, s: Link<E>)
    requires Inv(exec, s) && s.master.state == NAK
    ensures Inv(exec, Step(exec, s, MasterStep))
  {
    hide Frame, Checksum, Receive, Sane, Replay, Counts, Master.Step, Underway, Ran;
    var m := s.master;
    m.NakStep(exec);
    MasterCounts(s, m.Step(exec));
    assert m.output == [] ==> m.output + NakFrame(m.gid, m.error) == NakFrame(m.gid, m.error);
  }

  lemma ReplaySnoc<E>(exec: Exec<E>, e: E, commands: seq<seq<byte>>, p: seq<byte>)
    requires Sane(p)
    ensures var (before, replies) := Replay(exec, e, commands);
      Replay(exec, e, commands + [p]) == (Result(exec, before, p).0, replies + Fits(Result(exec, before, p).1))
  {
    assert (commands + [p])[..|commands|] == commands;
  }

  lemma CommandsHaveOperations(typ: byte)
    requires typ < COM_TYPE_LIMIT
    ensures IsCommand(typ) <==> Operation(typ) != Null
    ensures typ == COM_TYPE_ECHO <==> Operation(typ) == Echo
  {
  }

  /** The replies that EXECUTE of a packet sends. */
  function SentFor<E>(exec: Exec<E>, e: E, p: seq<byte>): seq<Reply>
    requires Sane(p)
  {
    if IsCommand(Type(p)) then Fits(Result(exec, e, p).1) else []
  }

  /** What EXECUTE does to the logs, the environment and the line. */
  lemma ExecuteEffect<E>(exec: Exec<E>, m: Master<E>, start: E)
    requires Sane(m.rx)
    requires (m.env, m.replies) == Replay(exec, start, m.executed)
    ensures var n, sent := m.Execute(exec), SentFor(exec, m.env, m.rx);
      && n.executed == m.executed + ToRun(m.rx) && n.replies == m.replies + sent
      && (n.env, n.replies) == Replay(exec, start, n.executed)
      && n.output == m.output + InTransit(m.gid, sent)
      && n.state == RECEIVING && n.gid == m.gid && n.input == m.input && n.rx == m.rx && n.error == m.error
  {
    hide Frame, Checksum, Sane, Replay, Operation, Master.Execute;
    SaneHasHeader(m.rx);
    CommandsHaveOperations(Type(m.rx));
    if IsCommand(Type(m.rx)) {
      CommandEffect(exec, m);
      ReplaySnoc(exec, start, m.executed, m.rx);
    } else {
      m.ExecuteNull(exec);
      assert m.executed + [] == m.executed && m.replies + [] == m.replies && m.output + [] == m.output;
    }
  }

  lemma CommandEffect<E>(exec: Exec<E>, m: Master<E>)
    requires Sane(m.rx) && IsCommand(Type(m.rx))
    ensures var n, result := m.Execute(exec), Result(exec, m.env, m.rx);
      && n.executed == m.executed + [m.rx] && n.env == result.0 && n.replies == m.replies + Fits(result.1)
      && n.output == m.output + InTransit(m.gid, Fits(result.1))
      && n.state == RECEIVING && n.gid == m.gid && n.input == m.input && n.rx == m.rx && n.error == m.error
  {
    hide Frame, Checksum, Sane, Operation, Master.Execute;
    SaneIsNotBare(m.rx);
    CommandsHaveOperations(Type(m.rx));
    m.ExecuteOne(exec);
    assert m.output + [] == m.output && m.replies + [] == m.replies;
  }

  /** EXECUTE of a packet whose sender does not wait for a reply. */
  lemma SilentExecution<E(!new)>(exec: Exec<E>, s: Link<E>)
    requires Answers(exec) && Inv(exec, s) && s.master.state == EXECUTE
    requires s.phase == Ready || (s.phase.AwaitAck? && s.master.input != [])
    ensures Inv(exec, Step(exec, s, MasterStep))
  {
    hide Frame, Checksum, Receive, Replay, Operation, Counts, Master.Step, Master.Execute;
    var m := s.master;
    m.ExecuteStep(exec);
    ExecuteEffect(exec, m, s.start);
    MasterCounts(s, m.Execute(exec));
    assert AnswersOne(exec, m.env, m.rx);
    assert m.output + [] == m.output && m.replies + [] == m.replies && m.executed + [] == m.executed;
  }

  /** EXECUTE of the frame that the client still waits to see acknowledged. */
  lemma EarlyExecution<E(!new)>(exec: Exec<E>, s: Link<E>)
    requires Answers(exec) && Inv(exec, s) && s.master.state == EXECUTE
    requires s.phase.AwaitAck? && s.master.input == []
    ensures Inv(exec, Step(exec, s, MasterStep))
  {
    hide Frame, Checksum, Receive, Replay, Operation, Counts, Master.Step, Master.Execute;
    var m := s.master;
    m.ExecuteStep(exec);
    ExecuteEffect(exec, m, s.start);
    MasterCounts(s, m.Execute(exec));
    var sent := SentFor(exec, m.env, m.rx);
    AckIsNoNak(s.gid, InTransit(m.gid, sent), m.error);
    assert (m.replies + sent)[|m.replies|..] == sent;
    if IsCommand(Type(m.rx)) {
      assert (m.executed + [m.rx])[..|m.executed|] == m.executed;
    } else {
      assert m.executed + [] == m.executed && m.replies + [] == m.replies;
    }
  }

  /** EXECUTE of a command whose reply the client waits for. */
  lemma AwaitedExecution<E(!new)>(exec: Exec<E>, s: Link<E>)
    requires Answers(exec) && Inv(exec, s) && s.master.state == EXECUTE
    requires s.phase.AwaitData?
    ensures Inv(exec, Step(exec, s, MasterStep))
  {
    hide Frame, Checksum, Receive, Replay, Operation, Counts, Master.Step, Master.Execute;
    var m := s.master;
    m.ExecuteStep(exec);
    ExecuteEffect(exec, m, s.start);
    MasterCounts(s, m.Execute(exec));
    var sent := SentFor(exec, m.env, m.rx);
    assert (m.replies + sent)[|m.replies|..] == sent;
    assert (m.executed + [m.rx])[..|m.executed|] == m.executed;
    assert [] + InTransit(m.gid, sent) == InTransit(m.gid, sent);
  }

  lemma StepKeepsInv<E(!new)>(exec: Exec<E>, s: Link<E>, a: Action)
    requires Answers(exec) && Inv(exec, s)
    ensures Inv(exec, Step(exec, s, a))
  {
    hide Inv, Enabled, Answers, TakeAnswerStep, TakeDataStep;
    if Enabled(s, a) {
      match a
      case Connect => ConnectKeepsInv(exec, s, a);
      case Command(_, _, _) => CommandKeepsInv(exec, s, a);
      case Damaged(_, _, _, _) => CommandKeepsInv(exec, s, a);
      case TakeAnswer =>
        if s.master.state == RECEIVING && s.master.output == NakFrame(s.gid, s.master.error) {
          TakeNakKeepsInv(exec, s);
        } else {
          TakeAckKeepsInv(exec, s);
        }
      case TakeData => TakeDataKeepsInv(exec, s);
      case MasterStep =>
        match s.master.state {
          case RECEIVING => ReceivingKeepsInv(exec, s);
          case HND => HndKeepsInv(exec, s);
          case NAK => NakKeepsInv(exec, s);
          case ACK =>
            AcknowledgingPhase(exec, s);
            if s.phase == Ready { StrayAckKeepsInv(exec, s); } else { AckKeepsInv(exec, s); }
          case EXECUTE =>
            if s.phase.AwaitData? { AwaitedExecution(exec, s); }
            else if s.phase.AwaitAck? && s.master.input == [] { EarlyExecution(exec, s); }
            else { SilentExecution(exec, s); }
        }
    }
  }

  // ----- Whole runs

  lemma {:induction false} RunKeepsInv<E(!new)>(exec: Exec<E>, s: Link<E>, actions: seq<Action>)
    requires Answers(exec) && Inv(exec, s)
    ensures Inv(exec, Run(exec, s, actions))
  {
    hide Inv, Answers, Step;
    if actions != [] {
      RunKeepsInv(exec, s, actions[..|actions| - 1]);
      StepKeepsInv(exec, Run(exec, s, actions[..|actions| - 1]), actions[|actions| - 1]);
    }
  }

  /** Between two calls, with the master back in RECEIVING and nothing left to read. */
  predicate Quiet<E>(s: Link<E>) {
    s.phase == Ready && s.master.state == RECEIVING && s.master.input == []
  }

  /**
   At every quiet point of every run the two ids agree and count the accepted frames since the last
   handshake or refusal; the master has run exactly the issued commands, in order, each once; the
   client holds exactly the replies of that sequential run; and at most a stray ACK is on its way.
   */
  lemma EndsAgree<E(!new)>(exec: Exec<E>, s0: Link<E>, actions: seq<Action>)
    requires Answers(exec) && Initial(s0)
    ensures var s := Run(exec, s0, actions);
      Quiet(s) && s.connected ==>
        && s.master.gid == s.gid == (s.base + |s.issued| + |s.received| - s.mark) % 255
        && s.master.executed == s.issued
        && (s.master.env, s.received) == Replay(exec, s0.start, s.issued)
        && AtMostStray(s.master)
  {
    hide Frame, Checksum, Replay, Step;
    InitialInv(exec, s0);
    RunKeepsInv(exec, s0, actions);
    StartStays(exec, s0, actions);
  }

  lemma {:induction false} StartStays<E>(exec: Exec<E>, s: Link<E>, actions: seq<Action>)
    ensures Run(exec, s, actions).start == s.start
  {
    hide Frame, Checksum, RecvAttempt, Enabled;
    if actions != [] {
      StartStays(exec, s, actions[..|actions| - 1]);
    }
  }

  /** In no run is the operation table read out of bounds. */
  lemma TableIndexInBounds<E(!new)>(exec: Exec<E>, s0: Link<E>, actions: seq<Action>)
    requires Answers(exec) && Initial(s0)
    ensures var m := Run(exec, s0, actions).master;
      m.state == EXECUTE ==> |m.rx| >= 4 && Type(m.rx) < |OPERATIONS|
  {
    hide Frame, Checksum, Replay, Step;
    InitialInv(exec, s0);
    RunKeepsInv(exec, s0, actions);
  }

  /** An echoed body of at most 27 bytes comes back unchanged, whatever was exchanged before. */
  lemma EchoComesBack<E(!new)>(exec: Exec<E>, s0: Link<E>, actions: seq<Action>, earlier: seq<seq<byte>>, p: seq<byte>)
    requires Answers(exec) && Initial(s0)
    requires var s := Run(exec, s0, actions); Quiet(s) && s.connected && s.issued == earlier + [p]
    requires Sane(p) && Type(p) == COM_TYPE_ECHO && |Body(p)| <= 27
    ensures Run(exec, s0, actions).received == Replay(exec, s0.start, earlier).1 + [Reply(0, Body(p))]
  {
    hide Frame, Checksum, Replay, Step, Run;
    EndsAgree(exec, s0, actions);
    ReplaySnoc(exec, s0.start, earlier, p);
  }

  // ----- Progress

  /** An ECHO whose reply does not fit the transmit buffer of the master. */
  predicate EchoTooLong(p: seq<byte>) {
    Sane(p) && Type(p) == COM_TYPE_ECHO && |Body(p)| > 27
  }

  lemma MasterMoves<E>(m: Master<E>, p: seq<byte>)
    requires m.Valid() && m.state == RECEIVING && m.input == p
    requires 5 <= |p| <= PACKET_MAX_SIZE && Size(p) == |p|
    requires Id(p) == m.gid || (Type(p) == COM_TYPE_HND && Id(p) == 0)
    ensures !m.Waiting()
  {
    hide Checksum;
  }

  /** A blocked send is never stuck: its answer is there, or the master has a step to take. */
  lemma SendIsNeverStuck<E(!new)>(exec: Exec<E>, s: Link<E>)
    requires Answers(exec) && Inv(exec, s) && s.phase.AwaitAck?
    ensures Enabled(s, TakeAnswer) || Enabled(s, MasterStep)
  {
    hide Frame, Checksum, RecvAttempt, Receive, Replay;
    var m, frame := s.master, s.phase.frame;
    if m.state == RECEIVING {
      if m.input != [] {
        MasterMoves(m, m.input);
      } else if m.output == NakFrame(s.gid, m.error) {
        NakIsSane(s.gid, m.error);
        AttemptTakesFrame(s.gid, m.output, []);
        assert m.output + [] == m.output;
      } else {
        AckIsSane(s.gid);
        AttemptTakesFrame(s.gid, AckFrame(s.gid), InTransit(m.gid, Outstanding(s)));
      }
    }
  }

  /** A blocked receive is stuck exactly when it waits for an echo of more than 27 bytes. */
  lemma ReceiveIsStuckOnLongEcho<E(!new)>(exec: Exec<E>, s: Link<E>)
    requires Answers(exec) && Inv(exec, s) && s.phase.AwaitData?
    ensures !Enabled(s, TakeData) && !Enabled(s, MasterStep)
       <==> s.master.state == RECEIVING && EchoTooLong(s.phase.frame)
  {
    hide Frame, Checksum, RecvAttempt, Receive, Replay;
    var m, frame := s.master, s.phase.frame;
    NothingToTake(s.gid);
    if m.state == RECEIVING {
      var e := Replay(exec, s.start, m.executed[..|m.executed| - 1]).0;
      assert AnswersOne(exec, e, frame);
      var sent := Fits(Result(exec, e, frame).1);
      assert (s.received + sent)[|s.received|..] == sent;
      if sent != [] {
        DataIsSane(s.gid, sent[0]);
        AttemptTakesFrame(s.gid, DataFrame(s.gid, sent[0]), []);
        assert DataFrame(s.gid, sent[0]) + [] == DataFrame(s.gid, sent[0]);
      }
    }
  }
}
