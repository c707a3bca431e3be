/**
 The master's end of the serial link: the five-state communication handler. What an operation does
 beyond the link is a parameter `exec`, from an environment and a packet to the new environment and
 the reply, if any.
 */
module MasterSide {
  import opened Bytes
  import opened Crc8
  import opened Packets
  import Serial

  datatype Op = Null | Echo | Ping | GetSpeed | SetSpeed | Apply | SetSlaveAddr

  /** `com_operation_table`, indexed by packet type. */
  const OPERATIONS: seq<Op> :=
    [Null, Null, Null, Null, Echo, Ping, GetSpeed, SetSpeed, Apply, Null, SetSlaveAddr]

  function Operation(typ: byte): Op
    requires typ < COM_TYPE_LIMIT
  {
    OPERATIONS[typ]
  }

  /** The selector and the body of a DAT packet. */
  datatype Reply = Reply(selector: byte, body: seq<byte>)

  datatype State = RECEIVING | HND | ACK | NAK | EXECUTE

  /**
   `input` are the received bytes not read yet and `output` the transmitted bytes not yet taken by the
   client. `executed` and `replies` record the packets an operation ran for, and the replies sent.
   `stack` is what an uninitialised packet happens to hold.
   */
  datatype Master<E> = Master(
    gid: byte, state: State, rx: seq<byte>, error: ComError,
    input: seq<byte>, output: seq<byte>,
    env: E, executed: seq<seq<byte>>, replies: seq<Reply>, stack: seq<byte>) {

    /** A packet is acknowledged or executed only after the sanity checks. */
    predicate Valid() {
      state == HND || state == ACK || state == EXECUTE ==> Passes(rx)
    }

    /** `communication_send`: `serial_tx` drops what does not fit its buffer. */
    function Send(typ: byte, sel: byte, body: seq<byte>): Master<E>
      requires |body| <= BODY_MAX_LEN
    {
      var p := Frame(gid, typ, sel, body);
      if |p| <= Serial.TX_BUFFER_SIZE then this.(output := output + p) else this
    }

    /** The handler leaves its loop, or waits for bytes inside `serial_rx`. */
    predicate Waiting() {
      state == RECEIVING && (input == [] || !Receive(gid, input).Got?)
    }

    /** The reply of the operation for `rx`, with the environment it leaves. */
    function Operate(exec: (E, seq<byte>) -> (E, Option<Reply>)): (E, Option<Reply>)
      requires Passes(rx)
    {
      match Operation(Type(rx))
      case Null => (env, None)
      case Echo => (env, if Bare(rx) then None else Some(Reply(0, Body(rx))))
      case _ => exec(env, rx)
    }

    /** `_op_echo` takes a missing body for 255 bytes: no packet is crafted, and what lies in its place is sent. */
    function EchoBare(): Master<E>
      requires Bare(rx)
    {
      this.(state := RECEIVING, executed := executed + [rx], output := output + Left(stack))
    }

    function Execute(exec: (E, seq<byte>) -> (E, Option<Reply>)): Master<E>
      requires Passes(rx)
    {
      if Bare(rx) && Operation(Type(rx)) == Echo then EchoBare() else Perform(exec)
    }

    function Perform(exec: (E, seq<byte>) -> (E, Option<Reply>)): Master<E>
      requires Passes(rx)
    {
      var (env', reply) := Operate(exec);
      var log := if Operation(Type(rx)) == Null then executed else executed + [rx];
      var done := this.(state := RECEIVING, env := env', executed := log);
      match reply
      case None => done
      case Some(r) =>
        if |r.body| + 5 <= Serial.TX_BUFFER_SIZE then
          done.Send(COM_TYPE_DAT, r.selector, r.body).(replies := replies + [r])
        else done
    }

    /** One iteration of the handler's loop. */
    function Step(exec: (E, seq<byte>) -> (E, Option<Reply>)): Master<E>
      requires Valid() && !Waiting()
    {
      match state
      case RECEIVING =>
        var r := Receive(gid, input);
        var next := if r.error != E_SUCCESS then NAK else if Type(r.packet) == COM_TYPE_HND then HND else ACK;
        this.(rx := r.packet, error := r.error, input := r.rest, state := next)
      case HND => this.(gid := 0, state := ACK)
      case ACK => Send(COM_TYPE_ACK, 0, []).(gid := NextId(gid), state := EXECUTE)
      case NAK => Send(COM_TYPE_NAK, ErrorCode(error), []).(gid := 0, state := RECEIVING)
      case EXECUTE => Execute(exec)
    }

    function Rank(): nat {
      match state
      case RECEIVING => 0
      case NAK => 1
      case EXECUTE => 1
      case ACK => 2
      case HND => 3
    }

    /** The loop terminates on any input: bytes are consumed, or else the state's rank goes down. */
    lemma StepDecreases(exec: (E, seq<byte>) -> (E, Option<Reply>))
      requires Valid() && !Waiting()
      ensures Step(exec).Valid()
      ensures |Step(exec).input| < |input| || (Step(exec).input == input && Step(exec).Rank() < Rank())
    {
      hide Checksum, Frame, Receive, Operation;
    }

    /** The loop run until it returns or waits. */
    function Run(exec: (E, seq<byte>) -> (E, Option<Reply>)): (r: Master<E>)
      requires Valid()
      ensures r.Valid() && r.Waiting()
      decreases |input|, Rank()
    {
      if Waiting() then this
      else
        StepDecreases(exec);
        Step(exec).Run(exec)
    }

    // The iterations, one by one

    lemma TakeStep(exec: (E, seq<byte>) -> (E, Option<Reply>), p: seq<byte>, rest: seq<byte>)
      requires state == RECEIVING && input == p + rest && Passes(p) && HeaderMatches(gid, p)
      ensures Valid() && !Waiting()
      ensures Step(exec) ==
        this.(rx := p, error := E_SUCCESS, input := rest, state := if Type(p) == COM_TYPE_HND then HND else ACK)
    {
      hide Checksum, Frame, Receive, Send, Execute;
      AcceptsExactlyFrames(gid, input, p, rest);
    }

    lemma RefuseStep(exec: (E, seq<byte>) -> (E, Option<Reply>))
      requires state == RECEIVING && input != []
      requires Receive(gid, input).Got? && Receive(gid, input).error != E_SUCCESS
      ensures Valid() && !Waiting()
      ensures var r := Receive(gid, input);
        Step(exec) == this.(rx := r.packet, error := r.error, input := r.rest, state := NAK)
    {
      hide Checksum, Frame, Receive, Send, Execute;
    }

    lemma HndStep(exec: (E, seq<byte>) -> (E, Option<Reply>))
      requires Valid() && state == HND
      ensures !Waiting() && Step(exec) == this.(gid := 0, state := ACK)
    {
      hide Checksum, Frame, Receive, Send, Execute;
    }

    lemma AckStep(exec: (E, seq<byte>) -> (E, Option<Reply>))
      requires Valid() && state == ACK
      ensures !Waiting()
      ensures Step(exec) ==
        this.(output := output + Frame(gid, COM_TYPE_ACK, 0, []), gid := NextId(gid), state := EXECUTE)
    {
      hide Checksum, Frame, Receive, Execute;
      FrameLength(gid, COM_TYPE_ACK, 0, []);
    }

    lemma NakStep(exec: (E, seq<byte>) -> (E, Option<Reply>))
      requires state == NAK
      ensures Valid() && !Waiting()
      ensures Step(exec) ==
        this.(output := output + Frame(gid, COM_TYPE_NAK, ErrorCode(error), []), gid := 0, state := RECEIVING)
    {
      hide Checksum, Frame, Receive, Execute;
      FrameLength(gid, COM_TYPE_NAK, ErrorCode(error), []);
    }

    lemma ExecuteStep(exec: (E, seq<byte>) -> (E, Option<Reply>))
      requires Valid() && state == EXECUTE
      ensures !Waiting() && Step(exec) == Execute(exec)
    {
      hide Checksum, Frame, Receive, Execute;
    }

    /** A packet without an operation is dropped. */
    lemma ExecuteNull(exec: (E, seq<byte>) -> (E, Option<Reply>))
      requires Passes(rx) && Operation(Type(rx)) == Null
      ensures Execute(exec) == this.(state := RECEIVING)
    {
      PassesHasHeader(rx);
      hide Checksum, Sane, Bare;
    }

    /** One with an operation is run; the reply is sent if the transmitter takes it. */
    lemma ExecuteOne(exec: (E, seq<byte>) -> (E, Option<Reply>))
      requires Sane(rx) && Operation(Type(rx)) != Null
      ensures var (e, reply) := Operate(exec);
        var done := this.(state := RECEIVING, env := e, executed := executed + [rx]);
        Execute(exec) ==
          if reply.Some? && |reply.value.body| + 5 <= Serial.TX_BUFFER_SIZE then
            done.(output := output + Frame(gid, COM_TYPE_DAT, reply.value.selector, reply.value.body),
                  replies := replies + [reply.value])
          else done
    {
      SaneIsNotBare(rx);
      hide Checksum, Sane, Bare, Frame, Operate;
      var reply := Operate(exec).1;
      if reply.Some? && |reply.value.body| <= BODY_MAX_LEN {
        FrameLength(gid, COM_TYPE_DAT, reply.value.selector, reply.value.body);
      }
    }

    // Runs

    lemma RunsOn(exec: (E, seq<byte>) -> (E, Option<Reply>))
      requires Valid() && !Waiting() && Step(exec).Valid()
      ensures Run(exec) == Step(exec).Run(exec)
    {
      hide Step, Waiting;
    }

    lemma RunsNoMore(exec: (E, seq<byte>) -> (E, Option<Reply>))
      requires state == RECEIVING && (input == [] || !Receive(gid, input).Got?)
      ensures Valid() && Run(exec) == this
    {
      hide Step, Receive;
    }

    /** The master after the frame `p` at the front of its input, and nothing but that frame. */
    function Served(exec: (E, seq<byte>) -> (E, Option<Reply>), p: seq<byte>, rest: seq<byte>): Master<E>
      requires Passes(p)
    {
      this.(rx := p, error := E_SUCCESS, input := rest, state := EXECUTE, gid := GidAfter(gid, p),
            output := output + Frame(AckId(gid, p), COM_TYPE_ACK, 0, [])).Execute(exec)
    }

    lemma ServeRun(exec: (E, seq<byte>) -> (E, Option<Reply>), p: seq<byte>, rest: seq<byte>)
      requires state == RECEIVING && input == p + rest && Passes(p) && HeaderMatches(gid, p)
      ensures Valid() && Served(exec, p, rest).state == RECEIVING && Served(exec, p, rest).Valid()
      ensures Run(exec) == Served(exec, p, rest).Run(exec)
    {
      PassesHasHeader(p);
      hide Step, Run, Execute, Passes, HeaderMatches, Waiting;
      TakeStep(exec, p, rest);
      RunsOn(exec);
      var taken := Step(exec);
      if taken.state == HND {
        taken.HndStep(exec);
        taken.RunsOn(exec);
      }
      var acking := if taken.state == HND then taken.Step(exec) else taken;
      acking.AckStep(exec);
      acking.RunsOn(exec);
      acking.Step(exec).ExecuteStep(exec);
      acking.Step(exec).ExecuteReturns(exec);
      acking.Step(exec).RunsOn(exec);
    }

    lemma ExecuteReturns(exec: (E, seq<byte>) -> (E, Option<Reply>))
      requires Passes(rx)
      ensures Execute(exec).state == RECEIVING && Execute(exec).Valid()
      ensures Execute(exec).input == input && Execute(exec).gid == gid
    {
      PassesHasHeader(rx);
      hide Checksum, Sane, Bare, Frame, Operate;
    }

    /** The master after input that it refuses: the id falls back to 0. */
    function Refused(r: Received): Master<E>
      requires r.Got?
    {
      this.(rx := r.packet, error := r.error, input := r.rest, gid := 0,
            output := output + Frame(gid, COM_TYPE_NAK, ErrorCode(r.error), []))
    }

    lemma RefuseRun(exec: (E, seq<byte>) -> (E, Option<Reply>))
      requires state == RECEIVING && input != []
      requires Receive(gid, input).Got? && Receive(gid, input).error != E_SUCCESS
      ensures Valid() && Run(exec) == Refused(Receive(gid, input)).Run(exec)
    {
      hide Step, Run, Receive, Waiting;
      RefuseStep(exec);
      RunsOn(exec);
      Step(exec).NakStep(exec);
      Step(exec).RunsOn(exec);
    }

    /** The handler ends, whatever its input, where the receive calls come to an end. */
    lemma {:induction false} RunEndsExactly(exec: (E, seq<byte>) -> (E, Option<Reply>))
      requires state == RECEIVING
      ensures Valid()
      ensures var r := Run(exec); r.state == RECEIVING && (r.gid, r.input) == Undigested(gid, input)
      decreases |input|
    {
      hide Step, Run, Receive, Passes, HeaderMatches, Served, Waiting;
      var r := Receive(gid, input);
      if input == [] || !r.Got? {
        RunsNoMore(exec);
      } else if r.error == E_SUCCESS {
        GotIsSplit(gid, input);
        ServeRun(exec, r.packet, r.rest);
        ServedIsBehind(exec, r.packet, r.rest);
        Served(exec, r.packet, r.rest).RunEndsExactly(exec);
      } else {
        GotIsSplit(gid, input);
        RefuseRun(exec);
        Refused(r).RunEndsExactly(exec);
      }
    }

    lemma ServedIsBehind(exec: (E, seq<byte>) -> (E, Option<Reply>), p: seq<byte>, rest: seq<byte>)
      requires Passes(p)
      ensures Served(exec, p, rest).input == rest && Served(exec, p, rest).gid == GidAfter(gid, p)
    {
      hide Execute, Checksum;
      this.(rx := p, error := E_SUCCESS, input := rest, state := EXECUTE, gid := GidAfter(gid, p),
            output := output + Frame(AckId(gid, p), COM_TYPE_ACK, 0, [])).ExecuteReturns(exec);
    }
  }

  // ----- The expected id, and the input that the handler can take apart

  /** What `serial_tx` accepts of an uninitialised packet. */
  function Left(stack: seq<byte>): seq<byte> {
    if |stack| == PACKET_MAX_SIZE && 0 < stack[3] <= Serial.TX_BUFFER_SIZE then stack[..stack[3]] else []
  }

  /** The id with which a packet is acknowledged: a handshake starts over at 0. */
  function AckId(gid: byte, p: seq<byte>): byte
    requires |p| >= HEADER_SIZE
  {
    if Type(p) == COM_TYPE_HND then 0 else gid
  }

  function GidAfter(gid: byte, p: seq<byte>): byte
    requires |p| >= HEADER_SIZE
  {
    NextId(AckId(gid, p))
  }

  /**
   Where the receive calls come to an end, each with the id that the one before leaves: the id that is
   then expected, and the bytes of which no more packet can be taken.
   */
  function Undigested(gid: byte, input: seq<byte>): (byte, seq<byte>)
    decreases |input|
  {
    var r := Receive(gid, input);
    if input == [] || !r.Got? then (gid, input)
    else Undigested(if r.error == E_SUCCESS then GidAfter(gid, r.packet) else 0, r.rest)
  }

  /** The receive calls consume the input to its last byte. */
  predicate Digestible(gid: byte, input: seq<byte>) {
    Undigested(gid, input).1 == []
  }

  /** They come to a packet with a size of 0 to 3, with more bytes behind it than the packet has room for. */
  predicate Overrun(gid: byte, input: seq<byte>) {
    var (g, left) := Undigested(gid, input);
    |left| > PACKET_MAX_SIZE && HeaderMatches(g, left) && Size(left) < HEADER_SIZE
  }

  lemma GotIsSplit(gid: byte, input: seq<byte>)
    requires Receive(gid, input).Got?
    ensures var r := Receive(gid, input);
      && input == r.packet + r.rest && |r.packet| >= HEADER_SIZE && |r.rest| < |input|
      && (r.error == E_SUCCESS ==> Passes(r.packet) && HeaderMatches(gid, r.packet))
  {
    hide Checksum;
  }

  lemma SaneIsNotBare(p: seq<byte>)
    requires Sane(p)
    ensures !Bare(p) && |p| > HEADER_SIZE && Type(p) < COM_TYPE_LIMIT
  {
    hide Checksum;
  }

  // ----- The handler in place

  /** Whether the handler returned, with its result, waits for bytes, or has written past its packet. */
  datatype Outcome = Returned(actionPerformed: bool) | Waits | Overruns

  class Handler<E> {
    const exec: (E, seq<byte>) -> (E, Option<Reply>)
    var gid: byte
    var state: State
    var rx: seq<byte>
    var error: ComError
    var input: seq<byte>
    var output: seq<byte>
    var env: E
    var executed: seq<seq<byte>>
    var replies: seq<Reply>
    const stack: seq<byte>

    ghost function View(): Master<E>
      reads this
    {
      Master(gid, state, rx, error, input, output, env, executed, replies, stack)
    }

    constructor (exec: (E, seq<byte>) -> (E, Option<Reply>), env: E, stack: seq<byte>)
      ensures View().Valid() && state == RECEIVING && gid == 0 && input == output == []
      ensures this.exec == exec && this.env == env && this.stack == stack
    {
      this.exec, this.env, this.stack := exec, env, stack;
      gid, state, rx, error := 0, RECEIVING, [], E_SUCCESS;
      input, output, executed, replies := [], [], [], [];
    }

    /** `communication_send`. */
    method CommunicationSend(typ: byte, sel: byte, body: seq<byte>)
      requires |body| <= BODY_MAX_LEN
      modifies this`output
      ensures View() == old(View()).Send(typ, sel, body)
    {
      hide Checksum, Frame;
      var p := Frame(gid, typ, sel, body);
      if |p| <= Serial.TX_BUFFER_SIZE {
        output := output + p;
      }
    }

    /** `communication_recv`, when the bytes it waits for are there. */
    method CommunicationRecv()
      requires Receive(gid, input).Got?
      modifies this`rx, this`error, this`input
      ensures var r := Receive(old(gid), old(input)); rx == r.packet && error == r.error && input == r.rest
    {
      hide Checksum;
      var p := input[..4];
      if Id(p) != gid && (Type(p) != COM_TYPE_HND || Id(p) != 0) {
        rx, error, input := p, E_ID_MISMATCH, input[4..];
        return;
      }
      if Size(p) > PACKET_MAX_SIZE {
        rx, error, input := p, E_TOO_BIG, input[4..];
        return;
      }
      rx, input := input[..Size(p)], input[Size(p)..];
      if Type(rx) >= COM_TYPE_LIMIT {
        error := E_WRONG_TYPE;
      } else if Checksum(rx) != 0 {
        error := E_CORRUPTED_CHECKSUM;
      } else {
        error := E_SUCCESS;
      }
    }

    /**
     `communication_handler`. It returns only in RECEIVING, with every byte consumed; called there, it
     returns exactly if the receive calls can take its input apart, writes past its packet exactly if they
     come to a size that it does not check, with enough bytes behind it, and waits exactly otherwise.
     */
    method CommunicationHandler() returns (outcome: Outcome)
      requires View().Valid()
      modifies this
      ensures View().Valid() && View() == old(View()).Run(exec)
      ensures outcome.Returned? ==> state == RECEIVING && input == []
      ensures outcome.Returned? && old(state) == RECEIVING ==> outcome.actionPerformed == (old(input) != [])
      ensures !outcome.Returned? ==> state == RECEIVING && input != [] && !Receive(gid, input).Got?
      ensures outcome.Overruns? <==> input != [] && Stored(gid, input) > PACKET_MAX_SIZE
      ensures old(state) == RECEIVING ==>
        && (outcome.Returned? <==> Digestible(old(gid), old(input)))
        && (outcome.Overruns? <==> Overrun(old(gid), old(input)))
    {
      hide Checksum, Frame, Receive, Operation, Undigested, Stored;
      if state == RECEIVING {
        View().RunEndsExactly(exec);
      }
      var actionPerformed := false;
      while true
        invariant View().Valid()
        invariant View().Run(exec) == old(View()).Run(exec)
        invariant !actionPerformed ==> View() == old(View()) || old(state) != RECEIVING
        invariant actionPerformed ==> old(state) != RECEIVING || old(input) != []
        decreases |input|, View().Rank()
      {
        if state == RECEIVING {
          if input == [] {
            return Returned(actionPerformed);
          }
          if !Receive(gid, input).Got? {
            OverrunsExactly(gid, input);
            return if Receive(gid, input) == BadSize(true) then Overruns else Waits;
          }
          actionPerformed := true;
        }
        View().StepDecreases(exec);
        Switch();
      }
    }

    /** The body of the `switch`. */
    method Switch()
      requires View().Valid() && !View().Waiting()
      modifies this
      ensures View() == old(View()).Step(exec)
    {
      hide Checksum, Frame, Operation;
      match state
      case RECEIVING =>
        CommunicationRecv();
        if error != E_SUCCESS {
          state := NAK;
        } else if Type(rx) == COM_TYPE_HND {
          state := HND;
        } else {
          state := ACK;
        }
      case HND =>
        gid := 0;
        state := ACK;
      case ACK =>
        CommunicationSend(COM_TYPE_ACK, 0, []);
        gid := NextId(gid);
        state := EXECUTE;
      case NAK =>
        CommunicationSend(COM_TYPE_NAK, ErrorCode(error), []);
        gid := 0;
        state := RECEIVING;
      case EXECUTE =>
        ExecuteOperation();
    }

    /** Sends a reply, and records it if the transmitter takes it. */
    method Answer(r: Reply)
      requires |r.body| <= BODY_MAX_LEN
      modifies this`output, this`replies
      ensures output == old(View()).Send(COM_TYPE_DAT, r.selector, r.body).output
      ensures replies == if |r.body| + 5 <= Serial.TX_BUFFER_SIZE then old(replies) + [r] else old(replies)
    {
      hide Checksum, Frame;
      CommunicationSend(COM_TYPE_DAT, r.selector, r.body);
      if |r.body| + 5 <= Serial.TX_BUFFER_SIZE {
        replies := replies + [r];
      }
    }

    /** The answer to an ECHO without body: `packet_craft` refuses, and `serial_tx` gets the packet as it was. */
    method EchoLeft()
      modifies this`output
      ensures output == old(output) +
        if |stack| == 37 && 0 < stack[3] <= 32 then stack[..stack[3]] else []
    {
      if |stack| == PACKET_MAX_SIZE && 0 < stack[3] <= Serial.TX_BUFFER_SIZE {
        output := output + stack[..stack[3]];
      } else {
        assert output + [] == output;
      }
    }

    /** The operation for the packet's type, if the table has one. */
    method ExecuteOperation()
      requires View().Valid() && state == EXECUTE
      modifies this
      ensures View() == old(View()).Execute(exec)
    {
      hide Checksum, Frame;
      PassesHasHeader(rx);
      var op := OPERATIONS[Type(rx)];
      state := RECEIVING;
      if op == Null {
        return;
      }
      executed := executed + [rx];
      if op == Echo {
        if Bare(rx) {
          EchoLeft();
        } else {
          Answer(Reply(0, Body(rx)));
        }
      } else {
        var (next, reply) := exec(env, rx);
        env := next;
        if reply.Some? && |reply.value.body| <= BODY_MAX_LEN {
          Answer(reply.value);
        }
      }
    }
  }
}
