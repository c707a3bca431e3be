/** The ECHO exchange through every layer between the client and the master. */
module EchoExchange {
  import opened Bytes
  import opened Packets
  import opened Crc8
  import opened MasterSide
  import opened ClientSide
  import RxInterrupts
  import Serial

  const RX_BUFFER_SIZE := 32

  /** The master's receive buffer has taken the bytes in, and the main program has taken them out again. */
  ghost predicate Received(bytes: seq<byte>, events: seq<RxInterrupts.Event>) {
    var m := RxInterrupts.Run(RxInterrupts.Start(RX_BUFFER_SIZE), events);
    && RxInterrupts.OneByteAWindow(RxInterrupts.Start(RX_BUFFER_SIZE), events)
    && RxInterrupts.Arrivals(events) == bytes && m.pc == RxInterrupts.Poll && m.phantoms == 0 && m.ring.Live() == 0
  }

  /** Every frame that fits the buffer can be received so, with the main program busy until it is there. */
  lemma FrameCanBeReceived(bytes: seq<byte>) returns (events: seq<RxInterrupts.Event>)
    requires |bytes| <= RX_BUFFER_SIZE
    ensures Received(bytes, events)
  {
    events := RxInterrupts.BurstIsReadOut(RX_BUFFER_SIZE, bytes);
  }

  lemma WhatIsReceivedIsDelivered(bytes: seq<byte>, events: seq<RxInterrupts.Event>)
    requires Received(bytes, events) && |bytes| <= RX_BUFFER_SIZE
    ensures RxInterrupts.Run(RxInterrupts.Start(RX_BUFFER_SIZE), events).delivered == bytes
  {
    hide RxInterrupts.Run, RxInterrupts.Arrivals, RxInterrupts.OneByteAWindow;
    var m := RxInterrupts.Run(RxInterrupts.Start(RX_BUFFER_SIZE), events);
    RxInterrupts.OneByteAWindowIsSafe(RX_BUFFER_SIZE, events);
    RxInterrupts.NothingIsRefused(RX_BUFFER_SIZE, events);
    assert m.Pending() == [] && m.delivered + [] == m.delivered;
  }

  lemma EchoIsServed<E>(m: Master<E>, exec: (E, seq<byte>) -> (E, Option<Reply>), p: seq<byte>)
    requires Sane(p) && Type(p) == COM_TYPE_ECHO && |Body(p)| <= 27
    ensures var r := m.Served(exec, p, []);
      && r.state == RECEIVING && r.input == [] && r.gid == NextId(m.gid)
      && r.output == m.output + Frame(m.gid, COM_TYPE_ACK, 0, []) + Frame(NextId(m.gid), COM_TYPE_DAT, 0, Body(p))
  {
    hide Frame, Checksum, Master.Execute;
    m.(rx := p, error := E_SUCCESS, input := [], state := EXECUTE, gid := NextId(m.gid),
       output := m.output + Frame(m.gid, COM_TYPE_ACK, 0, [])).ExecuteOne(exec);
  }

  /** What the handler answers to an ECHO. */
  lemma EchoIsAnswered<E>(m: Master<E>, exec: (E, seq<byte>) -> (E, Option<Reply>), sel: byte, body: seq<byte>)
    requires m.state == RECEIVING && |body| <= 27
    requires m.input == Frame(m.gid, COM_TYPE_ECHO, sel, body) && m.output == []
    ensures m.Valid()
    ensures var r := m.Run(exec);
      && r.gid == NextId(m.gid)
      && r.output == Frame(m.gid, COM_TYPE_ACK, 0, []) + Frame(NextId(m.gid), COM_TYPE_DAT, 0, body)
  {
    var p := m.input;
    FrameIsSane(m.gid, COM_TYPE_ECHO, sel, body);
    hide Frame, Receive, Checksum, Master.Run, Master.Served, Sane;
    assert p + [] == p;
    m.ServeRun(exec, p, []);
    EchoIsServed(m, exec, p);
    m.Served(exec, p, []).RunsNoMore(exec);
    assert m.output + Frame(m.gid, COM_TYPE_ACK, 0, []) == Frame(m.gid, COM_TYPE_ACK, 0, []);
  }

  /**
   Any body of 1 to 27 bytes comes back unchanged: through the receive buffer under interrupts, the
   checks and the handler of the master, its transmitter under interrupts, and the checks of the client.
   */
  lemma EchoThroughEveryLayer<E>(
    m: Master<E>, exec: (E, seq<byte>) -> (E, Option<Reply>), sel: byte, body: seq<byte>,
    arrivals: seq<RxInterrupts.Event>, sends: seq<Serial.Event>)
    requires m.state == RECEIVING && m.output == [] && 1 <= |body| <= 27
    requires Received(Frame(m.gid, COM_TYPE_ECHO, sel, body), arrivals)
    requires m.input == RxInterrupts.Run(RxInterrupts.Start(RX_BUFFER_SIZE), arrivals).delivered
    requires m.Valid() && Serial.AllTaken(sends) == m.Run(exec).output
    ensures var line := Serial.Run(Serial.IDLE, sends).Drained().line;
      var answer := RecvAttempt(m.gid, line);
      && Acknowledges(answer)
      && var echo := RecvAttempt(GidAfterAnswer(m.gid, answer), answer.rest);
      && echo.Got? && echo.error == E_SUCCESS && echo.rest == [] && |echo.packet| >= 5
      && Type(echo.packet) == COM_TYPE_DAT && Body(echo.packet) == body
  {
    hide Frame, Receive, RecvAttempt, Received, Serial.AllTaken, Serial.Run, Master.Run, Checksum;
    var id := NextId(m.gid);
    var ack, dat := Frame(m.gid, COM_TYPE_ACK, 0, []), Frame(id, COM_TYPE_DAT, 0, body);
    WhatIsReceivedIsDelivered(Frame(m.gid, COM_TYPE_ECHO, sel, body), arrivals);
    EchoIsAnswered(m, exec, sel, body);
    Serial.LineIsConcatenation(sends);
    FrameIsSane(m.gid, COM_TYPE_ACK, 0, []);
    FrameIsSane(id, COM_TYPE_DAT, 0, body);
    AttemptTakesFrame(m.gid, ack, dat);
    AttemptTakesFrame(id, dat, []);
    assert dat + [] == dat;
  }
}
