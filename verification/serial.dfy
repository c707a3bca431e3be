/** The USART driver: the interrupt-driven transmitter, and the reads that empty the receive buffer. */
module Serial {
  import opened Bytes
  import opened RingBuffers

  const TX_BUFFER_SIZE := 32

  // ----- The transmitter on values

  lemma TakeOneOver(line: seq<byte>, pending: seq<byte>)
    requires pending != []
    ensures line + [pending[0]] + pending[1..] == line + pending
  {
    assert pending == [pending[0]] + pending[1..];
  }

  /** A call of `serial_tx`, or the completion of the byte that is being shifted out. */
  datatype Event = Call(buf: seq<byte>) | Complete

  /** `inFlight` is the byte last written to UDR0; `line` is what has left the chip. */
  datatype Tx = Tx(buffer: seq<byte>, toTransmit: nat, transmitted: nat, ongoing: bool,
                   inFlight: Option<byte>, line: seq<byte>) {

    predicate Valid() {
      && |buffer| == TX_BUFFER_SIZE
      && (ongoing ==> transmitted < toTransmit <= TX_BUFFER_SIZE && inFlight == Some(buffer[transmitted]))
      && (!ongoing ==> inFlight == None)
    }

    /** The accepted bytes that have not left yet. */
    function Pending(): seq<byte>
      requires Valid()
    {
      if ongoing then buffer[transmitted..toTransmit] else []
    }

    /** The byte leaves, and the TX-complete ISR loads the next one or resets the transmitter. */
    function Completed(): Tx
      requires Valid() && ongoing
    {
      var t := transmitted + 1;
      var out := line + [inFlight.value];
      if t < toTransmit then this.(transmitted := t, inFlight := Some(buffer[t]), line := out)
      else this.(toTransmit := 0, transmitted := 0, ongoing := false, inFlight := None, line := out)
    }

    lemma CompletedSendsOne()
      requires Valid() && ongoing
      ensures Completed().Valid()
      ensures |Completed().Pending()| == |Pending()| - 1
      ensures Completed().line + Completed().Pending() == line + Pending()
    {
      assert Completed().Pending() == Pending()[1..];
      TakeOneOver(line, Pending());
    }

    /** What the busy wait of `serial_tx` leaves: the interrupts have emptied the buffer. */
    function Drained(): (r: Tx)
      requires Valid()
      ensures r.Valid() && !r.ongoing
      ensures r.line == line + Pending()
      decreases |Pending()|
    {
      if !ongoing then this
      else
        CompletedSendsOne();
        Completed().Drained()
    }

    /** `serial_tx` once the transmitter is free. */
    function Loaded(buf: seq<byte>): Tx
      requires Valid() && !ongoing && 0 < |buf| <= TX_BUFFER_SIZE
    {
      Tx(buf + buffer[|buf|..], |buf|, 0, true, Some(buf[0]), line)
    }

    /** `serial_tx`: an empty or oversized buffer is refused. */
    function Called(buf: seq<byte>): Tx
      requires Valid()
    {
      if Accepts(buf) then Drained().Loaded(buf) else this
    }

    function Step(e: Event): Tx
      requires Valid()
    {
      match e
      case Call(buf) => Called(buf)
      case Complete => if ongoing then Completed() else this
    }

    lemma StepConserves(e: Event)
      requires Valid()
      ensures Step(e).Valid()
      ensures Step(e).line + Step(e).Pending() == line + Pending() + Taken(e)
    {
      match e
      case Call(buf) =>
        if Accepts(buf) {
          assert Step(e).Pending() == buf;
        }
      case Complete =>
        if ongoing { CompletedSendsOne(); }
    }
  }

  predicate Accepts(buf: seq<byte>) {
    0 < |buf| <= TX_BUFFER_SIZE
  }

  /** The bytes that an event hands over to the transmitter. */
  function Taken(e: Event): seq<byte> {
    if e.Call? && Accepts(e.buf) then e.buf else []
  }

  function AllTaken(events: seq<Event>): seq<byte> {
    if events == [] then [] else AllTaken(events[..|events| - 1]) + Taken(events[|events| - 1])
  }

  const IDLE := Tx(seq(TX_BUFFER_SIZE, _ => 0), 0, 0, false, None, [])

  function Run(t: Tx, events: seq<Event>): (r: Tx)
    requires t.Valid()
    ensures r.Valid()
  {
    if events == [] then t
    else
      var before := Run(t, events[..|events| - 1]);
      before.StepConserves(events[|events| - 1]);
      before.Step(events[|events| - 1])
  }

  /**
   Over any sequence of calls and completions the line carries the accepted buffers end to end,
   each byte once and in order; what is missing at the end of the line is still pending.
   */
  lemma {:induction false} LineIsConcatenation(events: seq<Event>)
    ensures Run(IDLE, events).line + Run(IDLE, events).Pending() == AllTaken(events)
    ensures Run(IDLE, events).Drained().line == AllTaken(events)
  {
    if events != [] {
      var front, e := events[..|events| - 1], events[|events| - 1];
      LineIsConcatenation(front);
      Run(IDLE, front).StepConserves(e);
    }
  }

  // ----- The transmitter in place

  class Transmitter {
    const txBuffer: array<byte>
    var toTransmit: nat
    var transmitted: nat
    var ongoing: bool
    var inFlight: Option<byte>
    var line: seq<byte>

    ghost function State(): Tx
      reads this, txBuffer
    {
      Tx(txBuffer[..], toTransmit, transmitted, ongoing, inFlight, line)
    }

    constructor ()
      ensures State().Valid() && !ongoing && line == [] && fresh(txBuffer)
    {
      txBuffer := new byte[TX_BUFFER_SIZE];
      toTransmit, transmitted, ongoing, inFlight, line := 0, 0, false, None, [];
    }

    /** The hardware shifts the byte out; then `ISR(USART0_TX_vect)` runs. */
    method TxComplete()
      requires State().Valid() && ongoing
      modifies this
      ensures State().Valid() && State() == old(State()).Completed()
      ensures line + State().Pending() == old(line + State().Pending())
    {
      State().CompletedSendsOne();
      line, inFlight := line + [inFlight.value], None;
      transmitted := transmitted + 1;
      if transmitted < toTransmit {
        inFlight := Some(txBuffer[transmitted]);
      } else {
        toTransmit, transmitted, ongoing := 0, 0, false;
      }
    }

    /** `while (tx_ongoing) ;`, during which only the interrupts run. */
    method WaitUntilIdle()
      requires State().Valid()
      modifies this
      ensures State() == old(State()).Drained()
    {
      while ongoing
        invariant State().Valid()
        invariant State().Drained() == old(State()).Drained()
        decreases |State().Pending()|
      {
        State().CompletedSendsOne();
        TxComplete();
      }
    }

    /** The set-up of a transmission: no byte is in flight, so no interrupt comes in between. */
    method Load(buf: array<byte>, size: nat)
      requires State().Valid() && !ongoing
      requires size <= buf.Length && Accepts(buf[..size]) && buf != txBuffer
      modifies this, txBuffer
      ensures State() == old(State()).Loaded(buf[..size])
    {
      ongoing, toTransmit, transmitted := true, size, 0;
      for i := 0 to size
        invariant txBuffer[..i] == buf[..i]
        invariant txBuffer[i..] == old(txBuffer[i..])
        modifies txBuffer
      {
        txBuffer[i] := buf[i];
      }
      inFlight := Some(txBuffer[0]);
      assert txBuffer[..] == txBuffer[..size] + txBuffer[size..];
      assert old(txBuffer[size..]) == old(txBuffer[..])[size..];
    }

    /** `serial_tx`: true is the source's error return. */
    method SerialTx(buf: array?<byte>, size: nat) returns (err: bool)
      requires State().Valid()
      requires buf != null ==> size <= buf.Length && buf != txBuffer
      modifies this, txBuffer
      ensures State().Valid()
      ensures err == (buf == null || size == 0 || size > 32)
      ensures err ==> State() == old(State())
      ensures !err ==> State() == old(State()).Called(buf[..size])
      ensures !err ==> line + State().Pending() == old(line + State().Pending()) + buf[..size]
    {
      if buf == null || size == 0 || size > TX_BUFFER_SIZE {
        return true;
      }
      State().StepConserves(Call(buf[..size]));
      WaitUntilIdle();
      Load(buf, size);
      err := false;
    }
  }

  // ----- Reads

  /** `serial_rx_nonblock`: as many bytes as are there, up to `size`, oldest first. */
  method SerialRxNonblock(rb: RingBuffer, buf: array?<byte>, size: nat) returns (n: nat)
    requires rb.Valid()
    requires buf != null ==> size <= buf.Length && buf != rb.base
    modifies rb, buf
    ensures rb.Valid()
    ensures n == if buf == null then 0 else if |old(rb.Contents())| < size then |old(rb.Contents())| else size
    ensures buf != null ==> buf[..n] == old(rb.Contents())[..n]
    ensures rb.Contents() == old(rb.Contents())[n..]
  {
    n := 0;
    if buf == null {
      return;
    }
    hide RingBuffer.Valid, RingBuffer.Contents;
    ghost var queue := rb.Contents();
    while n < size
      invariant n <= size && n <= |queue| && rb.Valid()
      invariant rb.Contents() == queue[n..]
      invariant buf[..n] == queue[..n]
    {
      var empty := rb.IsEmpty();
      if empty {
        return;
      }
      var item := rb.Pop();
      assert queue[n..][1..] == queue[n + 1..];
      buf[n] := item.value;
      n := n + 1;
    }
  }
}
