/**
 The receiver of the USART under interrupts. The main program polls and pops the ring buffer without
 masking interrupts, so the receive ISR may push between any two of its reads and writes.
 */
module RxInterrupts {
  import opened Bytes
  import opened RingBuffers

  /**
   Where the main program stands in the loop of `serial_rx`. Both tests for emptiness, its own and the
   one in `ringbuffer_pop`, read the flag first, and the two indices only if the flag was down.
   */
  datatype Pc =
    | Poll               // about to read the flag, in `serial_rx`
    | PollIndices        // the flag was down
    | Test               // not empty; about to read the flag, in `ringbuffer_pop`
    | TestIndices        // the flag was down
    | NotEmpty           // the second test has passed
    | Loaded(v: byte)    // the item is in *dest
    | Advanced(v: byte)  // `first` has moved on, the flag is not cleared yet

  /** One micro-step of the main program, or one receive interrupt with its byte. */
  datatype Event = Main | Rx(b: byte)

  /**
   `accepted` are the bytes the ISR has stored and `delivered` the ones the main program has
   popped; `window` counts the bytes stored since `first` last moved on. `phantoms` are the bytes that
   `serial_rx` has counted although its pop found the buffer empty, and left the destination alone.
   */
  datatype Machine = Machine(
    ring: Ring, pc: Pc, accepted: seq<byte>, delivered: seq<byte>, window: nat, phantoms: nat) {

    /** `serial_rx` and `ringbuffer_pop`, one read or write of shared data at a time. */
    function MainStep(): Machine
      requires ring.InRange()
    {
      match pc
      case Poll => this.(pc := if ring.full then Test else PollIndices)
      case PollIndices => this.(pc := if ring.first == ring.last then Poll else Test)
      case Test => this.(pc := if ring.full then NotEmpty else TestIndices)
      case TestIndices =>
        if ring.first == ring.last then this.(pc := Poll, phantoms := phantoms + 1) else this.(pc := NotEmpty)
      case NotEmpty => this.(pc := Loaded(ring.base[ring.first]))
      case Loaded(v) => this.(ring := ring.Advance(), pc := Advanced(v), window := 0)
      case Advanced(v) => this.(ring := ring.ClearFull(), pc := Poll, delivered := delivered + [v])
    }

    /** The receive ISR: the fullness test, then `ringbuffer_push`, which tests the flag again. */
    function Isr(b: byte): Machine
      requires ring.InRange()
    {
      if ring.full then this
      else this.(ring := ring.Push(b), accepted := accepted + [b], window := window + 1)
    }

    function Step(e: Event): (m: Machine)
      requires ring.InRange()
      ensures m.ring.InRange() && |m.ring.base| == |ring.base|
    {
      match e
      case Main => MainStep()
      case Rx(b) => Isr(b)
    }

    /** The bytes accepted and not yet given to the caller. */
    function Pending(): seq<byte>
      requires ring.InRange()
    {
      (if pc.Advanced? then [pc.v] else []) + ring.Contents()
    }

    /** Every accepted byte is either delivered or pending, once, in order. */
    predicate Conserves()
      requires ring.InRange()
    {
      accepted == delivered + Pending()
    }

    /** The next micro-step clears the flag of a buffer that has filled up again since `first` moved. */
    predicate Refilled() {
      pc.Advanced? && ring.full && ring.first == ring.last
    }

    /** What `serial_rx` has counted. */
    function Counted(): nat {
      |delivered| + phantoms
    }

    /** The next micro-step takes the buffer for empty, after `serial_rx` has seen that it is not. */
    predicate Mistaken() {
      pc.TestIndices? && ring.first == ring.last
    }

    predicate Inv() {
      && ring.InRange()
      && Conserves()
      && (pc.Test? || pc.TestIndices? || pc.NotEmpty? ==> ring.Live() > 0)
      && (pc.Loaded? ==> ring.Live() > 0 && pc.v == ring.base[ring.first])
      && (!pc.Advanced? ==> ring.Valid())
      && (pc.Advanced? && (ring.full ==> ring.first == ring.last) ==> ring.Live() + 2 <= |ring.base| + window)
    }
  }

  function Start(size: nat): Machine
    requires 2 <= size
  {
    Machine(Ring(seq(size, _ => 0), 0, 0, false), Poll, [], [], 0, 0)
  }

  lemma IsrKeepsInv(m: Machine, b: byte)
    requires m.Inv()
    ensures m.Isr(b).Inv() && |m.Isr(b).ring.base| == |m.ring.base|
  {
    if !m.ring.full {
      m.ring.PushAppends(b);
      var s, t := m.Pending() + [b], m.Isr(b).Pending();
      assert s == t;
      if m.ring.Live() > 0 {
        FirstStays(m.ring, b);
      }
    }
  }

  lemma FirstStays(r: Ring, b: byte)
    requires r.InRange() && !r.full && r.Live() > 0
    ensures r.Push(b).base[r.first] == r.base[r.first]
  {
  }

  lemma AdvanceKeepsInv(m: Machine)
    requires m.Inv() && m.pc.Loaded?
    ensures m.MainStep().Inv() && |m.MainStep().ring.base| == |m.ring.base|
  {
    m.ring.AdvanceDrops();
    assert m.ring.Contents()[0] == m.ring.base[Wrap(m.ring.first, |m.ring.base|)];
    assert m.ring.Contents() == [m.pc.v] + m.ring.Contents()[1..];
    hide Ring.Contents;
    assert [] + m.ring.Contents() == m.ring.Contents();
  }

  lemma ClearFullKeepsInv(m: Machine)
    requires m.Inv() && m.pc.Advanced? && !m.Refilled()
    ensures m.MainStep().Inv() && |m.MainStep().ring.base| == |m.ring.base|
  {
    assert m.ring.ClearFull().Contents() == m.ring.Contents();
    hide Ring.Contents;
    assert [] + m.ring.Contents() == m.ring.Contents();
    assert m.delivered + ([m.pc.v] + m.ring.Contents()) == (m.delivered + [m.pc.v]) + m.ring.Contents();
  }

  lemma TestKeepsInv(m: Machine)
    requires m.Inv() && !m.pc.Loaded? && !m.pc.Advanced?
    ensures m.MainStep().Inv() && |m.MainStep().ring.base| == |m.ring.base|
  {
    hide Ring.Contents;
  }

  /** A micro-step keeps every byte, unless it clears the flag of a refilled buffer. */
  lemma MainStepKeepsInv(m: Machine)
    requires m.Inv() && !m.Refilled()
    ensures m.MainStep().Inv() && |m.MainStep().ring.base| == |m.ring.base|
  {
    match m.pc
    case Loaded(_) => AdvanceKeepsInv(m);
    case Advanced(_) => ClearFullKeepsInv(m);
    case _ => TestKeepsInv(m);
  }

  /** Clearing the flag of a refilled buffer loses the whole buffer at once. */
  lemma RefillLosesTheBuffer(m: Machine)
    requires m.Inv() && m.Refilled()
    ensures m.MainStep().Pending() == []
    ensures |m.accepted| == |m.MainStep().delivered| + |m.ring.base|
    ensures !m.MainStep().Conserves()
  {
  }

  // ----- Whole runs

  function Run(m: Machine, events: seq<Event>): (r: Machine)
    requires m.ring.InRange()
    ensures r.ring.InRange() && |r.ring.base| == |m.ring.base|
  {
    if events == [] then m else Run(m, events[..|events| - 1]).Step(events[|events| - 1])
  }

  /** Some micro-step of the run clears the flag of a refilled buffer. */
  ghost predicate Overruns(m: Machine, events: seq<Event>)
    requires m.ring.InRange()
  {
    exists k :: 0 <= k < |events| && events[k] == Main && Run(m, events[..k]).Refilled()
  }

  lemma StartIsConsistent(size: nat)
    requires 2 <= size
    ensures Start(size).Inv()
  {
    assert Start(size).Pending() == [];
  }

  lemma {:induction false} RunKeepsInv(m: Machine, events: seq<Event>)
    requires m.Inv() && !Overruns(m, events)
    ensures Run(m, events).Inv()
  {
    if events != [] {
      var n := |events| - 1;
      var front := events[..n];
      forall k | 0 <= k < n
        ensures front[..k] == events[..k]
      {
      }
      RunKeepsInv(m, front);
      match events[n]
      case Main => MainStepKeepsInv(Run(m, front));
      case Rx(b) => IsrKeepsInv(Run(m, front), b);
    }
  }

  lemma LastStepOverruns(m: Machine, front: seq<Event>, e: Event)
    requires m.Inv() && !Overruns(m, front) && Overruns(m, front + [e])
    ensures !Run(m, front + [e]).Conserves()
  {
    var events, n := front + [e], |front|;
    assert forall i :: 0 <= i <= n ==> events[..i] == front[..i];
    assert front[..n] == front;
    RunKeepsInv(m, front);
    RefillLosesTheBuffer(Run(m, front));
  }

  /** Up to its first overrun a run conserves every byte; that step loses a whole buffer. */
  lemma {:induction false} FirstOverrunLoses(m: Machine, events: seq<Event>) returns (k: nat)
    requires m.Inv() && Overruns(m, events)
    ensures k <= |events| && !Run(m, events[..k]).Conserves()
  {
    hide Run;
    var n := |events| - 1;
    var front := events[..n];
    if Overruns(m, front) {
      k := FirstOverrunLoses(m, front);
      assert front[..k] == events[..k];
    } else {
      k := |events|;
      assert front + [events[n]] == events && events[..k] == events;
      LastStepOverruns(m, front, events[n]);
    }
  }

  /**
   Under every interleaving, the accepted bytes reach the main program in order and each once
   exactly as long as no micro-step clears the flag of a buffer that the ISR has refilled.
   */
  lemma FifoUnderInterrupts(size: nat, events: seq<Event>)
    requires 2 <= size
    ensures (forall k :: 0 <= k <= |events| ==> Run(Start(size), events[..k]).Conserves())
       <==> !Overruns(Start(size), events)
  {
    StartIsConsistent(size);
    if Overruns(Start(size), events) {
      var k := FirstOverrunLoses(Start(size), events);
    } else {
      forall k | 0 <= k <= |events|
        ensures Run(Start(size), events[..k]).Conserves()
      {
        forall i | 0 <= i < k
          ensures events[..k][..i] == events[..i]
        {
        }
        RunKeepsInv(Start(size), events[..k]);
      }
    }
  }

  /** The bytes that the interrupts bring. */
  function Arrivals(events: seq<Event>): seq<byte> {
    if events == [] then []
    else Arrivals(events[..|events| - 1]) + match events[|events| - 1] { case Main => [] case Rx(b) => [b] }
  }

  /** While the flag is stale the buffer misses one item at most. */
  predicate FlagIsFresh(m: Machine) {
    m.ring.InRange() && (m.ring.full ==> m.ring.Live() + (if m.pc.Advanced? then 1 else 0) >= |m.ring.base|)
  }

  lemma StepKeepsFlagFresh(m: Machine, e: Event)
    requires m.Inv() && FlagIsFresh(m)
    ensures FlagIsFresh(m.Step(e))
  {
    match e
    case Main =>
      if m.pc.Loaded? {
        m.ring.AdvanceDrops();
      }
    case Rx(b) =>
      if !m.ring.full {
        m.ring.PushAppends(b);
      }
  }

  /** A full buffer has taken at least as many bytes as it is long. */
  lemma FullHasTakenMany(m: Machine)
    requires m.Inv() && FlagIsFresh(m)
    ensures m.ring.full ==> |m.accepted| >= |m.ring.base|
  {
  }

  lemma RunSnoc(m: Machine, events: seq<Event>, e: Event)
    requires m.ring.InRange()
    ensures Run(m, events + [e]) == Run(m, events).Step(e)
  {
    assert (events + [e])[..|events|] == events;
  }

  lemma OverrunsSnoc(m: Machine, front: seq<Event>, e: Event)
    requires m.ring.InRange()
    ensures Overruns(m, front + [e]) <==> Overruns(m, front) || (e == Main && Run(m, front).Refilled())
  {
    hide Run, Machine.Refilled;
    var events, n := front + [e], |front|;
    assert events[..n] == front && events[n] == e;
    forall k | 0 <= k < n ensures front[..k] == events[..k] && front[k] == events[k] {
    }
  }

  lemma ArrivalsSnoc(front: seq<Event>, e: Event)
    ensures Arrivals(front + [e]) == Arrivals(front) + match e { case Main => [] case Rx(b) => [b] }
  {
    assert (front + [e])[..|front|] == front;
  }

  /** No byte is refused as long as no more have come than the buffer is long. */
  lemma {:induction false} NothingIsRefused(size: nat, events: seq<Event>)
    requires 2 <= size && !Overruns(Start(size), events) && |Arrivals(events)| <= size
    ensures Run(Start(size), events).accepted == Arrivals(events) && FlagIsFresh(Run(Start(size), events))
  {
    if events != [] {
      hide Run, Overruns, Arrivals, Machine.Refilled, FlagIsFresh;
      var m, front, e := Start(size), events[..|events| - 1], events[|events| - 1];
      assert front + [e] == events;
      OverrunsSnoc(m, front, e);
      ArrivalsSnoc(front, e);
      RunSnoc(m, front, e);
      NothingIsRefused(size, front);
      StartIsConsistent(size);
      RunKeepsInv(m, front);
      hide Machine.Inv;
      StepKeepsFlagFresh(Run(m, front), e);
      FullHasTakenMany(Run(m, front));
    }
  }

  // ----- Which bytes the interrupt keeps

  /**
   Fewer bytes wait than the buffer is long; or as many do, and a byte has already come since `first`
   moved on to make a place that the flag does not hide.
   */
  predicate HasRoom(m: Machine) {
    |m.accepted| - |m.delivered| < |m.ring.base| + if m.pc.Advanced? && m.window > 0 then 1 else 0
  }

  /** While `first` has moved on, the flag is stale exactly as long as no byte has been stored since. */
  predicate FlagTells(m: Machine) {
    && m.ring.InRange()
    && (m.pc.Advanced? && m.window == 0 && m.ring.full ==> m.ring.Live() == |m.ring.base| - 1)
    && (m.pc.Advanced? && m.window > 0 && m.ring.full ==> m.ring.first == m.ring.last)
  }

  lemma StepKeepsFlagTelling(m: Machine, e: Event)
    requires m.Inv() && FlagTells(m)
    ensures FlagTells(m.Step(e))
  {
    match e
    case Main =>
      if m.pc.Loaded? {
        m.ring.AdvanceDrops();
      }
    case Rx(b) =>
      if !m.ring.full {
        m.ring.PushAppends(b);
      }
  }

  /** A byte that arrives is stored behind those that wait if there is room, and else nothing changes. */
  lemma StoresIfRoom(m: Machine, b: byte)
    requires m.Inv() && FlagTells(m)
    ensures m.Isr(b).accepted == if HasRoom(m) then m.accepted + [b] else m.accepted
    ensures HasRoom(m) ==> m.Isr(b).Pending() == m.Pending() + [b]
    ensures !HasRoom(m) ==> m.Isr(b) == m
    ensures !m.pc.Advanced? ==> (HasRoom(m) <==> m.ring.Live() < |m.ring.base|)
  {
    if !m.ring.full {
      m.ring.PushAppends(b);
      assert m.Isr(b).Pending() == m.Pending() + [b];
    }
    hide Ring.Contents;
  }

  /** The arrivals of a run without those that came when there was no room. */
  function Kept(m: Machine, events: seq<Event>): seq<byte>
    requires m.ring.InRange()
  {
    if events == [] then []
    else
      var front, e := events[..|events| - 1], events[|events| - 1];
      Kept(m, front) + if e.Rx? && HasRoom(Run(m, front)) then [e.b] else []
  }

  /** In a run without overrun the accepted bytes are exactly those that found room. */
  lemma {:induction false} AcceptsExactly(size: nat, events: seq<Event>)
    requires 2 <= size && !Overruns(Start(size), events)
    ensures Run(Start(size), events).accepted == Kept(Start(size), events)
    ensures FlagTells(Run(Start(size), events))
  {
    if events != [] {
      var m, front, e := Start(size), events[..|events| - 1], events[|events| - 1];
      assert front + [e] == events;
      OverrunsSnoc(m, front, e);
      RunSnoc(m, front, e);
      hide Run, Overruns, Machine.Refilled, FlagTells, HasRoom;
      AcceptsExactly(size, front);
      StartIsConsistent(size);
      RunKeepsInv(m, front);
      hide Machine.Inv;
      StepKeepsFlagTelling(Run(m, front), e);
      match e
      case Main => MainAcceptsNothing(Run(m, front));
      case Rx(b) => StoresIfRoom(Run(m, front), b);
    }
  }

  lemma MainAcceptsNothing(m: Machine)
    requires m.ring.InRange()
    ensures m.MainStep().accepted == m.accepted
  {
  }

  // ----- The main program gets on

  function Mains(m: Machine, n: nat): (r: Machine)
    requires m.ring.InRange()
    ensures r.ring.InRange() && |r.ring.base| == |m.ring.base|
    decreases n
  {
    if n == 0 then m else Mains(m.MainStep(), n - 1)
  }

  lemma MainsFirst(m: Machine, n: nat)
    requires m.ring.InRange()
    ensures Mains(m, n + 1) == Mains(m.MainStep(), n) && Mains(m, 0) == m
  {
    hide Machine.MainStep;
  }

  /** The item is loaded, `first` moves on, the flag is cleared. */
  lemma PopFinishes(m: Machine)
    requires m.Inv() && m.pc == NotEmpty
    ensures var r := Mains(m, 3);
      && r.Inv() && r.pc == Poll && r.delivered == m.delivered + [m.ring.Contents()[0]]
      && r.ring.Contents() == m.ring.Contents()[1..] && r.accepted == m.accepted && r.phantoms == m.phantoms
  {
    m.ring.AdvanceDrops();
    assert m.ring.Contents()[0] == m.ring.base[Wrap(m.ring.first, |m.ring.base|)];
    hide Ring.Contents;
    MainsFirst(m, 2);
    MainsFirst(m.MainStep(), 1);
    MainsFirst(m.MainStep().MainStep(), 0);
    hide Mains;
    TestKeepsInv(m);
    AdvanceKeepsInv(m.MainStep());
    ClearFullKeepsInv(m.MainStep().MainStep());
  }

  lemma TestsPass(m: Machine)
    requires m.Inv() && m.pc == Poll && m.ring.Live() > 0
    ensures m.(pc := NotEmpty).Inv()
    ensures Mains(m, if m.ring.full then 5 else 7) == Mains(m.(pc := NotEmpty), 3)
  {
    hide Ring.Contents;
    if m.ring.full {
      MainsFirst(m, 4);
      MainsFirst(m.(pc := Test), 3);
    } else {
      MainsFirst(m, 6);
      MainsFirst(m.(pc := PollIndices), 5);
      MainsFirst(m.(pc := Test), 4);
      MainsFirst(m.(pc := TestIndices), 3);
    }
    hide Mains;
  }

  /** Unless a byte comes in between, seven micro-steps pop the oldest byte; five do if the buffer is full. */
  lemma OldestIsPopped(m: Machine)
    requires m.Inv() && m.pc == Poll && m.ring.Live() > 0
    ensures var r := Mains(m, if m.ring.full then 5 else 7);
      && r.Inv() && r.pc == Poll && r.delivered == m.delivered + [m.ring.Contents()[0]]
      && r.ring.Contents() == m.ring.Contents()[1..] && r.accepted == m.accepted && r.phantoms == m.phantoms
  {
    hide Mains, Ring.Contents, Machine.Inv, Machine.MainStep;
    TestsPass(m);
    PopFinishes(m.(pc := NotEmpty));
  }

  /** How many micro-steps the main program needs at most to empty the buffer. */
  function ToGo(m: Machine): int
    requires m.ring.InRange()
  {
    var n, full := m.ring.Live(), m.ring.full;
    match m.pc
    case Poll => 7 * n
    case PollIndices => if n == 0 then 0 else if full then 7 * n + 1 else 7 * n - 1
    case Test => 7 * n - 2
    case TestIndices => if full then 7 * n + 1 else 7 * n - 3
    case NotEmpty => 7 * n - 4
    case Loaded(_) => 7 * n - 5
    case Advanced(_) => 7 * n + 1
  }

  lemma MainGetsOn(m: Machine)
    requires m.Inv() && !m.Refilled()
    ensures m.MainStep().Inv() && !m.MainStep().Refilled() && m.MainStep().accepted == m.accepted
    ensures 0 <= ToGo(m.MainStep()) && (ToGo(m) > 0 ==> ToGo(m.MainStep()) < ToGo(m))
    ensures ToGo(m) <= 0 ==> m.ring.Live() == 0 && ToGo(m.MainStep()) == 0
  {
    MainStepKeepsInv(m);
    if m.pc.Loaded? {
      m.ring.AdvanceDrops();
    }
    hide Ring.Contents;
  }

  lemma {:induction false} BufferIsEmptied(m: Machine, n: nat)
    requires m.Inv() && !m.Refilled() && n >= ToGo(m)
    ensures var r := Mains(m, n); r.Inv() && r.delivered == m.accepted == r.accepted && r.ring.Live() == 0
    decreases n
  {
    MainGetsOn(m);
    hide Machine.MainStep, Machine.Refilled, Ring.Contents;
    if n > 0 {
      BufferIsEmptied(m.MainStep(), n - 1);
    } else {
      EmptyIsDelivered(m);
    }
  }

  lemma EmptyIsDelivered(m: Machine)
    requires m.Inv() && ToGo(m) <= 0
    ensures m.ring.Live() == 0 && m.delivered == m.accepted
  {
    assert m.delivered + [] == m.delivered;
  }

  lemma {:induction false} RunMains(m: Machine, events: seq<Event>, n: nat)
    requires m.ring.InRange()
    ensures Run(m, events + seq(n, _ => Main)) == Mains(Run(m, events), n)
    decreases n
  {
    hide Run, Machine.MainStep;
    if n == 0 {
      assert events + seq(0, _ => Main) == events;
    } else {
      assert events + seq(n, _ => Main) == events + [Main] + seq(n - 1, _ => Main);
      RunMains(m, events + [Main], n - 1);
      RunSnoc(m, events, Main);
    }
  }

  lemma NoOverrunBehind(m: Machine, events: seq<Event>, more: seq<Event>)
    requires m.ring.InRange() && !Overruns(m, events + more)
    ensures !Overruns(m, events)
    ensures more != [] && more[0] == Main ==> !Run(m, events).Refilled()
  {
    hide Run, Machine.Refilled;
    var all := events + more;
    forall k | 0 <= k <= |events| ensures all[..k] == events[..k] && (k < |events| ==> all[k] == events[k]) {
    }
    assert events[..|events|] == events;
  }

  /** Once no more bytes come, the main program gets every byte that has found room. */
  lemma EverythingIsDelivered(size: nat, events: seq<Event>, n: nat)
    requires 2 <= size && 7 * size + 1 <= n && !Overruns(Start(size), events + seq(n, _ => Main))
    ensures var r := Run(Start(size), events + seq(n, _ => Main));
      r.delivered == Kept(Start(size), events) && r.Pending() == []
  {
    var m, mains := Start(size), seq(n, _ => Main);
    StartIsConsistent(size);
    NoOverrunBehind(m, events, mains);
    hide Run, Overruns, Machine.Refilled, Machine.Inv, Ring.Contents;
    RunKeepsInv(m, events);
    AcceptsExactly(size, events);
    RunMains(m, events, n);
    var r := Run(m, events);
    ToGoIsBounded(r);
    BufferIsEmptied(r, n);
    NothingIsPending(Mains(r, n));
  }

  lemma ToGoIsBounded(m: Machine)
    requires m.ring.InRange()
    ensures ToGo(m) <= 7 * |m.ring.base| + 1
  {
  }

  lemma NothingIsPending(m: Machine)
    requires m.Inv() && m.delivered == m.accepted
    ensures m.Pending() == []
  {
    assert |m.delivered + m.Pending()| == |m.delivered| + |m.Pending()|;
  }

  // ----- How slow is slow enough

  /** In every run the ISR stores at most one byte between the move of `first` and the clearing of the flag. */
  ghost predicate OneByteAWindow(m: Machine, events: seq<Event>)
    requires m.ring.InRange()
  {
    forall k :: 0 <= k <= |events| ==>
      var r := Run(m, events[..k]); r.pc.Advanced? ==> r.window <= 1
  }

  /** One byte a window is slow enough: what finds room is kept, and nothing is lost, doubled or reordered. */
  lemma OneByteAWindowIsSafe(size: nat, events: seq<Event>)
    requires 2 <= size && OneByteAWindow(Start(size), events)
    ensures !Overruns(Start(size), events)
    ensures var r := Run(Start(size), events);
      && r.accepted == r.delivered + r.Pending() && r.ring.Live() <= size
      && r.accepted == Kept(Start(size), events)
  {
    StartIsConsistent(size);
    forall k | 0 <= k < |events| && events[k] == Main
      ensures !Run(Start(size), events[..k]).Refilled()
    {
      NoEarlyOverrun(size, events, k);
    }
    RunKeepsInv(Start(size), events);
    AcceptsExactly(size, events);
  }

  lemma {:induction false} NoEarlyOverrun(size: nat, events: seq<Event>, k: nat)
    requires 2 <= size && OneByteAWindow(Start(size), events) && k <= |events|
    ensures !Overruns(Start(size), events[..k])
    ensures !Run(Start(size), events[..k]).Refilled()
  {
    var front := events[..k];
    forall i | 0 <= i < k
      ensures front[..i] == events[..i] && !Run(Start(size), front[..i]).Refilled()
    {
      assert front[..i] == events[..i];
      NoEarlyOverrun(size, events, i);
    }
    StartIsConsistent(size);
    RunKeepsInv(Start(size), front);
  }

  /** Two bytes in one window are enough to lose a buffer that was one short of full. */
  lemma TwoBytesAWindowLose(m: Machine, a: byte, b: byte)
    requires m.Inv() && m.pc.Advanced? && !m.ring.full
    requires m.ring.Live() == |m.ring.base| - 2
    ensures var r := m.Isr(a).Isr(b);
      r.Refilled() && r.MainStep().window == m.window + 2 && !r.MainStep().Conserves()
  {
    m.ring.PushAppends(a);
    IsrKeepsInv(m, a);
    m.Isr(a).ring.PushAppends(b);
    IsrKeepsInv(m.Isr(a), b);
    RefillLosesTheBuffer(m.Isr(a).Isr(b));
  }

  function Burst(bytes: seq<byte>): (r: seq<Event>)
    ensures |r| == |bytes|
  {
    seq(|bytes|, i requires 0 <= i < |bytes| => Rx(bytes[i]))
  }

  lemma {:induction false} BurstIsStored(size: nat, bytes: seq<byte>)
    requires 2 <= size && |bytes| <= size
    ensures var r := Run(Start(size), Burst(bytes));
      r.Inv() && r.pc == Poll && r.accepted == bytes && r.delivered == [] && r.phantoms == 0
    ensures Arrivals(Burst(bytes)) == bytes
  {
    if bytes == [] {
      StartIsConsistent(size);
    } else {
      var front, b := bytes[..|bytes| - 1], bytes[|bytes| - 1];
      assert Burst(bytes) == Burst(front) + [Rx(b)] && front + [b] == bytes;
      hide Run, Arrivals, Burst, Machine.Inv;
      BurstIsStored(size, front);
      RunSnoc(Start(size), Burst(front), Rx(b));
      ArrivalsSnoc(Burst(front), Rx(b));
      var m := Run(Start(size), Burst(front));
      IsrKeepsInv(m, b);
      RoomIsLeft(m);
    }
  }

  lemma RoomIsLeft(m: Machine)
    requires m.Inv() && m.pc == Poll && |m.accepted| < |m.ring.base| && m.delivered == []
    ensures !m.ring.full
  {
  }

  lemma BurstNeverOverruns(size: nat, bytes: seq<byte>)
    requires 2 <= size
    ensures !Overruns(Start(size), Burst(bytes))
  {
  }

  lemma OnePlaceIsLeft(m: Machine)
    requires m.Inv() && m.pc == Poll && |m.accepted| == |m.ring.base| - 1 && m.delivered == []
    ensures !m.ring.full && m.ring.Live() == |m.ring.base| - 1
  {
  }

  /** One more micro-step, of a run that does not stand before the clearing of the flag. */
  lemma OneMain(m: Machine, front: seq<Event>) returns (events: seq<Event>)
    requires m.ring.InRange() && !Overruns(m, front) && !Run(m, front).pc.Advanced?
    ensures !Overruns(m, events) && Run(m, events) == Run(m, front).MainStep() && Arrivals(events) == Arrivals(front)
  {
    hide Run, Overruns, Arrivals;
    events := front + [Main];
    OverrunsSnoc(m, front, Main);
    RunSnoc(m, front, Main);
    ArrivalsSnoc(front, Main);
    assert Arrivals(front) + [] == Arrivals(front);
  }

  lemma OneRx(m: Machine, front: seq<Event>, b: byte) returns (events: seq<Event>)
    requires m.ring.InRange() && !Overruns(m, front)
    ensures !Overruns(m, events) && Run(m, events) == Run(m, front).Isr(b)
    ensures |Arrivals(events)| == |Arrivals(front)| + 1
  {
    hide Run, Overruns, Arrivals;
    events := front + [Rx(b)];
    OverrunsSnoc(m, front, Rx(b));
    RunSnoc(m, front, Rx(b));
    ArrivalsSnoc(front, Rx(b));
  }

  /** Three micro-steps bring the main program between the two reads of the second test. */
  lemma TwoTests(m: Machine)
    requires m.Inv() && m.pc == Poll && !m.ring.full && m.ring.Live() > 0
    ensures m.MainStep() == m.(pc := PollIndices) && m.MainStep().MainStep() == m.(pc := Test)
    ensures m.MainStep().MainStep().MainStep() == m.(pc := TestIndices)
    ensures m.(pc := TestIndices).Inv()
  {
    hide Ring.Contents;
  }

  /** The test passes, the item is loaded, and `first` moves on. */
  lemma PopAdvances(m: Machine)
    requires m.Inv() && m.pc == TestIndices && !m.ring.full
    ensures m.MainStep() == m.(pc := NotEmpty)
    ensures m.MainStep().MainStep() == m.(pc := Loaded(m.ring.base[m.ring.first]))
    ensures var r := m.MainStep().MainStep().MainStep();
      && r.Inv() && r.pc.Advanced? && !r.ring.full && r.window == 0
      && |r.ring.base| == |m.ring.base| && r.ring.Live() == m.ring.Live() - 1
  {
    m.ring.AdvanceDrops();
    hide Ring.Contents;
    TestKeepsInv(m);
    TestKeepsInv(m.MainStep());
    AdvanceKeepsInv(m.MainStep().MainStep());
  }

  lemma RunToTest(size: nat) returns (events: seq<Event>)
    requires 2 <= size
    ensures !Overruns(Start(size), events) && |Arrivals(events)| == size - 1
    ensures var r := Run(Start(size), events);
      && r.Inv() && r.pc == TestIndices && !r.ring.full && r.ring.Live() == size - 1 && |r.ring.base| == size
      && r.delivered == [] && r.phantoms == 0
  {
    var m := Start(size);
    var bytes := seq(size - 1, _ => 0);
    events := Burst(bytes);
    BurstIsStored(size, bytes);
    BurstNeverOverruns(size, bytes);
    OnePlaceIsLeft(Run(m, events));
    TwoTests(Run(m, events));
    assert m.ring.InRange();
    hide Start, Ring.InRange, Run, Overruns, Arrivals, Ring.Contents, Ring.Live, Machine.MainStep, Machine.Inv, Burst;
    events := OneMain(m, events);
    events := OneMain(m, events);
    events := OneMain(m, events);
  }

  /** So the bound of one byte a window is tight, for a buffer of any size. */
  lemma TwoBytesAWindowCanOverrun(size: nat) returns (events: seq<Event>)
    requires 2 <= size
    ensures Run(Start(size), events).window == 2 && !Run(Start(size), events).Conserves()
  {
    var m := Start(size);
    events := RunToTest(size);
    PopAdvances(Run(m, events));
    assert m.ring.InRange();
    hide Start, Run, Overruns, Arrivals, Ring.InRange, Ring.Contents, Ring.Live, Machine.Inv;
    hide Machine.MainStep, Machine.Isr, Machine.Conserves;
    events := OneMain(m, events);
    events := OneMain(m, events);
    events := OneMain(m, events);
    TwoBytesAWindowLose(Run(m, events), 0, 0);
    events := OneRx(m, events, 0);
    events := OneRx(m, events, 0);
    RunSnoc(m, events, Main);
    events := events + [Main];
  }

  // ----- Bytes that are counted but never popped

  /** Some micro-step of the run takes a buffer for empty that is not. */
  ghost predicate Mistakes(m: Machine, events: seq<Event>)
    requires m.ring.InRange()
  {
    exists k :: 0 <= k < |events| && events[k] == Main && Run(m, events[..k]).Mistaken()
  }

  lemma StepCounts(m: Machine, e: Event)
    requires m.ring.InRange()
    ensures m.Step(e).phantoms == m.phantoms + if e == Main && m.Mistaken() then 1 else 0
  {
  }

  lemma MistakesSnoc(m: Machine, front: seq<Event>, e: Event)
    requires m.ring.InRange()
    ensures Mistakes(m, front + [e]) <==> Mistakes(m, front) || (e == Main && Run(m, front).Mistaken())
  {
    hide Run, Machine.Mistaken;
    var events, n := front + [e], |front|;
    assert events[..n] == front && events[n] == e;
    forall k | 0 <= k < n ensures front[..k] == events[..k] && front[k] == events[k] {
    }
  }

  /** `serial_rx` counts more bytes than it was given exactly if there is such a micro-step. */
  lemma {:induction false} CountsExactly(m: Machine, events: seq<Event>)
    requires m.ring.InRange() && m.phantoms == 0
    ensures Run(m, events).Counted() == |Run(m, events).delivered| <==> !Mistakes(m, events)
  {
    hide Machine.Step, Machine.Mistaken, Mistakes;
    if events == [] {
      NoMistakeYet(m);
    } else {
      var front, e := events[..|events| - 1], events[|events| - 1];
      assert front + [e] == events;
      CountsExactly(m, front);
      MistakesSnoc(m, front, e);
      StepCounts(Run(m, front), e);
    }
  }

  lemma NoMistakeYet(m: Machine)
    requires m.ring.InRange()
    ensures !Mistakes(m, [])
  {
  }

  /** A byte takes the last free place between the two reads of the second test. */
  predicate TakesLastPlace(m: Machine, events: seq<Event>, j: nat)
    requires m.ring.InRange() && j < |events|
  {
    var r := Run(m, events[..j]);
    events[j].Rx? && r.pc.TestIndices? && r.ring.Live() == |r.ring.base| - 1
  }

  lemma FullSinceLastPlace(m: Machine, b: byte)
    requires m.Inv() && m.pc.TestIndices? && m.Isr(b).Mistaken()
    ensures m.Mistaken() || m.ring.Live() == |m.ring.base| - 1
  {
    if !m.ring.full {
      m.ring.PushAppends(b);
    }
  }

  lemma MistakenComesFrom(m: Machine, e: Event)
    requires m.Inv() && m.Step(e).Mistaken()
    ensures e.Rx? && m.pc.TestIndices? && (m.Mistaken() || m.ring.Live() == |m.ring.base| - 1)
  {
    hide Ring.Contents;
    match e
    case Main =>
    case Rx(b) => FullSinceLastPlace(m, b);
  }

  lemma OverrunsLater(m: Machine, events: seq<Event>, k: nat)
    requires m.ring.InRange() && !Overruns(m, events) && k <= |events|
    ensures !Overruns(m, events[..k])
  {
    hide Run, Machine.Refilled;
    forall i | 0 <= i < k ensures events[..k][..i] == events[..i] {
    }
  }

  lemma NotMistakenAtFirst(m: Machine, events: seq<Event>)
    requires m.ring.InRange() && m.pc == Poll
    ensures !Run(m, events[..0]).Mistaken()
  {
  }

  lemma LastPlaceOrEarlier(m: Machine, events: seq<Event>, k: nat)
    requires m.ring.InRange() && m.Inv() && !Overruns(m, events) && 0 < k <= |events| && Run(m, events[..k]).Mistaken()
    ensures TakesLastPlace(m, events, k - 1) || Run(m, events[..k - 1]).Mistaken()
  {
    hide Run, Overruns, Machine.Inv, Machine.Mistaken;
    var front, e := events[..k - 1], events[k - 1];
    assert events[..k] == front + [e];
    RunSnoc(m, front, e);
    OverrunsLater(m, events, k - 1);
    RunKeepsInv(m, front);
    MistakenComesFrom(Run(m, front), e);
  }

  lemma {:induction false} LastPlaceWasTaken(m: Machine, events: seq<Event>, k: nat) returns (j: nat)
    requires m.ring.InRange() && m.Inv() && m.pc == Poll && !Overruns(m, events)
    requires k <= |events| && Run(m, events[..k]).Mistaken()
    ensures j < k && TakesLastPlace(m, events, j)
  {
    hide Run, Overruns, Machine.Inv, Machine.Mistaken, TakesLastPlace;
    NotMistakenAtFirst(m, events);
    LastPlaceOrEarlier(m, events, k);
    if TakesLastPlace(m, events, k - 1) {
      j := k - 1;
    } else {
      j := LastPlaceWasTaken(m, events, k - 1);
    }
  }

  lemma LastPlaceIsTaken(r: Ring, b: byte)
    requires r.Valid() && !r.full && r.Live() == |r.base| - 1
    ensures r.Push(b).full && r.Push(b).first == r.Push(b).last
  {
    r.PushAppends(b);
  }

  lemma LastPlaceStaysTaken(m: Machine, b: byte)
    requires m.Inv() && m.pc.TestIndices?
    ensures m.ring.Live() == |m.ring.base| - 1 || m.Mistaken() ==> m.Isr(b).Mistaken()
  {
    hide Ring.Contents;
    if m.ring.Live() == |m.ring.base| - 1 {
      LastPlaceIsTaken(m.ring, b);
    }
  }

  lemma StillTaken(m: Machine, events: seq<Event>, i: nat)
    requires m.Inv() && !Overruns(m, events) && i < |events|
    requires TakesLastPlace(m, events, i) || (events[i].Rx? && Run(m, events[..i]).Mistaken())
    ensures Run(m, events[..i + 1]).Mistaken()
  {
    assert events[..i + 1] == events[..i] + [events[i]];
    RunSnoc(m, events[..i], events[i]);
    OverrunsLater(m, events, i);
    RunKeepsInv(m, events[..i]);
    hide Run, Overruns, Machine.Inv;
    LastPlaceStaysTaken(Run(m, events[..i]), events[i].b);
  }

  lemma MistakeAt(m: Machine, events: seq<Event>, k: nat)
    requires m.ring.InRange() && k < |events| && events[k] == Main && Run(m, events[..k]).Mistaken()
    ensures Mistakes(m, events)
  {
    hide Run, Machine.Mistaken, Ring.InRange;
  }

  lemma {:induction false} NextMainIsMistaken(m: Machine, events: seq<Event>, i: nat, k: nat)
    requires m.ring.InRange() && m.Inv() && !Overruns(m, events)
    requires i <= k < |events| && Run(m, events[..i]).Mistaken() && events[k] == Main
    ensures Mistakes(m, events)
    decreases k - i
  {
    hide Run, Overruns, Machine.Inv, Machine.Mistaken, Mistakes;
    if events[i] == Main {
      MistakeAt(m, events, i);
    } else {
      StillTaken(m, events, i);
      NextMainIsMistaken(m, events, i + 1, k);
    }
  }

  /**
   In a run without overrun, `serial_rx` counts a byte that was never popped exactly if a byte takes the
   last free place between the two reads of the second test, and the main program goes on.
   */
  lemma PhantomsExactly(size: nat, events: seq<Event>)
    requires 2 <= size && !Overruns(Start(size), events)
    ensures var r := Run(Start(size), events);
      r.Counted() > |r.delivered| <==>
        exists j, k :: 0 <= j < k < |events| && TakesLastPlace(Start(size), events, j) && events[k] == Main
  {
    hide Run, Overruns, Machine.Mistaken, TakesLastPlace;
    var m := Start(size);
    StartIsConsistent(size);
    CountsExactly(m, events);
    if Mistakes(m, events) {
      var k :| 0 <= k < |events| && events[k] == Main && Run(m, events[..k]).Mistaken();
      var j := LastPlaceWasTaken(m, events, k);
    }
    if j, k :| 0 <= j < k < |events| && TakesLastPlace(m, events, j) && events[k] == Main {
      StillTaken(m, events, j);
      NextMainIsMistaken(m, events, j + 1, k);
    }
  }

  lemma {:induction false} StoredHasArrived(m: Machine, events: seq<Event>)
    requires m.ring.InRange()
    ensures |Run(m, events).accepted| <= |m.accepted| + |Arrivals(events)|
  {
    if events != [] {
      hide Ring.InRange;
      StoredHasArrived(m, events[..|events| - 1]);
    }
  }

  lemma {:induction false} ArrivalsGrow(events: seq<Event>, k: nat)
    requires k <= |events|
    ensures |Arrivals(events[..k])| <= |Arrivals(events)|
  {
    if k == |events| {
      assert events[..k] == events;
    } else {
      ArrivalsGrow(events[..|events| - 1], k);
      assert events[..|events| - 1][..k] == events[..k];
    }
  }

  lemma FullHoldsAll(m: Machine)
    requires m.Inv() && m.Mistaken()
    ensures |m.accepted| >= |m.ring.base|
  {
    hide Ring.Contents;
  }

  /** The buffer cannot have been filled while fewer bytes have come than it is long. */
  lemma FewBytesAreCounted(size: nat, events: seq<Event>)
    requires 2 <= size && !Overruns(Start(size), events) && |Arrivals(events)| < size
    ensures !Mistakes(Start(size), events)
    ensures Run(Start(size), events).Counted() == |Run(Start(size), events).delivered|
  {
    hide Run, Machine.Mistaken, Machine.Inv, Arrivals;
    forall k | 0 <= k < |events| && events[k] == Main ensures !Run(Start(size), events[..k]).Mistaken() {
      FewBytesAt(size, events, k);
    }
    CountsExactly(Start(size), events);
  }

  lemma FewBytesAt(size: nat, events: seq<Event>, k: nat)
    requires 2 <= size && !Overruns(Start(size), events) && |Arrivals(events)| < size && k <= |events|
    ensures !Run(Start(size), events[..k]).Mistaken()
  {
    StartIsConsistent(size);
    forall i | 0 <= i < k ensures events[..k][..i] == events[..i] {
    }
    assert !Overruns(Start(size), events[..k]);
    hide Run, Machine.Mistaken, Machine.Inv, Arrivals, Overruns;
    RunKeepsInv(Start(size), events[..k]);
    StoredHasArrived(Start(size), events[..k]);
    ArrivalsGrow(events, k);
    if Run(Start(size), events[..k]).Mistaken() {
      FullHoldsAll(Run(Start(size), events[..k]));
    }
  }

  lemma PhantomRun(size: nat) returns (events: seq<Event>)
    requires 2 <= size
    ensures !Overruns(Start(size), events) && |Arrivals(events)| == size
    ensures Run(Start(size), events).phantoms == 1 && Run(Start(size), events).delivered == []
  {
    var m := Start(size);
    events := RunToTest(size);
    LastPlaceIsTaken(Run(m, events).ring, 0);
    hide Start, Run, Overruns, Arrivals, Ring.Contents, Ring.Live;
    events := OneRx(m, events, 0);
    events := OneMain(m, events);
  }

  /**
   The bound is tight: with as many bytes as the buffer is long, `serial_rx` can count one before any
   is popped, although each is accepted and kept.
   */
  lemma PhantomByte(size: nat) returns (events: seq<Event>)
    requires 2 <= size
    ensures !Overruns(Start(size), events) && |Arrivals(events)| == size
    ensures var r := Run(Start(size), events);
      r.Counted() == 1 && r.delivered == [] && r.accepted == Arrivals(events) == r.Pending()
  {
    events := PhantomRun(size);
    hide Run, Overruns, Arrivals, Machine.Inv, Machine.Pending;
    NothingIsRefused(size, events);
    StartIsConsistent(size);
    RunKeepsInv(Start(size), events);
    NothingDelivered(Run(Start(size), events));
  }

  lemma NothingDelivered(m: Machine)
    requires m.Inv() && m.delivered == []
    ensures m.accepted == m.Pending()
  {
    hide Ring.Contents;
    assert [] + m.Pending() == m.Pending();
  }

  // ----- A burst that is read out afterwards

  lemma {:induction false} MainsAdd(m: Machine, j: nat, k: nat)
    requires m.ring.InRange()
    ensures Mains(m, j + k) == Mains(Mains(m, j), k)
    decreases j
  {
    if j > 0 {
      MainsAdd(m.MainStep(), j - 1, k);
    }
  }

  lemma {:induction false} ReadOut(m: Machine) returns (n: nat)
    requires m.Inv() && m.pc == Poll
    ensures var r := Mains(m, n);
      && r.Inv() && r.pc == Poll && r.ring.Live() == 0
      && r.delivered == r.accepted == m.accepted && r.phantoms == m.phantoms
    decreases m.ring.Live()
  {
    if m.ring.Live() == 0 {
      n := 0;
      EmptyIsDelivered(m);
    } else {
      hide Mains, Ring.Contents, Machine.MainStep;
      OldestIsPopped(m);
      var k := if m.ring.full then 5 else 7;
      n := ReadOut(Mains(m, k));
      MainsAdd(m, k, n);
      n := k + n;
    }
  }

  lemma {:induction false} NoByteInTheWindow(m: Machine, n: nat)
    requires m.ring.InRange() && (m.pc.Advanced? ==> m.window == 0)
    ensures Mains(m, n).pc.Advanced? ==> Mains(m, n).window == 0
    decreases n
  {
    if n > 0 {
      NoByteInTheWindow(m.MainStep(), n - 1);
    }
  }

  lemma OneAtMost(size: nat, bytes: seq<byte>, n: nat, k: nat)
    requires 2 <= size && |bytes| <= size && k <= |bytes| + n
    ensures var r := Run(Start(size), (Burst(bytes) + seq(n, _ => Main))[..k]);
      r.pc.Advanced? ==> r.window <= 1
  {
    var m, burst := Start(size), Burst(bytes);
    hide Run, Burst, Machine.Inv, Mains, Start;
    if k <= |bytes| {
      BurstPrefix(bytes, k);
      assert (burst + seq(n, _ => Main))[..k] == burst[..k];
      BurstIsStored(size, bytes[..k]);
    } else {
      var j := k - |bytes|;
      assert (burst + seq(n, _ => Main))[..k] == burst + seq(j, _ => Main);
      BurstIsStored(size, bytes);
      RunMains(m, burst, j);
      NoByteInTheWindow(Run(m, burst), j);
    }
  }

  /** Bytes that come while the main program does something else, as many as the buffer holds, are then read whole. */
  lemma BurstIsReadOut(size: nat, bytes: seq<byte>) returns (events: seq<Event>)
    requires 2 <= size && |bytes| <= size
    ensures OneByteAWindow(Start(size), events) && Arrivals(events) == bytes
    ensures var r := Run(Start(size), events);
      r.pc == Poll && r.ring.Live() == 0 && r.delivered == bytes && r.phantoms == 0
  {
    var m, burst := Start(size), Burst(bytes);
    BurstIsStored(size, bytes);
    var stored := Run(m, burst);
    var n := ReadOut(stored);
    events := burst + seq(n, _ => Main);
    RunMains(m, burst, n);
    ArrivalsOfMains(burst, n);
    hide Run, Arrivals, Burst, Machine.Inv, Mains;
    forall k | 0 <= k <= |events| ensures Run(m, events[..k]).pc.Advanced? ==> Run(m, events[..k]).window <= 1 {
      OneAtMost(size, bytes, n, k);
    }
  }

  lemma BurstPrefix(bytes: seq<byte>, k: nat)
    requires k <= |bytes|
    ensures Burst(bytes)[..k] == Burst(bytes[..k])
  {
  }

  lemma {:induction false} ArrivalsOfMains(events: seq<Event>, n: nat)
    ensures Arrivals(events + seq(n, _ => Main)) == Arrivals(events)
  {
    hide Arrivals;
    if n == 0 {
      assert events + seq(0, _ => Main) == events;
    } else {
      assert events + seq(n, _ => Main) == events + seq(n - 1, _ => Main) + [Main];
      ArrivalsOfMains(events, n - 1);
      ArrivalsSnoc(events + seq(n - 1, _ => Main), Main);
      assert Arrivals(events) + [] == Arrivals(events);
    }
  }
}
