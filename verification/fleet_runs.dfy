/** Whole runs of orders: the fleet refines a list of pending and active speeds under changing addresses. */
module FleetRuns {
  import opened Bytes
  import opened Motors
  import opened MasterSide
  import opened Fleets

  /** The master performs an order, or a slave samples the speed of its motor. */
  datatype Happening = Ordered(order: Order) | Sampled(slave: nat, speed: Rpm)

  function Sample(f: Fleet, i: nat, speed: Rpm): Fleet {
    if i < |f.slaves| then
      RawFleet(f.master, f.slaves[i := f.slaves[i].(motor := f.slaves[i].motor.(actual := speed))], f.stack)
    else f
  }

  function Happen(f: Fleet, h: Happening): (Fleet, Option<Reply>) {
    match h
    case Ordered(order) => Perform(f, order)
    case Sampled(i, speed) => (Sample(f, i, speed), None)
  }

  /** The fleet after a run, and the replies of the orders in it. */
  function Run(f: Fleet, hs: seq<Happening>): (Fleet, seq<Option<Reply>>) {
    if hs == [] then (f, [])
    else
      var (before, replies) := Run(f, hs[..|hs| - 1]);
      var (after, reply) := Happen(before, hs[|hs| - 1]);
      (after, replies + [reply])
  }

  // ----- The same on stations

  function StationsThen(stations: seq<Station>, h: Happening): seq<Station> {
    match h
    case Ordered(order) => AllChanged(stations, order)
    case Sampled(i, speed) =>
      if i < |stations| then stations[i := stations[i].(motor := stations[i].motor.(actual := speed))] else stations
  }

  function StationsAfter(stations: seq<Station>, hs: seq<Happening>): (r: seq<Station>)
    ensures |r| == |stations|
  {
    if hs == [] then stations
    else StationsThen(StationsAfter(stations, hs[..|hs| - 1]), hs[|hs| - 1])
  }

  predicate Permits(stations: seq<Station>, h: Happening) {
    h.Ordered? ==> Allowed(stations, h.order)
  }

  /** Every order of the run is allowed when its turn comes. */
  predicate AllPermitted(stations: seq<Station>, hs: seq<Happening>) {
    forall k | 0 <= k < |hs| :: Permits(StationsAfter(stations, hs[..k]), hs[k])
  }

  function AnswerTo(stations: seq<Station>, h: Happening, stack: seq<byte>): Option<Reply> {
    if h.Ordered? then Answer(stations, h.order, stack) else None
  }

  function AnswersTo(stations: seq<Station>, hs: seq<Happening>, stack: seq<byte>): (r: seq<Option<Reply>>)
    ensures |r| == |hs|
  {
    if hs == [] then []
    else
      var front := hs[..|hs| - 1];
      AnswersTo(stations, front, stack) + [AnswerTo(StationsAfter(stations, front), hs[|hs| - 1], stack)]
  }

  lemma HappenRefines(f: Fleet, h: Happening)
    requires Quiet(f) && Distinct(Stations(f)) && Permits(Stations(f), h)
    ensures var (r, reply) := Happen(f, h);
      && Quiet(r) && r.stack == f.stack && Distinct(Stations(r))
      && Stations(r) == StationsThen(Stations(f), h) && reply == AnswerTo(Stations(f), h, f.stack)
  {
    match h
    case Ordered(order) =>
      hide Perform, Quiet;
      PerformRefines(f, order);
    case Sampled(i, speed) =>
      SampleRefines(f, i, speed);
  }

  lemma SampleRefines(f: Fleet, i: nat, speed: Rpm)
    requires Quiet(f) && Distinct(Stations(f))
    ensures var r := Sample(f, i, speed);
      Quiet(r) && Stations(r) == StationsThen(Stations(f), Sampled(i, speed)) && Distinct(Stations(r))
  {
    var r := Sample(f, i, speed);
    assert Nodes(r.slaves) == Nodes(f.slaves);
  }

  /**
   Over any run of permitted orders and of samples, the slaves' state is what the orders mean, every
   reply is the one they call for, the addresses stay distinct and valid, and the fleet is ready again.
   */
  lemma {:induction false} RunRefines(f: Fleet, hs: seq<Happening>)
    requires Quiet(f) && Distinct(Stations(f)) && AllPermitted(Stations(f), hs)
    ensures var (r, replies) := Run(f, hs);
      && Quiet(r) && r.stack == f.stack
      && Stations(r) == StationsAfter(Stations(f), hs) && Distinct(Stations(r))
      && replies == AnswersTo(Stations(f), hs, f.stack)
  {
    if hs != [] {
      hide Happen, Quiet, Distinct, Permits, AllPermitted, AnswerTo, StationsThen;
      var front := hs[..|hs| - 1];
      PermittedBefore(Stations(f), hs, |hs| - 1);
      RunRefines(f, front);
      HappenRefines(Run(f, front).0, hs[|hs| - 1]);
    }
  }

  lemma PermittedBefore(stations: seq<Station>, hs: seq<Happening>, n: nat)
    requires AllPermitted(stations, hs) && n <= |hs|
    ensures AllPermitted(stations, hs[..n])
    ensures n < |hs| ==> Permits(StationsAfter(stations, hs[..n]), hs[n])
  {
    hide StationsAfter, Permits;
    forall k | 0 <= k < n ensures Permits(StationsAfter(stations, hs[..n][..k]), hs[..n][k]) {
      assert hs[..n][..k] == hs[..k];
    }
  }

  // ----- What the stations look like

  /** Happening `k` of the run sets the speed of station `i`, under the address it then has. */
  predicate SetsStation(stations: seq<Station>, hs: seq<Happening>, k: nat, i: nat)
    requires i < |stations| && k < |hs|
  {
    && hs[k].Ordered? && hs[k].order.SetSpeed?
    && Calls(hs[k].order.sel, StationsAfter(stations, hs[..k])[i].addr)
  }

  predicate Applies(h: Happening) {
    h == Ordered(Order.Apply)
  }

  /** The pending speed is the limited value of the last set that reached the station. */
  lemma {:induction false} PendingIsTheLastSet(stations: seq<Station>, hs: seq<Happening>, i: nat, j: nat)
    requires i < |stations| && j < |hs| && SetsStation(stations, hs, j, i)
    requires forall k | j < k < |hs| :: !SetsStation(stations, hs, k, i)
    ensures StationsAfter(stations, hs)[i].motor.next == Limited(hs[j].order.speed)
  {
    var n := |hs| - 1;
    var front := hs[..n];
    if j < n {
      forall k | 0 <= k < n ensures SetsStation(stations, front, k, i) == SetsStation(stations, hs, k, i) {
        assert front[..k] == hs[..k];
      }
      PendingIsTheLastSet(stations, front, i, j);
      assert !SetsStation(stations, hs, n, i);
    }
  }

  lemma {:induction false} PendingStays(stations: seq<Station>, hs: seq<Happening>, i: nat)
    requires i < |stations| && forall k | 0 <= k < |hs| :: !SetsStation(stations, hs, k, i)
    ensures StationsAfter(stations, hs)[i].motor.next == stations[i].motor.next
  {
    if hs != [] {
      var n := |hs| - 1;
      var front := hs[..n];
      forall k | 0 <= k < n ensures !SetsStation(stations, front, k, i) {
        assert !SetsStation(stations, hs, k, i) && front[..k] == hs[..k];
      }
      PendingStays(stations, front, i);
      assert !SetsStation(stations, hs, n, i);
    }
  }

  /** The active speed is what was pending at the last apply. */
  lemma {:induction false} ActiveIsWhatWasPending(stations: seq<Station>, hs: seq<Happening>, i: nat, j: nat)
    requires i < |stations| && j < |hs| && Applies(hs[j])
    requires forall k | j < k < |hs| :: !Applies(hs[k])
    ensures StationsAfter(stations, hs)[i].motor.target == StationsAfter(stations, hs[..j])[i].motor.next
  {
    var n := |hs| - 1;
    var front := hs[..n];
    if j < n {
      ActiveIsWhatWasPending(stations, front, i, j);
      assert front[..j] == hs[..j];
      assert !Applies(hs[n]);
    }
  }

  lemma {:induction false} ActiveStays(stations: seq<Station>, hs: seq<Happening>, i: nat)
    requires i < |stations| && forall k | 0 <= k < |hs| :: !Applies(hs[k])
    ensures StationsAfter(stations, hs)[i].motor.target == stations[i].motor.target
  {
    if hs != [] {
      ActiveStays(stations, hs[..|hs| - 1], i);
      assert !Applies(hs[|hs| - 1]);
    }
  }

  /** The last apply of the run, if there is one. */
  function LastApply(hs: seq<Happening>): (r: Option<nat>)
    ensures r == None ==> forall k | 0 <= k < |hs| :: !Applies(hs[k])
    ensures r.Some? ==>
      r.value < |hs| && Applies(hs[r.value]) && forall k | r.value < k < |hs| :: !Applies(hs[k])
  {
    if hs == [] then None
    else if Applies(hs[|hs| - 1]) then Some(|hs| - 1)
    else LastApply(hs[..|hs| - 1])
  }

  /** The last of the first `n` happenings that sets the speed of station `i`, if there is one. */
  function LastSet(stations: seq<Station>, hs: seq<Happening>, n: nat, i: nat): (r: Option<nat>)
    requires i < |stations| && n <= |hs|
    ensures r == None ==> forall k | 0 <= k < n :: !SetsStation(stations, hs, k, i)
    ensures r.Some? ==>
      && r.value < n && SetsStation(stations, hs, r.value, i)
      && forall k | r.value < k < n :: !SetsStation(stations, hs, k, i)
  {
    if n == 0 then None
    else if SetsStation(stations, hs, n - 1, i) then Some(n - 1)
    else LastSet(stations, hs, n - 1, i)
  }

  lemma PendingOfEveryRun(stations: seq<Station>, hs: seq<Happening>, n: nat, i: nat)
    requires i < |stations| && n <= |hs|
    ensures StationsAfter(stations, hs[..n])[i].motor.next ==
      match LastSet(stations, hs, n, i)
      case None => stations[i].motor.next
      case Some(j) => Limited(hs[j].order.speed)
  {
    var front := hs[..n];
    forall k | 0 <= k < n ensures SetsStation(stations, front, k, i) == SetsStation(stations, hs, k, i) {
      assert front[..k] == hs[..k];
    }
    match LastSet(stations, hs, n, i)
    case None => PendingStays(stations, front, i);
    case Some(j) => PendingIsTheLastSet(stations, front, i, j);
  }

  /**
   On the real fleet, for every run: a slave's target is the limited value of the last set addressed to
   it that preceded the last apply; without such a set it is what was pending at the start, and without
   an apply it is what it was. Sets for other addresses do not matter.
   */
  lemma TargetOfEveryRun(f: Fleet, hs: seq<Happening>, i: nat)
    requires Quiet(f) && Distinct(Stations(f)) && AllPermitted(Stations(f), hs) && i < |f.slaves|
    ensures |Run(f, hs).0.slaves| == |f.slaves|
    ensures Run(f, hs).0.slaves[i].motor.target ==
      match LastApply(hs)
      case None => f.slaves[i].motor.target
      case Some(k) =>
        match LastSet(Stations(f), hs, k, i)
        case None => f.slaves[i].motor.next
        case Some(j) => Limited(hs[j].order.speed)
  {
    var st := Stations(f);
    RunRefines(f, hs);
    hide Run, Quiet, Distinct, AllPermitted, Permits, LastSet, StationsAfter, Stations;
    StationsAreSlaves(f, i);
    StationsAreSlaves(Run(f, hs).0, i);
    match LastApply(hs)
    case None => ActiveStays(st, hs, i);
    case Some(k) =>
      ActiveIsWhatWasPending(st, hs, i, k);
      PendingOfEveryRun(st, hs, k, i);
  }

  lemma StationsAreSlaves(f: Fleet, i: nat)
    ensures |Stations(f)| == |f.slaves|
    ensures i < |f.slaves| ==> Stations(f)[i].motor == f.slaves[i].motor
  {
  }

  // ----- Whom an order reaches, after any run

  /** A ping reports success exactly if some slave then holds the address. */
  lemma PingFindsTheHolder(f: Fleet, hs: seq<Happening>, sel: byte)
    requires Quiet(f) && Distinct(Stations(f)) && AllPermitted(Stations(f), hs)
    ensures var r := Run(f, hs).0;
      var held := sel <= 127 && exists i | 0 <= i < |r.slaves| :: r.slaves[i].node.own == sel;
      Perform(r, Order.Ping(sel)).1 == Some(Reply(if held then 0 else 5, []))
  {
    RunRefines(f, hs);
    PingTellsTheHolder(Run(f, hs).0, sel);
  }

  lemma PingTellsTheHolder(r: Fleet, sel: byte)
    requires Quiet(r) && Distinct(Stations(r))
    ensures var held := sel <= 127 && exists i | 0 <= i < |r.slaves| :: r.slaves[i].node.own == sel;
      Perform(r, Order.Ping(sel)).1 == Some(Reply(if held then 0 else 5, []))
  {
    hide Perform, Quiet, Distinct;
    PingRefines(r, sel);
    HolderIsSlave(r, sel);
  }

  /** A command to one address reaches exactly the slave that then holds it. */
  lemma SetReachesExactlyTheHolder(f: Fleet, hs: seq<Happening>, sel: byte, speed: Rpm)
    requires Quiet(f) && Distinct(Stations(f)) && AllPermitted(Stations(f), hs) && sel % 128 != 0
    ensures var r := Run(f, hs).0;
      var t := Perform(r, Order.SetSpeed(sel, speed)).0;
      && |t.slaves| == |r.slaves|
      && (forall i | 0 <= i < |r.slaves| ::
            t.slaves[i].motor == if r.slaves[i].node.own == sel % 128 then r.slaves[i].motor.Set(speed)
                                 else r.slaves[i].motor)
      && (forall i, j | 0 <= i < j < |r.slaves| :: r.slaves[i].node.own != r.slaves[j].node.own)
      && (forall i | 0 <= i < |r.slaves| :: 1 <= r.slaves[i].node.own <= 126)
  {
    RunRefines(f, hs);
    hide Run, Perform, Quiet, AllPermitted;
    var r := Run(f, hs).0;
    SetRefines(r, sel, speed);
    var t := Perform(r, Order.SetSpeed(sel, speed)).0;
    assert forall i | 0 <= i < |r.slaves| ::
      Stations(r)[i].addr == r.slaves[i].node.own && Stations(t)[i].motor == t.slaves[i].motor;
  }
}
