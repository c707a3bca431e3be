/** The whole stack: the client's calls, the serial protocol, the master's operations, and the slaves on the bus. */
module System {
  import opened Bytes
  import opened Crc8
  import opened Motors
  import opened Packets
  import opened MasterSide
  import opened Fleets
  import opened FleetRuns
  import Link

  // ----- The operations behind the packets

  /** Byte `k` behind the header. Where a packet ends before it, the master reads what is there by chance. */
  function BodyByte(p: seq<byte>, k: nat): byte {
    if HEADER_SIZE + k < |p| then p[HEADER_SIZE + k] else 0
  }

  /** The order that a packet carries, if its type has an operation on the slaves. */
  function OrderOf(p: seq<byte>): Option<Order> {
    if |p| < HEADER_SIZE then None
    else if Type(p) == COM_TYPE_PING then Some(Order.Ping(Selector(p)))
    else if Type(p) == COM_TYPE_GET_SPEED then Some(Order.GetSpeed(Selector(p)))
    else if Type(p) == COM_TYPE_SET_SPEED then
      Some(Order.SetSpeed(Selector(p), Decode(BodyByte(p, 0), BodyByte(p, 1))))
    else if Type(p) == COM_TYPE_APPLY then Some(Order.Apply)
    else if Type(p) == COM_TYPE_SET_SLAVE_ADDR then Some(Order.ChangeAddress(Selector(p), BodyByte(p, 0)))
    else None
  }

  /** The operations of the table that go to the slaves. */
  function Execute(f: Fleet, p: seq<byte>): (Fleet, Option<Reply>) {
    match OrderOf(p)
    case None => (f, None)
    case Some(order) => Perform(f, order)
  }

  lemma PerformAnswers(f: Fleet, order: Order)
    ensures var reply := Perform(f, order).1;
      && (reply.Some? <==> order.Ping? || order.GetSpeed?)
      && (reply.Some? ==> |reply.value.body| <= 2)
  {
    hide SendCommand, RecvResponse;
  }

  lemma ExecuteAnswers(f: Fleet, p: seq<byte>)
    ensures Link.AnswersOne(Execute, f, p)
  {
    hide Checksum, Perform, Sane;
    if OrderOf(p).Some? {
      PerformAnswers(f, OrderOf(p).value);
    }
    assert Sane(p) ==> |p| >= HEADER_SIZE by { SaneHasHeader(p); }
  }

  /** PING and GET_SPEED send one reply that fits the transmit buffer; the setters send none. */
  lemma OperationsAnswer()
    ensures Link.Answers(Execute)
  {
    forall f: Fleet, p: seq<byte> ensures Link.AnswersOne(Execute, f, p) {
      ExecuteAnswers(f, p);
    }
  }

  // ----- From the client's commands to the slaves

  /** The packet has every byte that its operation reads. */
  predicate Complete(p: seq<byte>) {
    && Sane(p)
    && (Type(p) == COM_TYPE_SET_SPEED ==> |Body(p)| >= 2)
    && (Type(p) == COM_TYPE_SET_SLAVE_ADDR ==> |Body(p)| >= 1)
  }

  function HappeningOf(p: seq<byte>): seq<Happening> {
    if Sane(p) && Type(p) != COM_TYPE_ECHO && OrderOf(p).Some? then [Ordered(OrderOf(p).value)] else []
  }

  function HappeningsOf(commands: seq<seq<byte>>): seq<Happening> {
    if commands == [] then []
    else HappeningsOf(commands[..|commands| - 1]) + HappeningOf(commands[|commands| - 1])
  }

  /** The DAT body that a command calls for, with the stations as they are when it is run. */
  function ReplyTo(stations: seq<Station>, p: seq<byte>, stack: seq<byte>): seq<Reply> {
    if !Sane(p) then []
    else if Type(p) == COM_TYPE_ECHO then Link.Fits(Some(Reply(0, Body(p))))
    else if OrderOf(p).Some? then Link.Fits(Answer(stations, OrderOf(p).value, stack))
    else []
  }

  function RepliesTo(stations: seq<Station>, commands: seq<seq<byte>>, stack: seq<byte>): seq<Reply> {
    if commands == [] then []
    else
      var front := commands[..|commands| - 1];
      RepliesTo(stations, front, stack)
      + ReplyTo(StationsAfter(stations, HappeningsOf(front)), commands[|commands| - 1], stack)
  }

  lemma OneMoreHappens(f: Fleet, hs: seq<Happening>, h: Happening)
    ensures Run(f, hs + [h]).0 == Happen(Run(f, hs).0, h).0
  {
    assert (hs + [h])[..|hs + [h]| - 1] == hs;
    hide Happen;
  }

  lemma CommandHappens(f: Fleet, before: seq<Happening>, p: seq<byte>)
    requires Quiet(f) && Distinct(Stations(f)) && AllPermitted(Stations(f), before + HappeningOf(p)) && Sane(p)
    ensures var e := Run(f, before).0;
      && Link.Result(Execute, e, p).0 == Run(f, before + HappeningOf(p)).0
      && Link.Fits(Link.Result(Execute, e, p).1) == ReplyTo(StationsAfter(Stations(f), before), p, f.stack)
  {
    hide Checksum, Perform, Quiet, Distinct, Sane, Run, AllPermitted, StationsAfter;
    var e, hs := Run(f, before).0, before + HappeningOf(p);
    assert hs[..|before|] == before;
    PermittedBefore(Stations(f), hs, |before|);
    RunRefines(f, before);
    if HappeningOf(p) == [] {
      assert hs == before;
    } else {
      OneMoreHappens(f, before, hs[|before|]);
      HappenRefines(e, hs[|before|]);
    }
  }

  /** Running commands one after the other is what the orders in them mean. */
  lemma {:induction false} ReplayRefines(f: Fleet, commands: seq<seq<byte>>)
    requires Quiet(f) && Distinct(Stations(f)) && AllPermitted(Stations(f), HappeningsOf(commands))
    ensures var (e, replies) := Link.Replay(Execute, f, commands);
      && e == Run(f, HappeningsOf(commands)).0
      && replies == RepliesTo(Stations(f), commands, f.stack)
  {
    if commands != [] {
      hide Execute, Quiet, Distinct, AllPermitted, Sane, StationsAfter, HappeningOf, ReplyTo, Link.Result, Link.Fits;
      hide Run;
      var front, p := commands[..|commands| - 1], commands[|commands| - 1];
      var before, hs := HappeningsOf(front), HappeningsOf(commands);
      assert hs[..|before|] == before;
      PermittedBefore(Stations(f), hs, |before|);
      ReplayRefines(f, front);
      if Sane(p) {
        CommandHappens(f, before, p);
      } else {
        NothingHappens(Stations(f), f, before, p);
      }
    }
  }

  lemma NothingHappens(stations: seq<Station>, f: Fleet, before: seq<Happening>, p: seq<byte>)
    requires !Sane(p)
    ensures before + HappeningOf(p) == before
    ensures ReplyTo(StationsAfter(stations, before), p, f.stack) == []
  {
  }

  /**
   At every quiet point of every run of the link, whatever the interleaving of the client, the line
   and the master, the slaves are what the accepted commands mean, one after the other, and the
   client has received exactly the replies they call for.
   */
  lemma CommandsReachTheSlaves(s0: Link.Link<Fleet>, actions: seq<Link.Action>)
    requires Link.Initial(s0) && Quiet(s0.start) && Distinct(Stations(s0.start))
    requires var s := Link.Run(Execute, s0, actions);
      && Link.Quiet(s) && s.connected
      && (forall k | 0 <= k < |s.issued| :: Complete(s.issued[k]))
      && AllPermitted(Stations(s0.start), HappeningsOf(s.issued))
    ensures var s := Link.Run(Execute, s0, actions);
      && Quiet(s.master.env) && Distinct(Stations(s.master.env))
      && Stations(s.master.env) == StationsAfter(Stations(s0.start), HappeningsOf(s.issued))
      && s.received == RepliesTo(Stations(s0.start), s.issued, s0.start.stack)
  {
    var s := Link.Run(Execute, s0, actions);
    OperationsAnswer();
    Link.EndsAgree(Execute, s0, actions);
    ReplayRefines(s0.start, s.issued);
    RunRefines(s0.start, HappeningsOf(s.issued));
  }
}
