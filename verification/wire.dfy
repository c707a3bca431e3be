/**
 What the bytes of a packet do to the slaves, and what comes back, without the orders in between: for
 one packet, for whole runs of the stack, and for two calls of the client.
 */
module Wire {
  import opened Bytes
  import opened Crc8
  import opened Motors
  import opened Packets
  import opened MasterSide
  import opened Fleets
  import opened FleetRuns
  import opened System
  import opened SlaveProgram
  import Link
  import LinkCalls
  import M = TwiMaster

  // ----- What a packet does, byte for byte

  /**
   A station after a packet. Type 7 sets the pending speed of the stations called, in two's complement, low
   byte first: it is cut at 125, and a negative one becomes 125. Type 8 makes every pending speed active.
   Type 10 moves the stations called to an address in 1..126. Selectors count modulo 128, and 0 calls all.
   */
  function Moved(s: Station, p: seq<byte>): Station {
    if |p| < 5 then s
    else
      var called := p[2] % 128 == 0 || p[2] % 128 == s.addr;
      if p[1] == 7 && called && |p| >= 7 then
        var word := Word(p[4], p[5]);
        s.(motor := s.motor.(next := if word <= 125 then word else 125))
      else if p[1] == 8 then s.(motor := s.motor.(target := s.motor.next))
      else if p[1] == 10 && called && |p| >= 6 && 1 <= p[4] <= 126 then s.(addr := p[4])
      else s
  }

  /**
   The replies to a packet. ECHO (4) returns a body of at most 27 bytes; PING (5) says 0 if some station has
   the address, and 5 if not; GET_SPEED (6) returns the measured speed, low byte first, or what the
   uninitialised variable held if no station has the address.
   */
  ghost predicate Says(stations: seq<Station>, p: seq<byte>, stack: seq<byte>, replies: seq<Reply>) {
    if |p| < 5 then replies == []
    else if p[1] == 4 then replies == if |p| <= 32 then [Reply(0, p[4..|p| - 1])] else []
    else if p[1] == 5 then
      var held := p[2] <= 127 && exists i | 0 <= i < |stations| :: stations[i].addr == p[2];
      replies == [Reply(if held then 0 else 5, [])]
    else if p[1] == 6 then
      && |replies| == 1 && replies[0].selector == p[2] && |replies[0].body| == 2
      && (forall i | 0 <= i < |stations| && stations[i].addr == p[2] % 128 ::
            Word(replies[0].body[0], replies[0].body[1]) == stations[i].motor.actual % 0x1_0000)
      && ((forall i | 0 <= i < |stations| :: stations[i].addr != p[2] % 128) ==> replies[0].body == stack)
    else replies == []
  }

  lemma OrderMoves(s: Station, p: seq<byte>)
    requires Complete(p)
    ensures Moved(s, p) == if HappeningOf(p) == [] then s else Changed(s, OrderOf(p).value)
  {
    hide Checksum;
  }

  lemma ReplySays(stations: seq<Station>, p: seq<byte>, stack: seq<byte>)
    requires Complete(p) && Distinct(stations) && |stack| == 2
    ensures Says(stations, p, stack, ReplyTo(stations, p, stack))
  {
    hide Checksum, Encode;
    if |p| >= 5 && p[1] == 6 {
      var i := Holder(stations, p[2] % 128);
      if i < |stations| {
        LowByteFirst(stations[i].motor.actual, 0, 0);
      }
    }
  }

  /**
   On a fleet that waits for commands, and whatever the type: over the bus a packet does to each slave what
   its bytes say, and the master sends what they ask for.
   */
  lemma PacketMoves(f: Fleet, p: seq<byte>)
    requires Quiet(f) && Distinct(Stations(f)) && Complete(p) && (p[1] == 6 ==> p[2] % 128 != 0)
    ensures var (r, reply) := Link.Result(Execute, f, p);
      && Quiet(r) && r.stack == f.stack && |r.slaves| == |f.slaves|
      && (forall i | 0 <= i < |f.slaves| :: Stations(r)[i] == Moved(Stations(f)[i], p))
      && Says(Stations(f), p, f.stack, Link.Fits(reply))
  {
    SaneHasHeader(p);
    ReplySays(Stations(f), p, f.stack);
    hide Checksum, Perform, Quiet, Distinct, Sane, Says, Moved, Answer, Changed;
    if HappeningOf(p) != [] {
      OrderRefines(f, OrderOf(p).value);
    }
    forall i | 0 <= i < |f.slaves| ensures Stations(Link.Result(Execute, f, p).0)[i] == Moved(Stations(f)[i], p) {
      OrderMoves(Stations(f)[i], p);
    }
  }

  // ----- What a run does, byte for byte

  function Evolved(s: Station, commands: seq<seq<byte>>): Station {
    if commands == [] then s else Moved(Evolved(s, commands[..|commands| - 1]), commands[|commands| - 1])
  }

  lemma {:induction false} EvolvedIsMeant(stations: seq<Station>, commands: seq<seq<byte>>, i: nat)
    requires i < |stations| && forall k | 0 <= k < |commands| :: Complete(commands[k])
    ensures StationsAfter(stations, HappeningsOf(commands))[i] == Evolved(stations[i], commands)
  {
    if commands != [] {
      var front, p := commands[..|commands| - 1], commands[|commands| - 1];
      hide Complete, Moved, HappeningOf, Changed;
      EvolvedIsMeant(stations, front, i);
      OrderMoves(Evolved(stations[i], front), p);
      var hs := HappeningsOf(front);
      OneHappens(stations, hs, p, i);
    }
  }

  lemma OneHappens(stations: seq<Station>, hs: seq<Happening>, p: seq<byte>, i: nat)
    requires i < |stations|
    ensures StationsAfter(stations, hs + HappeningOf(p))[i] ==
      if HappeningOf(p) == [] then StationsAfter(stations, hs)[i]
      else Changed(StationsAfter(stations, hs)[i], OrderOf(p).value)
  {
    hide Sane, Changed, OrderOf;
    if HappeningOf(p) == [] {
      assert hs + HappeningOf(p) == hs;
    } else {
      var h := HappeningOf(p)[0];
      assert hs + HappeningOf(p) == hs + [h] && (hs + [h])[..|hs|] == hs;
    }
  }

  /**
   So at every quiet point of every run of the whole stack each slave is where the bytes of the accepted
   commands, one after the other, have moved it.
   */
  lemma CommandsMoveTheSlaves(s0: Link.Link<Fleet>, actions: seq<Link.Action>, i: nat)
    requires Link.Initial(s0) && Quiet(s0.start) && Distinct(Stations(s0.start)) && i < |s0.start.slaves|
    requires var s := Link.Run(Execute, s0, actions);
      && Link.Quiet(s) && s.connected
      && (forall k | 0 <= k < |s.issued| :: Complete(s.issued[k]))
      && AllPermitted(Stations(s0.start), HappeningsOf(s.issued))
    ensures var s := Link.Run(Execute, s0, actions);
      && |s.master.env.slaves| == |s0.start.slaves|
      && Stations(s.master.env)[i] == Evolved(Stations(s0.start)[i], s.issued)
  {
    hide Link.Initial, Link.Quiet, Quiet, Distinct, AllPermitted, Complete, Evolved, StationsAfter, Link.Run;
    CommandsReachTheSlaves(s0, actions);
    EvolvedIsMeant(Stations(s0.start), Link.Run(Execute, s0, actions).issued, i);
  }

  function AllEvolved(stations: seq<Station>, commands: seq<seq<byte>>): (r: seq<Station>)
    ensures |r| == |stations| && forall i | 0 <= i < |r| :: r[i] == Evolved(stations[i], commands)
  {
    seq(|stations|, i requires 0 <= i < |stations| => Evolved(stations[i], commands))
  }

  /** And what the client received last is what the last command asks for, of the slaves as they then were. */
  lemma LastReplySays(s0: Link.Link<Fleet>, actions: seq<Link.Action>, earlier: seq<seq<byte>>, p: seq<byte>)
    returns (last: seq<Reply>)
    requires Link.Initial(s0) && Quiet(s0.start) && Distinct(Stations(s0.start))
    requires var s := Link.Run(Execute, s0, actions);
      && Link.Quiet(s) && s.connected && s.issued == earlier + [p]
      && (forall k | 0 <= k < |s.issued| :: Complete(s.issued[k]))
      && AllPermitted(Stations(s0.start), HappeningsOf(s.issued))
    ensures Link.Run(Execute, s0, actions).received == RepliesTo(Stations(s0.start), earlier, s0.start.stack) + last
    ensures Says(AllEvolved(Stations(s0.start), earlier), p, s0.start.stack, last)
  {
    var st, stack, issued := Stations(s0.start), s0.start.stack, earlier + [p];
    CommandsReachTheSlaves(s0, actions);
    assert issued[..|issued| - 1] == earlier && issued[|earlier|] == p;
    forall k | 0 <= k < |earlier| ensures Complete(earlier[k]) {
      assert earlier[k] == issued[k];
    }
    hide Link.Initial, Link.Quiet, Quiet, Distinct, AllPermitted, Complete, Link.Run, Says, ReplyTo, StationsAfter;
    hide HappeningOf;
    var later := StationsAfter(st, HappeningsOf(earlier));
    forall i | 0 <= i < |st| ensures later[i] == AllEvolved(st, earlier)[i] {
      EvolvedIsMeant(st, earlier, i);
    }
    assert later == AllEvolved(st, earlier);
    EarlierKeepsDistinct(s0.start, earlier, p);
    last := ReplyTo(later, p, stack);
    ReplySays(later, p, stack);
  }

  lemma EarlierKeepsDistinct(f: Fleet, earlier: seq<seq<byte>>, p: seq<byte>)
    requires Quiet(f) && Distinct(Stations(f)) && AllPermitted(Stations(f), HappeningsOf(earlier + [p]))
    ensures Distinct(StationsAfter(Stations(f), HappeningsOf(earlier)))
  {
    assert (earlier + [p])[..|earlier|] == earlier;
    var hs := HappeningsOf(earlier);
    assert HappeningsOf(earlier + [p])[..|hs|] == hs;
    PermittedBefore(Stations(f), HappeningsOf(earlier + [p]), |hs|);
    RunRefines(f, hs);
  }

  predicate HasType(p: seq<byte>, typ: byte) {
    |p| >= 5 && p[1] == typ
  }

  /** Runs that leave the addresses alone, and ask no more than one slave at a time for its speed, are permitted. */
  lemma {:induction false} MostCommandsArePermitted(stations: seq<Station>, commands: seq<seq<byte>>)
    requires forall k | 0 <= k < |commands| ::
      !HasType(commands[k], 10) && (HasType(commands[k], 6) ==> commands[k][2] % 128 != 0)
    ensures AllPermitted(stations, HappeningsOf(commands))
  {
    if commands != [] {
      var front, p := commands[..|commands| - 1], commands[|commands| - 1];
      MostCommandsArePermitted(stations, front);
      assert !HasType(p, 10) && (HasType(p, 6) ==> p[2] % 128 != 0);
      OneMoreIsPermitted(stations, HappeningsOf(front), p);
    }
  }

  lemma OneMoreIsPermitted(stations: seq<Station>, hs: seq<Happening>, p: seq<byte>)
    requires AllPermitted(stations, hs) && !HasType(p, 10) && (HasType(p, 6) ==> p[2] % 128 != 0)
    ensures AllPermitted(stations, hs + HappeningOf(p))
  {
    hide StationsAfter, Checksum;
    var all := hs + HappeningOf(p);
    forall k | 0 <= k < |all| ensures Permits(StationsAfter(stations, all[..k]), all[k]) {
      if k < |hs| {
        assert all[..k] == hs[..k] && all[k] == hs[k];
      }
    }
  }

  lemma {:induction false} EvolvedAppend(s: Station, a: seq<seq<byte>>, b: seq<seq<byte>>)
    ensures Evolved(s, a + b) == Evolved(Evolved(s, a), b)
  {
    hide Moved;
    if b == [] {
      assert a + b == a;
    } else {
      assert (a + b)[..|a + b| - 1] == a + b[..|b| - 1];
      EvolvedAppend(s, a, b[..|b| - 1]);
    }
  }

  lemma {:induction false} PendingIsKept(s: Station, b: seq<seq<byte>>)
    requires forall k | 0 <= k < |b| :: !HasType(b[k], 7)
    ensures Evolved(s, b).motor.next == s.motor.next
  {
    if b != [] {
      PendingIsKept(s, b[..|b| - 1]);
      assert !HasType(b[|b| - 1], 7);
    }
  }

  lemma {:induction false} TargetIsKept(s: Station, c: seq<seq<byte>>)
    requires forall k | 0 <= k < |c| :: !HasType(c[k], 8)
    ensures Evolved(s, c).motor.target == s.motor.target
  {
    if c != [] {
      TargetIsKept(s, c[..|c| - 1]);
      assert !HasType(c[|c| - 1], 8);
    }
  }

  lemma OneMoves(s: Station, p: seq<byte>)
    ensures Evolved(s, [p]) == Moved(s, p)
  {
    hide Moved;
    assert [p][..0] == [] && Evolved(s, []) == s;
  }

  /**
   A SET_SPEED that calls the station, and an APPLY with no other SET_SPEED before it: whatever came earlier,
   and comes later but for an APPLY, the station's target is the speed in the packet, cut at 125.
   */
  lemma SpeedIsApplied(s: Station, a: seq<seq<byte>>, p: seq<byte>, b: seq<seq<byte>>, q: seq<byte>, c: seq<seq<byte>>)
    requires HasType(p, 7) && |p| >= 7 && HasType(q, 8)
    requires p[2] % 128 == 0 || p[2] % 128 == Evolved(s, a).addr
    requires forall k | 0 <= k < |b| :: !HasType(b[k], 7)
    requires forall k | 0 <= k < |c| :: !HasType(c[k], 8)
    ensures Evolved(s, a + [p] + b + [q] + c).motor.target == if Word(p[4], p[5]) <= 125 then Word(p[4], p[5]) else 125
  {
    hide Evolved;
    EvolvedAppend(s, a + [p] + b + [q], c);
    EvolvedAppend(s, a + [p] + b, [q]);
    EvolvedAppend(s, a + [p], b);
    EvolvedAppend(s, a, [p]);
    TargetIsKept(Evolved(s, a + [p] + b + [q]), c);
    OneMoves(Evolved(s, a + [p] + b), q);
    PendingIsKept(Evolved(s, a + [p]), b);
    OneMoves(Evolved(s, a), p);
  }

  /** A setter's call, the iterations of the master that answer and run it included. */
  function SetterCall(a: Link.Action): seq<Link.Action> {
    [a, Link.MasterStep, Link.MasterStep, Link.TakeAnswer, Link.MasterStep]
  }

  lemma FrameBytes(id: byte, typ: byte, sel: byte, body: seq<byte>)
    requires Craftable(typ, body)
    ensures var p := Frame(id, typ, sel, body);
      Sane(p) && |p| == |body| + 5 && p[1] == typ && p[2] == sel && forall k | 0 <= k < |body| :: p[4 + k] == body[k]
  {
    FrameIsSane(id, typ, sel, body);
    hide Checksum;
    assert Body(Frame(id, typ, sel, body)) == body;
  }

  lemma SetterMoves(s: Link.Link<Fleet>, typ: byte, sel: byte, body: seq<byte>)
    requires Link.Inv(Execute, s) && Link.Quiet(s) && s.connected
    requires Quiet(s.master.env) && Distinct(Stations(s.master.env))
    requires (typ == 7 && |body| == 2) || (typ == 8 && |body| == 0)
    ensures var t, p := Link.Run(Execute, s, SetterCall(Link.Command(typ, sel, body))), Frame(s.gid, typ, sel, body);
      && Link.Inv(Execute, t) && Link.Quiet(t) && t.connected
      && Quiet(t.master.env) && |t.master.env.slaves| == |s.master.env.slaves|
      && forall i | 0 <= i < |s.master.env.slaves| ::
          Stations(t.master.env)[i] == Moved(Stations(s.master.env)[i], p)
  {
    OperationsAnswer();
    FrameBytes(s.gid, typ, sel, body);
    hide Frame, Checksum, Link.Inv, Link.Run, Quiet, Distinct, Sane, Moved, Says, Link.Result, Link.Fits, Link.Answers;
    LinkCalls.SetterIsRun(Execute, s, Link.Command(typ, sel, body));
    PacketMoves(s.master.env, Frame(s.gid, typ, sel, body));
  }

  /** A query's call, with the reply and the acknowledgements that follow it. */
  function QueryCall(a: Link.Action): seq<Link.Action> {
    SetterCall(a) + [Link.TakeData, Link.MasterStep, Link.MasterStep, Link.MasterStep]
  }

  lemma QueryMovesNothing(before: seq<Station>, after: seq<Station>, p: seq<byte>)
    requires |p| >= 5 && (p[1] == 5 || p[1] == 6) && |after| == |before|
    requires forall i | 0 <= i < |before| :: after[i] == Moved(before[i], p)
    ensures after == before
  {
  }

  /** A call of PING or GET_SPEED, to its end: the reply is there, and no slave has changed. */
  lemma QueryAnswers(s: Link.Link<Fleet>, typ: byte, sel: byte) returns (replies: seq<Reply>)
    requires Link.Inv(Execute, s) && Link.Quiet(s) && s.connected
    requires Quiet(s.master.env) && Distinct(Stations(s.master.env))
    requires typ == 5 || (typ == 6 && sel % 128 != 0)
    ensures var t := Link.Run(Execute, s, QueryCall(Link.Command(typ, sel, [])));
      && Link.Inv(Execute, t) && Link.Quiet(t) && t.connected
      && Quiet(t.master.env) && Stations(t.master.env) == Stations(s.master.env)
      && t.received == s.received + replies
      && Says(Stations(s.master.env), Frame(s.gid, typ, sel, []), s.master.env.stack, replies)
  {
    var f, p, a := s.master.env, Frame(s.gid, typ, sel, []), Link.Command(typ, sel, []);
    FrameBytes(s.gid, typ, sel, []);
    assert Link.IsCommand(typ) && Link.WantsReply(typ) && typ != COM_TYPE_ECHO && Complete(p);
    assert QueryCall(a) == [a, Link.MasterStep, Link.MasterStep, Link.TakeAnswer, Link.MasterStep]
                           + [Link.TakeData, Link.MasterStep, Link.MasterStep, Link.MasterStep];
    assert Link.Enabled(s, a) by { hide Frame, Checksum, Link.Inv, Quiet, Distinct; }
    hide *;
    OperationsAnswer();
    LinkCalls.QueryIsRun(Execute, s, a);
    PacketMoves(f, p);
    QueryMovesNothing(Stations(f), Stations(Link.Result(Execute, f, p).0), p);
    replies := Link.Fits(Link.Result(Execute, f, p).1);
  }

  lemma AddressesStayDistinct(before: seq<Station>, after: seq<Station>)
    requires Distinct(before) && |after| == |before|
    requires forall i | 0 <= i < |before| :: after[i].addr == before[i].addr
    ensures Distinct(after)
  {
  }

  lemma SetMoves(s: Station, p: seq<byte>, sel: byte, low: byte, high: byte)
    requires |p| == 7 && p[1] == 7 && p[2] == sel && p[4] == low && p[5] == high
    ensures var t, called := Moved(s, p), sel % 128 == 0 || sel % 128 == s.addr;
      && t.addr == s.addr && t.motor.target == s.motor.target && t.motor.actual == s.motor.actual
      && t.motor.next == if called then (if Word(low, high) <= 125 then Word(low, high) else 125) else s.motor.next
  {
  }

  lemma ApplyMoves(s: Station, q: seq<byte>)
    requires |q| == 5 && q[1] == 8
    ensures var t := Moved(s, q);
      t.addr == s.addr && t.motor.target == t.motor.next == s.motor.next && t.motor.actual == s.motor.actual
  {
  }

  predicate Driven(before: Station, after: Station, sel: byte, word: int) {
    var called := sel % 128 == 0 || sel % 128 == before.addr;
    && after.addr == before.addr && after.motor.actual == before.motor.actual
    && after.motor.target == if called then (if word <= 125 then word else 125) else before.motor.next
  }

  /**
   Two calls of the client, to their end: SET_SPEED and then APPLY, from any quiet point of the link. Each
   slave called is then driven at the speed given, cut at 125, and every other one at what was pending.
   */
  lemma TwoCallsDriveTheMotors(s: Link.Link<Fleet>, sel: byte, low: byte, high: byte)
    requires Link.Inv(Execute, s) && Link.Quiet(s) && s.connected
    requires Quiet(s.master.env) && Distinct(Stations(s.master.env))
    ensures var told := Link.Run(Execute, s, SetterCall(Link.Command(7, sel, [low, high])));
      var t := Link.Run(Execute, told, SetterCall(Link.Command(8, 0, [])));
      var before, after := s.master.env, t.master.env;
      && Link.Quiet(t) && Quiet(after) && |after.slaves| == |before.slaves|
      && forall i | 0 <= i < |before.slaves| ::
          Driven(Stations(before)[i], Stations(after)[i], sel, Word(low, high))
  {
    var told := Link.Run(Execute, s, SetterCall(Link.Command(7, sel, [low, high])));
    var p, q := Frame(s.gid, 7, sel, [low, high]), Frame(told.gid, 8, 0, []);
    FrameBytes(s.gid, 7, sel, [low, high]);
    FrameBytes(told.gid, 8, 0, []);
    assert p[4 + 0] == low && p[4 + 1] == high;
    SetterMoves(s, 7, sel, [low, high]);
    hide Frame, Checksum, Link.Inv, Link.Run, Link.Quiet, Quiet, Distinct, Sane, Moved, SetterCall, Word;
    var st, mid := Stations(s.master.env), Stations(told.master.env);
    forall i | 0 <= i < |st| ensures mid[i] == Moved(st[i], p) && mid[i].addr == st[i].addr {
      SetMoves(st[i], p, sel, low, high);
    }
    AddressesStayDistinct(st, mid);
    SetterMoves(told, 8, 0, []);
    var last := Stations(Link.Run(Execute, told, SetterCall(Link.Command(8, 0, []))).master.env);
    forall i | 0 <= i < |st| ensures Driven(st[i], last[i], sel, Word(low, high)) {
      SetMoves(st[i], p, sel, low, high);
      ApplyMoves(mid[i], q);
    }
  }

  /**
   The same from the start: slaves that have been set up under addresses of their own, a master at any id,
   and a client that connects, sets a speed and applies it.
   */
  lemma DrivenFromTheStart(f: Fleet, gid: byte, left: seq<byte>, sel: byte, low: byte, high: byte)
    requires gid < 255 && f.master.mode == M.READY && f.master.control == M.Nothing
    requires forall i | 0 <= i < |f.slaves| :: f.slaves[i].Waiting() && 1 <= f.slaves[i].node.own <= 126
    requires forall i, j | 0 <= i < j < |f.slaves| :: f.slaves[i].node.own != f.slaves[j].node.own
    ensures var s := Link.Run(Execute, Link.PoweredOn(gid, f, left), LinkCalls.HANDSHAKING);
      var told := Link.Run(Execute, s, SetterCall(Link.Command(7, sel, [low, high])));
      var t := Link.Run(Execute, told, SetterCall(Link.Command(8, 0, [])));
      && |t.master.env.slaves| == |f.slaves|
      && forall i | 0 <= i < |f.slaves| :: Driven(Stations(f)[i], Stations(t.master.env)[i], sel, Word(low, high))
  {
    var s0 := Link.PoweredOn(gid, f, left);
    var s := Link.Run(Execute, s0, LinkCalls.HANDSHAKING);
    OperationsAnswer();
    SetUpIsQuiet(f);
    assert s0.start == f && Link.Initial(s0);
    hide Link.PoweredOn, Link.Initial, Link.Answers, Link.Inv, Link.Run, Link.Quiet, Quiet, Distinct, Slave.Waiting;
    hide Driven, SetterCall;
    LinkCalls.HandshakeConnects(Execute, s0);
    Link.EndsAgree(Execute, s0, LinkCalls.HANDSHAKING);
    NothingRun(f);
    TwoCallsDriveTheMotors(s, sel, low, high);
  }

  lemma NothingRun(f: Fleet)
    ensures Link.Replay(Execute, f, []) == (f, [])
  {
  }
}
