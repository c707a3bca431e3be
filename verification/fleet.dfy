/**
 The master's operations on the slaves, carried out byte by byte on the bus: the master's commands,
 its motor module and the operations behind the packets that the client sends.
 */
module Fleets {
  import opened Bytes
  import opened Commands
  import opened Motors
  import opened Packets
  import opened MasterSide
  import opened SlaveProgram
  import opened TwiBus
  import M = TwiMaster
  import S = TwiSlave

  /** `stack` stands for the bytes that an uninitialised local variable happens to have. */
  datatype RawFleet = RawFleet(master: M.Driver, slaves: seq<Slave>, stack: seq<byte>) {

    predicate Valid() {
      master.Valid() && |stack| == 2 && forall i | 0 <= i < |slaves| :: slaves[i].Valid()
    }
  }

  const NO_FLEET := RawFleet(
    M.Driver(M.READY, M.Success, false, seq(33, _ => 0), 0, 0, [], 0, 0, 0, M.Nothing), [], [0, 0])

  type Fleet = f: RawFleet | f.Valid() witness NO_FLEET

  // ----- The bus as part of the fleet

  function Nodes(slaves: seq<Slave>): (r: seq<Node>)
    ensures |r| == |slaves| && forall i | 0 <= i < |r| :: r[i] == slaves[i].node
  {
    seq(|slaves|, i requires 0 <= i < |slaves| => slaves[i].node)
  }

  function BusOf(f: Fleet, master: M.Driver): (bus: Bus)
    requires master.Valid()
    ensures bus.Valid()
  {
    Bus(Free, master, Nodes(f.slaves))
  }

  /** No interrupt changes the size of a command buffer. */
  lemma {:induction false} BuffersKeepTheirSize(bus: Bus, k: nat)
    requires bus.Valid()
    ensures var r := bus.Cycles(k);
      forall i | 0 <= i < |bus.nodes| :: |r.nodes[i].driver.rxBuffer| == |bus.nodes[i].driver.rxBuffer|
  {
    hide S.Driver.Isr;
    if k > 0 {
      BuffersKeepTheirSize(bus, k - 1);
    }
  }

  /** After a transfer each slave's program runs until it waits again. */
  function Settled(slaves: seq<Slave>, nodes: seq<Node>): (r: seq<Slave>)
    requires |nodes| == |slaves| && forall i | 0 <= i < |nodes| :: slaves[i].(node := nodes[i]).Valid()
    ensures |r| == |slaves| && forall i | 0 <= i < |r| :: r[i] == slaves[i].(node := nodes[i]).Wake() && r[i].Valid()
  {
    seq(|slaves|, i requires 0 <= i < |slaves| => slaves[i].(node := nodes[i]).Wake())
  }

  function Transfer(f: Fleet, master: M.Driver, cycles: nat): Fleet
    requires master.Valid()
  {
    var bus := BusOf(f, master);
    BuffersKeepTheirSize(bus, cycles);
    var r := bus.Cycles(cycles);
    RawFleet(r.master, Settled(f.slaves, r.nodes), f.stack)
  }

  // ----- The master's commands

  /** `master_send_command`; `master_send_bcast_command` is the same with address 0. */
  function SendCommand(f: Fleet, addr: byte, id: byte, arg: seq<byte>): Fleet
    requires |arg| < M.TW_TX_MAX_LEN
  {
    Transfer(f, f.master.Send(addr, [id] + arg, false), |arg| + 4)
  }

  /** `master_recv_response` into an uninitialised variable of `n` bytes. */
  function RecvResponse(f: Fleet, addr: byte, n: nat): Fleet
    requires n <= 2
  {
    Transfer(f, f.master.Recv(addr, f.stack[..n], n, false), n + 3)
  }

  /** What the client can order. */
  datatype Order =
    | Ping(sel: byte)
    | GetSpeed(sel: byte)
    | SetSpeed(sel: byte, speed: Rpm)
    | Apply
    | ChangeAddress(sel: byte, addr: byte)

  /** The only operation that checks its selector. */
  function Pinged(f: Fleet, sel: byte): (Fleet, Reply) {
    if sel == 0 || sel > 127 then (f, Reply(ErrorCode(E_SLAVE_NOT_FOUND), []))
    else
      var r := RecvResponse(SendCommand(f, sel, CMD_PING, [sel]), sel, 1);
      var found := r.master.rxIdx == 1 && r.master.rxBuffer == [sel];
      (r, Reply(ErrorCode(if found then E_SUCCESS else E_SLAVE_NOT_FOUND), []))
  }

  /** The mask of the source leaves the selector as it is. If nobody answers, the reply is what `speed` held. */
  function SpeedGot(f: Fleet, sel: byte): (Fleet, Reply) {
    var r := RecvResponse(SendCommand(f, sel, CMD_GET_SPEED, []), sel, 2);
    (r, Reply(sel, if |r.master.rxBuffer| == 2 then r.master.rxBuffer else f.stack))
  }

  /** The operation of the communication module, with the body of its DAT packet if it sends one. */
  function Perform(f: Fleet, order: Order): (Fleet, Option<Reply>) {
    match order
    case Ping(sel) => var (r, reply) := Pinged(f, sel); (r, Some(reply))
    case GetSpeed(sel) => var (r, reply) := SpeedGot(f, sel); (r, Some(reply))
    case SetSpeed(sel, speed) => (SendCommand(f, sel, CMD_SET_SPEED, Encode(speed)), None)
    case Apply => (SendCommand(f, 0, CMD_APPLY_SPEED, []), None)
    case ChangeAddress(sel, addr) => (SendCommand(f, sel, CMD_SET_ADDR, [addr]), None)
  }

  // ----- One command and one slave

  /** The address in a frame on the bus counts modulo 128, and 0 calls everybody. */
  predicate Calls(sel: byte, addr: byte) {
    sel % 128 == 0 || sel % 128 == addr
  }

  /** The slaves wait for commands under addresses that slaves take, and the bus is free. */
  predicate Quiet(f: Fleet) {
    && BusOf(f, f.master).AtRest()
    && forall i | 0 <= i < |f.slaves| :: f.slaves[i].Waiting() && ValidAddress(f.slaves[i].node.own)
  }

  lemma HearsIfCalled(s: Slave, sel: byte)
    requires s.Waiting() && ValidAddress(s.node.own)
    ensures s.node.Hears(M.AddrWrite(sel)) <==> Calls(sel, s.node.own)
    ensures s.node.Hears(M.AddrRead(sel)) <==> sel % 128 == s.node.own
  {
    assert 2 * sel % 256 == 2 * (sel % 128);
  }

  /** The slave after a frame for the address byte `b`: what it received, and what its program made of it. */
  function Handled(s: Slave, b: byte, data: seq<byte>): (r: Slave)
    requires s.Valid() && RoomFor(s.node, b, |data|)
    ensures r.Valid()
  {
    s.(node := Told(s.node, b, data)).Wake()
  }

  function Obeyed(s: Slave, sel: byte, data: seq<byte>): Slave
    requires s.Waiting() && |data| <= COMMAND_MAX_SIZE
  {
    Handled(s, M.AddrWrite(sel), data)
  }

  /** A command on a free bus: each slave deals with it as if it were alone. */
  lemma CommandIsHandled(f: Fleet, sel: byte, id: byte, arg: seq<byte>)
    requires BusOf(f, f.master).AtRest() && |arg| < M.TW_TX_MAX_LEN
    requires Listening(Nodes(f.slaves), M.AddrWrite(sel), 1 + |arg|)
    ensures var r := SendCommand(f, sel, id, arg);
      && BusOf(f, r.master).AtRest() && |r.slaves| == |f.slaves| && r.stack == f.stack
      && forall i | 0 <= i < |r.slaves| ::
          RoomFor(f.slaves[i].node, M.AddrWrite(sel), 1 + |arg|)
          && r.slaves[i] == Handled(f.slaves[i], M.AddrWrite(sel), [id] + arg)
  {
    var b, data := M.AddrWrite(sel), [id] + arg;
    SendDelivers(BusOf(f, f.master), sel, data);
    hide Bus.Cycles, Told, Heard, Slave.Wake, M.Driver.Send;
    assert forall i | 0 <= i < |f.slaves| :: RoomFor(Nodes(f.slaves)[i], b, |data|);
  }

  lemma CommandIsObeyed(f: Fleet, sel: byte, id: byte, arg: seq<byte>)
    requires Quiet(f) && |arg| < COMMAND_MAX_SIZE
    ensures var r := SendCommand(f, sel, id, arg);
      && BusOf(f, r.master).AtRest() && |r.slaves| == |f.slaves| && r.stack == f.stack
      && forall i | 0 <= i < |r.slaves| :: r.slaves[i] == Obeyed(f.slaves[i], sel, [id] + arg)
  {
    hide SendCommand, Handled;
    assert forall i | 0 <= i < |f.slaves| :: RoomFor(Nodes(f.slaves)[i], M.AddrWrite(sel), 1 + |arg|);
    CommandIsHandled(f, sel, id, arg);
  }

  lemma CommandArrives(s: Slave, sel: byte, data: seq<byte>)
    requires s.Waiting() && ValidAddress(s.node.own) && |data| <= COMMAND_MAX_SIZE
    ensures !Calls(sel, s.node.own) ==> Obeyed(s, sel, data) == s
    ensures Calls(sel, s.node.own) ==>
      var told := s.(node := Told(s.node, M.AddrWrite(sel), data));
      && told.Valid() && told.node.driver.mode == S.READY && told.node.role == Idle && told.node.own == s.node.own
      && told.node.driver.rxIdx == |data| && told.node.driver.rxBuffer[..|data|] == data
  {
    HearsIfCalled(s, sel);
  }

  lemma SetIsObeyed(s: Slave, sel: byte, speed: Rpm)
    requires s.Waiting() && ValidAddress(s.node.own)
    ensures var r := Obeyed(s, sel, [CMD_SET_SPEED] + Encode(speed));
      && r.Waiting() && r.node.own == s.node.own
      && r.motor == if Calls(sel, s.node.own) then s.motor.Set(speed) else s.motor
  {
    var data := [CMD_SET_SPEED] + Encode(speed);
    CommandArrives(s, sel, data);
    SpeedRoundTrip(speed);
    hide Told, Encode, Decode;
    var told := s.(node := Told(s.node, M.AddrWrite(sel), data));
    if Calls(sel, s.node.own) {
      var cmd := told.node.driver.rxBuffer;
      assert cmd[0] == cmd[..3][0] && cmd[1] == cmd[..3][1] && cmd[2] == cmd[..3][2];
    }
  }

  lemma ApplyIsObeyed(s: Slave)
    requires s.Waiting() && ValidAddress(s.node.own)
    ensures var r := Obeyed(s, 0, [CMD_APPLY_SPEED] + []);
      r.Waiting() && r.node.own == s.node.own && r.motor == s.motor.Apply()
  {
    var data := [CMD_APPLY_SPEED] + [];
    CommandArrives(s, 0, data);
    hide Told, Encode, Decode;
    var cmd := s.(node := Told(s.node, M.AddrWrite(0), data)).node.driver.rxBuffer;
    assert cmd[0] == cmd[..1][0];
  }

  lemma ChangeIsObeyed(s: Slave, sel: byte, addr: byte)
    requires s.Waiting() && ValidAddress(s.node.own)
    ensures var r := Obeyed(s, sel, [CMD_SET_ADDR] + [addr]);
      && r.Waiting() && r.motor == s.motor
      && r.node.own == if Calls(sel, s.node.own) && ValidAddress(addr) then addr else s.node.own
  {
    var data := [CMD_SET_ADDR] + [addr];
    CommandArrives(s, sel, data);
    hide Told, Encode, Decode;
    if Calls(sel, s.node.own) {
      var cmd := s.(node := Told(s.node, M.AddrWrite(sel), data)).node.driver.rxBuffer;
      assert cmd[0] == cmd[..2][0] && cmd[1] == cmd[..2][1];
    }
  }

  /** A slave whose answer waits to be read. */
  predicate Offers(s: Slave, response: seq<byte>) {
    && s.Valid() && s.pc == Responding && s.node.role == Idle && s.node.driver.mode == S.INITIALIZING
    && s.node.driver.control == S.Ack && s.node.driver.txIdx == 0 && s.node.driver.txSize == |response|
    && |response| <= S.TW_TX_MAX_LEN && s.node.driver.txBuffer[..|response|] == response
  }

  lemma PingIsObeyed(s: Slave, sel: byte)
    requires s.Waiting() && ValidAddress(s.node.own) && Calls(sel, s.node.own)
    ensures var r := Obeyed(s, sel, [CMD_PING] + [sel]);
      Offers(r, [sel]) && r.motor == s.motor && r.node.own == s.node.own
  {
    var data := [CMD_PING] + [sel];
    CommandArrives(s, sel, data);
    hide Told, Encode, Decode;
    var cmd := s.(node := Told(s.node, M.AddrWrite(sel), data)).node.driver.rxBuffer;
    assert cmd[0] == cmd[..2][0] && cmd[1] == cmd[..2][1];
    assert cmd[1..2] == [sel];
  }

  lemma GetIsObeyed(s: Slave, sel: byte)
    requires s.Waiting() && ValidAddress(s.node.own) && Calls(sel, s.node.own)
    ensures var r := Obeyed(s, sel, [CMD_GET_SPEED] + []);
      Offers(r, Encode(s.motor.actual)) && r.motor == s.motor && r.node.own == s.node.own
  {
    var data := [CMD_GET_SPEED] + [];
    CommandArrives(s, sel, data);
    hide Told, Encode, Decode;
    var cmd := s.(node := Told(s.node, M.AddrWrite(sel), data)).node.driver.rxBuffer;
    assert cmd[0] == cmd[..1][0];
  }

  /** The read takes the offered bytes, and the slave waits for a command again. */
  lemma OfferIsTaken(s: Slave, response: seq<byte>)
    requires Offers(s, response) && response != []
    ensures s.node.driver.txIdx + |response| <= S.TW_TX_MAX_LEN && Supply(s.node, |response|) == response
    ensures var taken := s.(node := Supplied(s.node, |response|));
      && taken.Valid() && taken.Wake().Waiting() && taken.Wake().motor == s.motor && taken.Wake().node.own == s.node.own
  {
  }

  // ----- What the orders mean

  /** A slave as the user sees it: its address, and the pending and active speed of its motor. */
  datatype Station = Station(addr: byte, motor: Motor)

  function Stations(f: Fleet): (r: seq<Station>)
    ensures |r| == |f.slaves|
    ensures forall i | 0 <= i < |r| :: r[i] == Station(f.slaves[i].node.own, f.slaves[i].motor)
  {
    seq(|f.slaves|, i requires 0 <= i < |f.slaves| => Station(f.slaves[i].node.own, f.slaves[i].motor))
  }

  function Changed(s: Station, order: Order): Station {
    match order
    case SetSpeed(sel, speed) => if Calls(sel, s.addr) then s.(motor := s.motor.Set(speed)) else s
    case Apply => s.(motor := s.motor.Apply())
    case ChangeAddress(sel, addr) => if Calls(sel, s.addr) && ValidAddress(addr) then s.(addr := addr) else s
    case _ => s
  }

  function AllChanged(stations: seq<Station>, order: Order): (r: seq<Station>)
    ensures |r| == |stations| && forall i | 0 <= i < |r| :: r[i] == Changed(stations[i], order)
  {
    seq(|stations|, i requires 0 <= i < |stations| => Changed(stations[i], order))
  }

  predicate Distinct(stations: seq<Station>) {
    && (forall i | 0 <= i < |stations| :: ValidAddress(stations[i].addr))
    && (forall i, j | 0 <= i < j < |stations| :: stations[i].addr != stations[j].addr)
  }

  /** The index of the station with the address, or the number of stations if there is none. */
  function Holder(stations: seq<Station>, addr: byte): (i: nat)
    ensures i <= |stations| && (i < |stations| ==> stations[i].addr == addr)
    ensures forall j | 0 <= j < i :: stations[j].addr != addr
  {
    if stations == [] || stations[0].addr == addr then 0 else 1 + Holder(stations[1..], addr)
  }

  /** The body of the DAT packet. */
  function Answer(stations: seq<Station>, order: Order, stack: seq<byte>): Option<Reply> {
    match order
    case Ping(sel) =>
      var found := sel <= 127 && Holder(stations, sel) < |stations|;
      Some(Reply(if found then 0 else 5, []))
    case GetSpeed(sel) =>
      var i := Holder(stations, sel % 128);
      Some(Reply(sel, if i < |stations| then Encode(stations[i].motor.actual) else stack))
    case _ => None
  }

  /** Orders that keep the fleet in order: no speed is asked of all slaves at once, and no address is taken twice. */
  predicate Allowed(stations: seq<Station>, order: Order) {
    match order
    case GetSpeed(sel) => sel % 128 != 0
    case ChangeAddress(sel, addr) => ValidAddress(addr) ==> Unused(stations, sel, addr)
    case _ => true
  }

  /** One slave at most is called, and no other one has the new address. */
  predicate Unused(stations: seq<Station>, sel: byte, addr: byte) {
    if sel % 128 == 0 then |stations| <= 1
    else
      (forall i | 0 <= i < |stations| :: stations[i].addr != sel % 128)
      || (forall i | 0 <= i < |stations| :: stations[i].addr == addr ==> addr == sel % 128)
  }

  /** A change of address keeps the addresses distinct, and in the range that slaves take, exactly if it is allowed. */
  lemma ChangeKeepsDistinct(stations: seq<Station>, sel: byte, addr: byte)
    requires Distinct(stations)
    ensures Distinct(AllChanged(stations, ChangeAddress(sel, addr)))
      <==> Allowed(stations, ChangeAddress(sel, addr))
  {
    var order := ChangeAddress(sel, addr);
    var after := AllChanged(stations, order);
    if ValidAddress(addr) {
      if sel % 128 == 0 {
        if |stations| > 1 {
          assert after[0].addr == after[1].addr;
        }
      } else if !Unused(stations, sel, addr) {
        var i :| 0 <= i < |stations| && stations[i].addr == sel % 128;
        var j :| 0 <= j < |stations| && stations[j].addr == addr && addr != sel % 128;
        assert after[i].addr == after[j].addr;
      }
    }
  }

  // ----- One order

  predicate Refines(f: Fleet, order: Order) {
    var (r, reply) := Perform(f, order);
    && Quiet(r) && r.stack == f.stack && Stations(r) == AllChanged(Stations(f), order)
    && reply == Answer(Stations(f), order, f.stack)
  }

  lemma QuietAgain(f: Fleet, r: Fleet)
    requires BusOf(f, r.master).AtRest()
    requires forall i | 0 <= i < |r.slaves| :: r.slaves[i].Waiting() && ValidAddress(r.slaves[i].node.own)
    ensures Quiet(r)
  {
  }

  /** Slaves that have just been set up under addresses in 1..126, and an idle master, are a fleet in order. */
  lemma SetUpIsQuiet(f: Fleet)
    requires f.master.mode == M.READY && f.master.control == M.Nothing
    requires forall i | 0 <= i < |f.slaves| :: f.slaves[i].Waiting() && 1 <= f.slaves[i].node.own <= 126
    ensures Quiet(f)
    ensures Distinct(Stations(f)) <==>
      forall i, j | 0 <= i < j < |f.slaves| :: f.slaves[i].node.own != f.slaves[j].node.own
  {
    var st := Stations(f);
    assert forall i | 0 <= i < |f.slaves| :: st[i].addr == f.slaves[i].node.own;
  }

  lemma SetRefines(f: Fleet, sel: byte, speed: Rpm)
    requires Quiet(f)
    ensures Refines(f, Order.SetSpeed(sel, speed))
  {
    var r := SendCommand(f, sel, CMD_SET_SPEED, Encode(speed));
    CommandIsObeyed(f, sel, CMD_SET_SPEED, Encode(speed));
    hide SendCommand, Obeyed, Encode, Slave.Waiting;
    forall i | 0 <= i < |r.slaves|
      ensures r.slaves[i].Waiting() && r.slaves[i].node.own == f.slaves[i].node.own
      ensures Stations(r)[i] == Changed(Stations(f)[i], Order.SetSpeed(sel, speed))
    {
      SetIsObeyed(f.slaves[i], sel, speed);
    }
    QuietAgain(f, r);
  }

  lemma ApplyRefines(f: Fleet)
    requires Quiet(f)
    ensures Refines(f, Order.Apply)
  {
    var r := SendCommand(f, 0, CMD_APPLY_SPEED, []);
    CommandIsObeyed(f, 0, CMD_APPLY_SPEED, []);
    hide SendCommand, Obeyed, Slave.Waiting;
    forall i | 0 <= i < |r.slaves|
      ensures r.slaves[i].Waiting() && r.slaves[i].node.own == f.slaves[i].node.own
      ensures Stations(r)[i] == Changed(Stations(f)[i], Order.Apply)
    {
      ApplyIsObeyed(f.slaves[i]);
    }
    QuietAgain(f, r);
  }

  lemma ChangeRefines(f: Fleet, sel: byte, addr: byte)
    requires Quiet(f)
    ensures Refines(f, ChangeAddress(sel, addr))
  {
    var r := SendCommand(f, sel, CMD_SET_ADDR, [addr]);
    CommandIsObeyed(f, sel, CMD_SET_ADDR, [addr]);
    hide SendCommand, Obeyed, Slave.Waiting;
    forall i | 0 <= i < |r.slaves|
      ensures r.slaves[i].Waiting() && ValidAddress(r.slaves[i].node.own)
      ensures Stations(r)[i] == Changed(Stations(f)[i], ChangeAddress(sel, addr))
    {
      ChangeIsObeyed(f.slaves[i], sel, addr);
    }
    QuietAgain(f, r);
  }

  lemma WaitingSleepsOn(s: Slave)
    requires s.Waiting()
    ensures s.Wake() == s
  {
  }

  /** All slaves but `i` wait for a command under other addresses; slave `i` offers a response. */
  predicate OneOffers(f: Fleet, sel: byte, i: nat, response: seq<byte>) {
    && BusOf(f, f.master).AtRest() && i < |f.slaves| && Offers(f.slaves[i], response)
    && (forall j | 0 <= j < |f.slaves| :: ValidAddress(f.slaves[j].node.own))
    && (forall j | 0 <= j < |f.slaves| && j != i :: f.slaves[j].Waiting())
    && (forall j | 0 <= j < |f.slaves| :: f.slaves[j].node.own == sel % 128 <==> j == i)
  }

  lemma OnlyOneReads(f: Fleet, sel: byte, i: nat, response: seq<byte>)
    requires OneOffers(f, sel, i, response)
    ensures OnlyReader(Nodes(f.slaves), M.AddrRead(sel), i, |response|)
  {
    assert 2 * sel % 256 == 2 * (sel % 128);
  }

  lemma OfferIsRead(f: Fleet, sel: byte, i: nat, response: seq<byte>)
    requires OneOffers(f, sel, i, response) && 0 < |response| <= 2
    ensures var r := RecvResponse(f, sel, |response|);
      && Quiet(r) && Stations(r) == Stations(f) && r.stack == f.stack
      && r.master.rxIdx == |response| && r.master.rxBuffer == response
  {
    var n, r := |response|, RecvResponse(f, sel, |response|);
    OnlyOneReads(f, sel, i, response);
    RecvDelivers(BusOf(f, f.master), sel, f.stack[..n], n, i);
    OfferIsTaken(f.slaves[i], response);
    hide Supplied, Supply, Offers, Bus.Cycles, OnlyReader;
    assert f.stack[..n][n..] == [] && response + [] == response;
    forall j | 0 <= j < |r.slaves|
      ensures r.slaves[j].Waiting() && r.slaves[j].node.own == f.slaves[j].node.own
      ensures Stations(r)[j] == Stations(f)[j]
    {
      if j != i {
        WaitingSleepsOn(f.slaves[j]);
      }
    }
    QuietAgain(f, r);
  }

  lemma NothingIsRead(f: Fleet, sel: byte, n: nat)
    requires Quiet(f) && 0 < n <= 2
    requires forall j | 0 <= j < |f.slaves| :: f.slaves[j].node.own != sel % 128
    ensures var r := RecvResponse(f, sel, n);
      && Quiet(r) && r.slaves == f.slaves && r.stack == f.stack
      && r.master.rxIdx == 0 && r.master.rxBuffer == f.stack[..n]
  {
    var r := RecvResponse(f, sel, n);
    forall j | 0 <= j < |f.slaves|
      ensures !f.slaves[j].node.Hears(M.AddrRead(sel)) && f.slaves[j].Wake() == f.slaves[j]
    {
      HearsIfCalled(f.slaves[j], sel);
    }
    assert NobodyHears(Nodes(f.slaves), M.AddrRead(sel));
    RecvFromNobody(BusOf(f, f.master), sel, f.stack[..n], n);
    hide Bus.Cycles;
  }

  /** After the command of a query the one slave called, if there is one, offers its response. */
  lemma QueryIsOffered(f: Fleet, sel: byte, id: byte, arg: seq<byte>, i: nat, response: seq<byte>)
    requires Quiet(f) && Distinct(Stations(f)) && sel % 128 != 0 && |arg| < COMMAND_MAX_SIZE
    requires i < |f.slaves| && f.slaves[i].node.own == sel % 128 && f.slaves[i].Waiting()
    requires var r := Obeyed(f.slaves[i], sel, [id] + arg);
      Offers(r, response) && r.motor == f.slaves[i].motor && r.node.own == f.slaves[i].node.own
    ensures var r := SendCommand(f, sel, id, arg);
      OneOffers(r, sel, i, response) && Stations(r) == Stations(f) && r.stack == f.stack
  {
    var r := SendCommand(f, sel, id, arg);
    hide SendCommand, Obeyed, Offers, Quiet, Distinct, Stations;
    QueryReaches(f, sel, id, arg, i);
    OneSlaveOffers(f, r, sel, i, response);
  }

  /** The slave with the address deals with the command, and no other slave changes. */
  lemma QueryReaches(f: Fleet, sel: byte, id: byte, arg: seq<byte>, i: nat)
    requires Quiet(f) && Distinct(Stations(f)) && sel % 128 != 0 && |arg| < COMMAND_MAX_SIZE
    requires i < |f.slaves| && f.slaves[i].node.own == sel % 128 && f.slaves[i].Waiting()
    ensures var r := SendCommand(f, sel, id, arg);
      && BusOf(f, r.master).AtRest() && r.stack == f.stack
      && r.slaves == f.slaves[i := Obeyed(f.slaves[i], sel, [id] + arg)]
      && forall j | 0 <= j < |f.slaves| && j != i :: f.slaves[j].node.own != sel % 128
  {
    var r := SendCommand(f, sel, id, arg);
    CommandIsObeyed(f, sel, id, arg);
    hide SendCommand, Obeyed, Distinct, Stations;
    forall j | 0 <= j < |f.slaves| && j != i ensures r.slaves[j] == f.slaves[j] && f.slaves[j].node.own != sel % 128 {
      OthersDoNotListen(f, sel, [id] + arg, i, j);
    }
  }

  lemma OneSlaveOffers(f: Fleet, r: Fleet, sel: byte, i: nat, response: seq<byte>)
    requires Quiet(f) && BusOf(f, r.master).AtRest() && i < |f.slaves| && f.slaves[i].node.own == sel % 128
    requires |r.slaves| == |f.slaves| && r.slaves == f.slaves[i := r.slaves[i]]
    requires Offers(r.slaves[i], response) && r.slaves[i].motor == f.slaves[i].motor
    requires r.slaves[i].node.own == f.slaves[i].node.own
    requires forall j | 0 <= j < |f.slaves| && j != i :: f.slaves[j].node.own != sel % 128
    ensures OneOffers(r, sel, i, response) && Stations(r) == Stations(f)
  {
    OffersIdly(r.slaves[i], response);
    hide Offers;
    forall j | 0 <= j < |f.slaves| ensures Stations(r)[j] == Stations(f)[j] && r.slaves[j].node.role == Idle {
    }
    SameBusAtRest(f, r);
    hide Bus.AtRest;
  }

  lemma OthersDoNotListen(f: Fleet, sel: byte, data: seq<byte>, i: nat, j: nat)
    requires Quiet(f) && Distinct(Stations(f)) && sel % 128 != 0 && |data| <= COMMAND_MAX_SIZE
    requires i < |f.slaves| && j < |f.slaves| && i != j && f.slaves[i].node.own == sel % 128
    ensures Obeyed(f.slaves[j], sel, data) == f.slaves[j] && f.slaves[j].node.own != sel % 128
  {
    hide Obeyed;
    assert Stations(f)[j].addr != Stations(f)[i].addr;
    CommandArrives(f.slaves[j], sel, data);
  }

  lemma OffersIdly(s: Slave, response: seq<byte>)
    requires Offers(s, response)
    ensures s.node.role == Idle
  {
  }

  lemma SameBusAtRest(f: Fleet, r: Fleet)
    requires BusOf(f, r.master).AtRest()
    requires forall j | 0 <= j < |r.slaves| :: r.slaves[j].node.role == Idle
    ensures BusOf(r, r.master).AtRest()
  {
  }

  lemma QueryIsIgnored(f: Fleet, sel: byte, id: byte, arg: seq<byte>)
    requires Quiet(f) && sel % 128 != 0 && |arg| < COMMAND_MAX_SIZE
    requires forall j | 0 <= j < |f.slaves| :: f.slaves[j].node.own != sel % 128
    ensures var r := SendCommand(f, sel, id, arg);
      Quiet(r) && r.slaves == f.slaves && r.stack == f.stack
  {
    var r := SendCommand(f, sel, id, arg);
    CommandIsObeyed(f, sel, id, arg);
    hide SendCommand, Obeyed;
    forall j | 0 <= j < |f.slaves| ensures r.slaves[j] == f.slaves[j] {
      CommandArrives(f.slaves[j], sel, [id] + arg);
    }
    QuietAgain(f, r);
  }

  lemma HolderIsSlave(f: Fleet, addr: byte)
    ensures var i := Holder(Stations(f), addr);
      && (i < |f.slaves| ==> f.slaves[i].node.own == addr)
      && (i == |f.slaves| ==> forall j | 0 <= j < |f.slaves| :: f.slaves[j].node.own != addr)
  {
    var stations := Stations(f);
    assert forall j | 0 <= j < |f.slaves| :: stations[j].addr == f.slaves[j].node.own;
  }

  lemma QuietSlave(f: Fleet, i: nat)
    requires Quiet(f) && i < |f.slaves|
    ensures f.slaves[i].Waiting() && ValidAddress(f.slaves[i].node.own)
  {
  }

  /** A question to the address of slave `i` brings its response. */
  lemma HolderAnswers(f: Fleet, sel: byte, id: byte, arg: seq<byte>, i: nat, response: seq<byte>)
    requires Quiet(f) && Distinct(Stations(f)) && sel % 128 != 0 && |arg| < COMMAND_MAX_SIZE
    requires i < |f.slaves| && f.slaves[i].node.own == sel % 128 && f.slaves[i].Waiting() && 0 < |response| <= 2
    requires var r := Obeyed(f.slaves[i], sel, [id] + arg);
      Offers(r, response) && r.motor == f.slaves[i].motor && r.node.own == f.slaves[i].node.own
    ensures var r := RecvResponse(SendCommand(f, sel, id, arg), sel, |response|);
      && Quiet(r) && r.stack == f.stack && Stations(r) == Stations(f)
      && r.master.rxIdx == |response| && r.master.rxBuffer == response
  {
    hide Quiet, Distinct, SendCommand, RecvResponse, Obeyed, Offers, OneOffers, Stations;
    QueryIsOffered(f, sel, id, arg, i, response);
    OfferIsRead(SendCommand(f, sel, id, arg), sel, i, response);
  }

  /** A question to an address that nobody has brings nothing. */
  lemma NobodyAnswers(f: Fleet, sel: byte, id: byte, arg: seq<byte>, n: nat)
    requires Quiet(f) && sel % 128 != 0 && |arg| < COMMAND_MAX_SIZE && 0 < n <= 2
    requires forall j | 0 <= j < |f.slaves| :: f.slaves[j].node.own != sel % 128
    ensures var r := RecvResponse(SendCommand(f, sel, id, arg), sel, n);
      && Quiet(r) && r.stack == f.stack && r.slaves == f.slaves
      && r.master.rxIdx == 0 && r.master.rxBuffer == f.stack[..n]
  {
    hide Quiet, SendCommand, RecvResponse;
    QueryIsIgnored(f, sel, id, arg);
    NothingIsRead(SendCommand(f, sel, id, arg), sel, n);
  }

  lemma PingIsAnswered(f: Fleet, sel: byte)
    requires Quiet(f) && Distinct(Stations(f)) && 0 < sel <= 127
    ensures var r := RecvResponse(SendCommand(f, sel, CMD_PING, [sel]), sel, 1);
      && Quiet(r) && r.stack == f.stack && Stations(r) == Stations(f)
      && (r.master.rxIdx == 1 && r.master.rxBuffer == [sel] <==> Holder(Stations(f), sel) < |f.slaves|)
  {
    hide Quiet, Distinct, SendCommand, RecvResponse, Obeyed, Offers, Slave.Waiting, Holder;
    var i := Holder(Stations(f), sel);
    HolderIsSlave(f, sel);
    if i < |f.slaves| {
      QuietSlave(f, i);
      PingIsObeyed(f.slaves[i], sel);
      HolderAnswers(f, sel, CMD_PING, [sel], i, [sel]);
    } else {
      NobodyAnswers(f, sel, CMD_PING, [sel], 1);
    }
  }

  /** A ping answers with success exactly if a slave has the address. */
  lemma PingRefines(f: Fleet, sel: byte)
    requires Quiet(f) && Distinct(Stations(f))
    ensures Refines(f, Order.Ping(sel))
  {
    if 0 < sel <= 127 {
      PingIsAnswered(f, sel);
    } else {
      NobodyHasZero(f);
    }
    hide SendCommand, RecvResponse, Quiet, Distinct;
    NothingChanges(Stations(f), Order.Ping(sel));
  }

  lemma NobodyHasZero(f: Fleet)
    requires Distinct(Stations(f))
    ensures Holder(Stations(f), 0) == |f.slaves|
  {
  }

  lemma NothingChanges(stations: seq<Station>, order: Order)
    requires order.Ping? || order.GetSpeed?
    ensures AllChanged(stations, order) == stations
  {
  }

  lemma GetRefines(f: Fleet, sel: byte)
    requires Quiet(f) && Distinct(Stations(f)) && sel % 128 != 0
    ensures Refines(f, Order.GetSpeed(sel))
  {
    hide Quiet, Distinct, SendCommand, RecvResponse, Obeyed, Offers, Slave.Waiting, Holder, Encode;
    var i := Holder(Stations(f), sel % 128);
    HolderIsSlave(f, sel % 128);
    if i < |f.slaves| {
      QuietSlave(f, i);
      GetIsObeyed(f.slaves[i], sel);
      EncodedIsTwoBytes(f.slaves[i].motor.actual);
      HolderAnswers(f, sel, CMD_GET_SPEED, [], i, Encode(f.slaves[i].motor.actual));
    } else {
      NobodyAnswers(f, sel, CMD_GET_SPEED, [], 2);
      assert f.stack[..2] == f.stack;
    }
    NothingChanges(Stations(f), Order.GetSpeed(sel));
  }

  lemma EncodedIsTwoBytes(speed: Rpm)
    ensures |Encode(speed)| == 2
  {
  }

  /** An order does to the slaves, over the bus, what it means, unless it asks all of them for their speed. */
  lemma OrderRefines(f: Fleet, order: Order)
    requires Quiet(f) && Distinct(Stations(f)) && (order.GetSpeed? ==> order.sel % 128 != 0)
    ensures Refines(f, order)
  {
    hide Perform, Quiet, Refines;
    match order
    case Ping(sel) => PingRefines(f, sel);
    case GetSpeed(sel) => GetRefines(f, sel);
    case SetSpeed(sel, speed) => SetRefines(f, sel, speed);
    case Apply => ApplyRefines(f);
    case ChangeAddress(sel, addr) => ChangeRefines(f, sel, addr);
  }

  /** An allowed order also keeps the addresses distinct. */
  lemma PerformRefines(f: Fleet, order: Order)
    requires Quiet(f) && Distinct(Stations(f)) && Allowed(Stations(f), order)
    ensures Refines(f, order) && Distinct(AllChanged(Stations(f), order))
  {
    hide Perform, Quiet, Refines;
    OrderRefines(f, order);
    if order.ChangeAddress? {
      ChangeKeepsDistinct(Stations(f), order.sel, order.addr);
    }
  }

  // ----- A speed asked of all slaves at once

  /** A slave that offers a response nobody reads, with the command it answers still in its buffer. */
  predicate Stuck(s: Slave) {
    && Offers(s, Encode(s.motor.actual)) && ValidAddress(s.node.own) && s.node.driver.rxIdx == 1
  }

  lemma GetMakesStuck(s: Slave, sel: byte)
    requires s.Waiting() && ValidAddress(s.node.own) && sel % 128 == 0
    ensures var r := Obeyed(s, sel, [CMD_GET_SPEED] + []);
      Stuck(r) && r.motor == s.motor && r.node.own == s.node.own && r.Wake() == r
  {
    GetIsObeyed(s, sel);
    HearsIfCalled(s, sel);
  }

  /** Whatever comes next is taken for the rest of the previous command, and dropped. */
  lemma StuckDropsCommand(s: Slave)
    requires Stuck(s)
    ensures RoomFor(s.node, 0, 1)
    ensures var told := s.(node := Told(s.node, 0, [CMD_APPLY_SPEED]));
      && told.Valid() && told.Wake().Waiting() && ValidAddress(s.node.own)
      && told.Wake().motor == s.motor && told.Wake().node.own == s.node.own
  {
  }

  lemma SpeedOfAllSticks(f: Fleet, sel: byte)
    requires Quiet(f) && sel % 128 == 0
    ensures var r := Perform(f, Order.GetSpeed(sel)).0;
      && BusOf(r, r.master).AtRest() && Stations(r) == Stations(f)
      && forall i | 0 <= i < |r.slaves| :: Stuck(r.slaves[i])
  {
    var sent := SendCommand(f, sel, CMD_GET_SPEED, []);
    CommandIsObeyed(f, sel, CMD_GET_SPEED, []);
    hide SendCommand, Obeyed;
    forall i | 0 <= i < |f.slaves|
      ensures Stuck(sent.slaves[i]) && sent.slaves[i].motor == f.slaves[i].motor
      ensures sent.slaves[i].node.own == f.slaves[i].node.own && sent.slaves[i].Wake() == sent.slaves[i]
    {
      GetMakesStuck(f.slaves[i], sel);
    }
    assert forall i | 0 <= i < |f.slaves| :: Stations(sent)[i] == Stations(f)[i];
    SameBusAtRest(f, sent);
    StuckIsNotRead(sent, sel);
  }

  lemma StuckIsNotRead(f: Fleet, sel: byte)
    requires BusOf(f, f.master).AtRest() && sel % 128 == 0
    requires forall i | 0 <= i < |f.slaves| :: Stuck(f.slaves[i]) && f.slaves[i].Wake() == f.slaves[i]
    ensures var r := RecvResponse(f, sel, 2);
      r.slaves == f.slaves && BusOf(r, r.master).AtRest()
  {
    assert 2 * sel % 256 == 2 * (sel % 128);
    assert NobodyHears(Nodes(f.slaves), M.AddrRead(sel));
    RecvFromNobody(BusOf(f, f.master), sel, f.stack[..2], 2);
    hide Bus.Cycles;
    var r := RecvResponse(f, sel, 2);
    assert r.slaves == f.slaves;
  }

  /** Asking all slaves for their speed leaves the fleet unready; the next APPLY is lost by every slave. */
  lemma SpeedOfAllLosesTheNextApply(f: Fleet, sel: byte)
    requires Quiet(f) && f.slaves != [] && sel % 128 == 0
    ensures var asked := Perform(f, Order.GetSpeed(sel)).0;
      var applied := Perform(asked, Order.Apply).0;
      !Quiet(asked) && Quiet(applied) && Stations(applied) == Stations(f)
  {
    SpeedOfAllSticks(f, sel);
    var asked := Perform(f, Order.GetSpeed(sel)).0;
    assert Stuck(asked.slaves[0]);
    ApplyIsDropped(asked);
  }

  lemma ApplyIsDropped(f: Fleet)
    requires BusOf(f, f.master).AtRest() && forall i | 0 <= i < |f.slaves| :: Stuck(f.slaves[i])
    ensures var r := Perform(f, Order.Apply).0;
      Quiet(r) && Stations(r) == Stations(f)
  {
    var r := Perform(f, Order.Apply).0;
    assert [CMD_APPLY_SPEED] + [] == [CMD_APPLY_SPEED];
    forall i | 0 <= i < |f.slaves| ensures RoomFor(Nodes(f.slaves)[i], 0, 1) {
      StuckDropsCommand(f.slaves[i]);
    }
    CommandIsHandled(f, 0, CMD_APPLY_SPEED, []);
    hide SendCommand, Told, RoomFor, Stuck, Slave.Wake;
    forall i | 0 <= i < |f.slaves|
      ensures r.slaves[i].Waiting() && ValidAddress(r.slaves[i].node.own) && Stations(r)[i] == Stations(f)[i]
    {
      StuckDropsCommand(f.slaves[i]);
    }
    QuietAgain(f, r);
  }

  /** A question for speeds leaves the fleet ready exactly if it goes to one address, or there are no slaves. */
  lemma GetKeepsQuietExactly(f: Fleet, sel: byte)
    requires Quiet(f) && Distinct(Stations(f))
    ensures Quiet(Perform(f, Order.GetSpeed(sel)).0) <==> sel % 128 != 0 || f.slaves == []
  {
    hide Perform;
    if sel % 128 != 0 {
      GetRefines(f, sel);
    } else {
      SpeedOfAllSticks(f, sel);
      var r := Perform(f, Order.GetSpeed(sel)).0;
      assert |r.slaves| == |f.slaves|;
      if f.slaves != [] {
        assert Stuck(r.slaves[0]);
      }
    }
  }
}
