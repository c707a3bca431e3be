/**
 The I2C bus, byte by byte, between the master's driver and any number of slaves' drivers. The
 hardware on both sides turns what happens on the bus into interrupts.
 */
module TwiBus {
  import opened Bytes
  import M = TwiMaster
  import S = TwiSlave

  /** What the master makes happen on the bus; a read says whether the master acknowledges the byte. */
  datatype Event = Begin | Address(b: byte) | Write(b: byte) | Read(ack: bool) | End

  /** Whether the hardware of a slave takes part in the current transfer. */
  datatype Role = Idle | Receiver(generalCall: bool) | Transmitter

  // ----- One slave

  datatype Node = Node(own: byte, role: Role, driver: S.Driver) {

    /** The address register holds seven bits of the own address, and accepts general calls. */
    predicate Hears(b: byte) {
      driver.control == S.Ack && (b == 0 || b / 2 == own % 128)
    }

    predicate Acks(e: Event) {
      match e
      case Address(b) => Hears(b)
      case Write(_) => role.Receiver? && driver.control == S.Ack
      case _ => false
    }

    /** The interrupt that the hardware raises, if any. */
    function Raised(e: Event): Option<S.Status> {
      match e
      case Begin => None
      case Address(b) =>
        if !Hears(b) then None
        else if b == 0 then Some(S.SR_GCALL_ACK)
        else if b % 2 == 0 then Some(S.SR_SLA_ACK)
        else Some(S.ST_SLA_ACK)
      case Write(_) =>
        if !role.Receiver? then None
        else if driver.control == S.Ack then Some(if role.generalCall then S.SR_GCALL_DATA_ACK else S.SR_DATA_ACK)
        else Some(if role.generalCall then S.SR_GCALL_DATA_NACK else S.SR_DATA_NACK)
      case Read(ack) =>
        if !role.Transmitter? then None
        else if !ack then Some(S.ST_DATA_NACK)
        else if driver.control == S.Ack then Some(S.ST_DATA_ACK)
        else Some(S.ST_LAST_DATA)
      case End => if role.Receiver? then Some(S.SR_STOP) else None
    }

    function NewRole(e: Event): Role {
      match e
      case Begin => Idle
      case Address(b) => if !Hears(b) then role else if b % 2 == 0 then Receiver(b == 0) else Transmitter
      case Write(_) => if driver.control == S.Ack then role else Idle
      case Read(ack) => if ack then role else Idle
      case End => Idle
    }

    /** A driver without room for the byte would leave the model; the transfers below never come to that. */
    function On(e: Event): Node
      requires driver.Valid()
    {
      var byteOnBus := if e.Write? then e.b else 0;
      var raised := Raised(e);
      this.(role := NewRole(e),
            driver := if raised.Some? && driver.HasRoom(raised.value) then driver.Isr(raised.value, byteOnBus)
                      else driver)
    }
  }

  // ----- The bus

  datatype Phase = Free | Started | Writing | Reading

  datatype Bus = Bus(phase: Phase, master: M.Driver, nodes: seq<Node>) {

    predicate Valid() {
      master.Valid() && forall i | 0 <= i < |nodes| :: nodes[i].driver.Valid()
    }

    /** Between two transfers. */
    predicate AtRest() {
      && Valid() && phase == Free && master.mode == M.READY && master.control != M.Start
      && forall i | 0 <= i < |nodes| :: nodes[i].role == Idle
    }

    predicate Acked(e: Event) {
      exists i | 0 <= i < |nodes| :: nodes[i].Acks(e)
    }

    /** The byte on the bus while the master reads: a bus nobody drives stays high. */
    function ByteRead(): byte {
      ByteFrom(nodes)
    }

    /** What the master's last write to TWCR makes happen. */
    function Next(): Option<Event> {
      match master.control
      case Start => if phase == Free then Some(Begin) else None
      case Stop => if phase == Free then None else Some(End)
      case Transfer(ack) =>
        (match phase
         case Free => None
         case Started => Some(Address(master.twdr))
         case Writing => Some(Write(master.twdr))
         case Reading => Some(Read(ack)))
      case Nothing => None
    }

    function NewPhase(e: Event): Phase {
      match e
      case Begin => Started
      case Address(b) => if b % 2 == 0 then Writing else Reading
      case End => Free
      case _ => phase
    }

    /** The interrupt that the master gets, but for the end of a transfer. */
    function Reported(e: Event): M.Status {
      match e
      case Begin => M.START
      case Address(b) =>
        if b % 2 == 0 then if Acked(e) then M.MT_SLA_ACK else M.MT_SLA_NACK
        else if Acked(e) then M.MR_SLA_ACK else M.MR_SLA_NACK
      case Write(_) => if Acked(e) then M.MT_DATA_ACK else M.MT_DATA_NACK
      case Read(ack) => if ack then M.MR_DATA_ACK else M.MR_DATA_NACK
      case End => M.NO_INFO
    }

    function MasterOn(e: Event): (m: M.Driver)
      requires Valid()
      ensures m.Valid()
    {
      if e == End then master.(control := M.Nothing)
      else if master.HasRoom(Reported(e)) then master.Isr(Reported(e), ByteRead())
      else master
    }

    /** One cycle: a START, a byte with its acknowledgement, or a STOP, and the interrupts it raises. */
    function Cycle(): (r: Bus)
      requires Valid()
      ensures r.Valid() && |r.nodes| == |nodes|
    {
      var next := Next();
      if next == None then this
      else Bus(NewPhase(next.value), MasterOn(next.value), Everyone(nodes, next.value))
    }

    function Cycles(k: nat): (r: Bus)
      requires Valid()
      ensures r.Valid() && |r.nodes| == |nodes|
    {
      if k == 0 then this else Cycles(k - 1).Cycle()
    }
  }

  function ByteFrom(nodes: seq<Node>): byte {
    if nodes == [] then 0xFF
    else if nodes[0].role == Transmitter then nodes[0].driver.twdr
    else ByteFrom(nodes[1..])
  }

  function Everyone(nodes: seq<Node>, e: Event): (r: seq<Node>)
    requires forall i | 0 <= i < |nodes| :: nodes[i].driver.Valid()
    ensures |r| == |nodes| && forall i | 0 <= i < |r| :: r[i] == nodes[i].On(e) && r[i].driver.Valid()
  {
    seq(|nodes|, i requires 0 <= i < |nodes| => nodes[i].On(e))
  }

  // ----- A slave that is written to

  predicate RoomFor(node: Node, b: byte, n: nat) {
    node.Hears(b) ==> node.driver.rxIdx + n <= |node.driver.rxBuffer|
  }

  /** The slave after the address byte and the bytes that follow it. */
  function Written(node: Node, b: byte, bytes: seq<byte>): Node
    requires RoomFor(node, b, |bytes|)
  {
    if !node.Hears(b) then node
    else
      var d, k := node.driver, node.driver.rxIdx;
      node.(role := Receiver(b == 0),
            driver := d.(mode := S.RECEIVING, error := if bytes == [] then d.error else S.NoInfo,
                         rxBuffer := d.rxBuffer[..k] + bytes + d.rxBuffer[k + |bytes|..], rxIdx := k + |bytes|))
  }

  /** The slave after the whole transfer. */
  function Told(node: Node, b: byte, bytes: seq<byte>): Node
    requires RoomFor(node, b, |bytes|)
  {
    if !node.Hears(b) then node
    else
      var w := Written(node, b, bytes);
      w.(role := Idle, driver := w.driver.(mode := S.READY, control := S.Deaf))
  }

  lemma HearsAddress(node: Node, b: byte)
    requires node.driver.Valid() && node.role == Idle && b % 2 == 0 && RoomFor(node, b, 0)
    ensures node.On(Begin) == node && node.On(Address(b)) == Written(node, b, [])
  {
    var d, k := node.driver, node.driver.rxIdx;
    if node.Hears(b) {
      assert d.rxBuffer[..k] + [] + d.rxBuffer[k..] == d.rxBuffer;
    }
  }

  lemma HearsByte(node: Node, b: byte, bytes: seq<byte>, x: byte)
    requires node.driver.Valid() && node.role == Idle && RoomFor(node, b, |bytes| + 1)
    ensures Written(node, b, bytes).driver.Valid()
    ensures Written(node, b, bytes).Acks(Write(x)) == node.Hears(b)
    ensures Written(node, b, bytes).On(Write(x)) == Written(node, b, bytes + [x])
  {
    if node.Hears(b) {
      var buf, first, k := node.driver.rxBuffer, node.driver.rxIdx, node.driver.rxIdx + |bytes|;
      assert buf[k..] == [buf[k]] + buf[k + 1..];
      assert Written(node, b, bytes).driver.rxBuffer[k := x] == buf[..first] + (bytes + [x]) + buf[k + 1..];
    }
  }

  lemma HearsEnd(node: Node, b: byte, bytes: seq<byte>)
    requires node.driver.Valid() && node.role == Idle && RoomFor(node, b, |bytes|)
    ensures Written(node, b, bytes).driver.Valid()
    ensures Written(node, b, bytes).On(End) == Told(node, b, bytes)
  {
  }

  // ----- The master sends

  predicate Heard(nodes: seq<Node>, b: byte) {
    exists i | 0 <= i < |nodes| :: nodes[i].Hears(b)
  }

  predicate Listening(nodes: seq<Node>, b: byte, n: nat) {
    forall i | 0 <= i < |nodes| :: nodes[i].driver.Valid() && nodes[i].role == Idle && RoomFor(nodes[i], b, n)
  }

  lemma ListeningForLess(nodes: seq<Node>, b: byte, n: nat, k: nat)
    requires Listening(nodes, b, n) && k <= n
    ensures Listening(nodes, b, k)
  {
  }

  function AllWritten(nodes: seq<Node>, b: byte, bytes: seq<byte>): (r: seq<Node>)
    requires Listening(nodes, b, |bytes|)
    ensures |r| == |nodes| && forall i | 0 <= i < |r| :: r[i] == Written(nodes[i], b, bytes) && r[i].driver.Valid()
  {
    seq(|nodes|, i requires 0 <= i < |nodes| => Written(nodes[i], b, bytes))
  }

  function AllTold(nodes: seq<Node>, b: byte, bytes: seq<byte>): (r: seq<Node>)
    requires Listening(nodes, b, |bytes|)
    ensures |r| == |nodes| && forall i | 0 <= i < |r| :: r[i] == Told(nodes[i], b, bytes) && r[i].driver.Valid()
  {
    seq(|nodes|, i requires 0 <= i < |nodes| => Told(nodes[i], b, bytes))
  }

  lemma EveryoneHearsAddress(nodes: seq<Node>, b: byte)
    requires Listening(nodes, b, 0) && b % 2 == 0
    ensures Everyone(nodes, Begin) == nodes && Everyone(nodes, Address(b)) == AllWritten(nodes, b, [])
  {
    hide Node.Hears;
    hide Node.On, Written, RoomFor, S.Driver.Valid;
    forall i | 0 <= i < |nodes|
      ensures nodes[i].On(Begin) == nodes[i] && nodes[i].On(Address(b)) == Written(nodes[i], b, [])
    {
      HearsAddress(nodes[i], b);
    }
  }

  lemma NobodyHearsAddress(nodes: seq<Node>, b: byte)
    requires Listening(nodes, b, 0) && !Heard(nodes, b)
    ensures Everyone(nodes, Begin) == nodes && Everyone(nodes, Address(b)) == nodes && Everyone(nodes, End) == nodes
  {
  }

  lemma EveryoneHearsByte(nodes: seq<Node>, b: byte, bytes: seq<byte>, x: byte)
    requires Listening(nodes, b, |bytes| + 1)
    ensures Listening(nodes, b, |bytes|)
    ensures Everyone(AllWritten(nodes, b, bytes), Write(x)) == AllWritten(nodes, b, bytes + [x])
    ensures (exists i | 0 <= i < |nodes| :: AllWritten(nodes, b, bytes)[i].Acks(Write(x))) <==> Heard(nodes, b)
  {
    assert Listening(nodes, b, |bytes|);
    hide Node.On, Node.Hears, Node.Acks, Written, S.Driver.Valid;
    var w := AllWritten(nodes, b, bytes);
    forall i | 0 <= i < |nodes|
      ensures w[i].On(Write(x)) == Written(nodes[i], b, bytes + [x]) && w[i].Acks(Write(x)) == nodes[i].Hears(b)
    {
      HearsByte(nodes[i], b, bytes, x);
    }
  }

  lemma EveryoneHearsEnd(nodes: seq<Node>, b: byte, bytes: seq<byte>)
    requires Listening(nodes, b, |bytes|)
    ensures Everyone(AllWritten(nodes, b, bytes), End) == AllTold(nodes, b, bytes)
  {
    hide Node.On, Node.Hears, Written, Told, S.Driver.Valid;
    forall i | 0 <= i < |nodes| ensures AllWritten(nodes, b, bytes)[i].On(End) == Told(nodes[i], b, bytes) {
      HearsEnd(nodes[i], b, bytes);
    }
  }

  function Sent(s: M.Driver): M.Driver
    requires s.Valid()
  {
    M.Sending(s, s.txSize).(mode := M.READY, error := M.Success, control := M.Stop)
  }

  /** The sender `s` once `k` bytes after the address have been acknowledged. */
  function Acknowledged(s: M.Driver, k: nat): (r: M.Driver)
    requires s.Valid()
    ensures r.Valid()
  {
    if k + 2 <= s.txSize then M.Sending(s, k + 2) else Sent(s)
  }

  lemma AcknowledgedStep(s: M.Driver, k: nat, x: byte)
    requires M.IsSender(s) && k + 2 <= s.txSize
    ensures M.Sending(s, k + 2).Isr(M.MT_DATA_ACK, x) == Acknowledged(s, k + 1)
  {
  }

  predicate Sends(s: M.Driver, b: byte, data: seq<byte>) {
    M.IsSender(s) && s.txSize == 1 + |data| && s.txBuffer[..1 + |data|] == [b] + data && b % 2 == 0
  }

  function WritingBus(s: M.Driver, nodes: seq<Node>, b: byte, data: seq<byte>, k: nat): Bus
    requires s.Valid() && k <= |data| && Listening(nodes, b, |data|)
  {
    ListeningForLess(nodes, b, |data|, k);
    Bus(Writing, Acknowledged(s, k), AllWritten(nodes, b, data[..k]))
  }

  lemma WriteCycle(s: M.Driver, nodes: seq<Node>, b: byte, data: seq<byte>, k: nat)
    requires Sends(s, b, data) && Listening(nodes, b, |data|) && Heard(nodes, b) && k < |data|
    ensures WritingBus(s, nodes, b, data, k).Valid()
    ensures WritingBus(s, nodes, b, data, k).Cycle() == WritingBus(s, nodes, b, data, k + 1)
  {
    hide Node.On, Node.Hears, Node.Acks, Written, RoomFor, M.Driver.Isr, ByteFrom;
    var bus := WritingBus(s, nodes, b, data, k);
    assert s.txBuffer[k + 1] == ([b] + data)[k + 1];
    assert bus.master.twdr == data[k];
    ListeningForLess(nodes, b, |data|, k + 1);
    EveryoneHearsByte(nodes, b, data[..k], data[k]);
    assert data[..k] + [data[k]] == data[..k + 1];
    AcknowledgedStep(s, k, bus.ByteRead());
  }

  lemma {:induction false} WriteCycles(s: M.Driver, nodes: seq<Node>, b: byte, data: seq<byte>, k: nat)
    requires Sends(s, b, data) && Listening(nodes, b, |data|) && Heard(nodes, b) && k <= |data|
    ensures WritingBus(s, nodes, b, data, 0).Valid()
    ensures WritingBus(s, nodes, b, data, 0).Cycles(k) == WritingBus(s, nodes, b, data, k)
  {
    hide Bus.Cycle, Node.Hears, Written, RoomFor, Heard, Sends;
    if k > 0 {
      WriteCycles(s, nodes, b, data, k - 1);
      WriteCycle(s, nodes, b, data, k - 1);
    }
  }

  lemma {:induction false} CyclesAdd(bus: Bus, j: nat, k: nat)
    requires bus.Valid()
    ensures bus.Cycles(j + k) == bus.Cycles(j).Cycles(k)
  {
    hide Bus.Cycle;
    if k > 0 {
      CyclesAdd(bus, j, k - 1);
    }
  }

  lemma StartCycle(s: M.Driver, nodes: seq<Node>, b: byte, data: seq<byte>)
    requires Sends(s, b, data) && Listening(nodes, b, |data|)
    ensures var bus := Bus(Free, s, nodes);
      bus.Valid() && bus.Cycle() == Bus(Started, M.Sending(s, 1), nodes) && M.Sending(s, 1).twdr == b
  {
    hide Node.Hears, RoomFor;
    ListeningForLess(nodes, b, |data|, 0);
    EveryoneHearsAddress(nodes, b);
    assert s.txBuffer[0] == ([b] + data)[0];
    hide Node.On, M.Driver.Isr;
    StartStep(s, ByteFrom(nodes));
  }

  lemma StartStep(s: M.Driver, x: byte)
    requires M.IsSender(s)
    ensures s.Isr(M.START, x) == M.Sending(s, 1)
    ensures M.Sending(s, 1).Isr(M.MT_SLA_ACK, x) == Acknowledged(s, 0)
  {
  }

  lemma AddressCycle(s: M.Driver, nodes: seq<Node>, b: byte, data: seq<byte>)
    requires Sends(s, b, data) && Listening(nodes, b, |data|) && M.Sending(s, 1).twdr == b
    ensures var bus := Bus(Started, M.Sending(s, 1), nodes);
      && bus.Valid()
      && bus.Cycle() == if Heard(nodes, b) then WritingBus(s, nodes, b, data, 0)
                        else Bus(Writing, M.Sending(s, 1).Finish(M.Failed(M.MT_SLA_NACK)), nodes)
  {
    hide Node.On, Node.Hears, Written, RoomFor, ByteFrom;
    var bus := Bus(Started, M.Sending(s, 1), nodes);
    ListeningForLess(nodes, b, |data|, 0);
    EveryoneHearsAddress(nodes, b);
    assert data[..0] == [];
    assert bus.Acked(Address(b)) <==> Heard(nodes, b);
    StartStep(s, bus.ByteRead());
    if !Heard(nodes, b) {
      NobodyHearsAddress(nodes, b);
    }
  }

  lemma EndCycle(phase: Phase, master: M.Driver, nodes: seq<Node>)
    requires phase != Free && master.Valid() && forall i | 0 <= i < |nodes| :: nodes[i].driver.Valid()
    requires master.control == M.Stop
    ensures var bus := Bus(phase, master, nodes);
      && bus.Valid() && bus.Cycle() == Bus(Free, master.(control := M.Nothing), Everyone(nodes, End))
  {
  }

  lemma {:induction false} NothingHappens(bus: Bus, k: nat)
    requires bus.Valid() && bus.master.control == M.Nothing
    ensures bus.Cycles(k) == bus
  {
    if k > 0 {
      NothingHappens(bus, k - 1);
    }
  }

  /**
   The master sends `data` in as many cycles as there are bytes, and three more. Every slave that
   listens to the address ends up with exactly those bytes after what it already had, the others as
   they were. If none listens, the transfer fails and no slave changes.
   */
  lemma SendDelivers(bus: Bus, addr: byte, data: seq<byte>)
    requires bus.AtRest() && |data| <= M.TW_TX_MAX_LEN && Listening(bus.nodes, M.AddrWrite(addr), |data|)
    ensures var b, s := M.AddrWrite(addr), bus.master.Send(addr, data, false);
      var r := bus.(master := s).Cycles(|data| + 3);
      && r.AtRest() && r.nodes == AllTold(bus.nodes, b, data)
      && (Heard(bus.nodes, b) ==> r.master == Sent(s).(control := M.Nothing))
      && (!Heard(bus.nodes, b) ==>
          r.nodes == bus.nodes
          && r.master == M.Sending(s, 1).Finish(M.Failed(M.MT_SLA_NACK)).(control := M.Nothing))
  {
    var b, s := M.AddrWrite(addr), bus.master.Send(addr, data, false);
    M.SendBegins(bus.master, addr, data);
    assert Sends(s, b, data);
    hide M.Driver.Send, M.Sending, M.IsSender, Bus.AtRest, Bus.Cycles, Bus.Valid, Sends, Heard, Listening, Sent;
    SendingRuns(s, bus.nodes, b, data);
    if Heard(bus.nodes, b) {
      SentIsAtRest(s, bus.nodes, b, data);
    } else {
      NobodyIsTold(bus.nodes, b, data);
      ListeningForLess(bus.nodes, b, |data|, 0);
      RefusedIsAtRest(s, bus.nodes, b);
    }
  }

  function SentBus(s: M.Driver, nodes: seq<Node>, b: byte, data: seq<byte>): Bus
    requires s.Valid() && Listening(nodes, b, |data|)
  {
    Bus(Free, Sent(s).(control := M.Nothing), AllTold(nodes, b, data))
  }

  function RefusedBus(s: M.Driver, nodes: seq<Node>): Bus
    requires M.IsSender(s)
  {
    Bus(Free, M.Sending(s, 1).Finish(M.Failed(M.MT_SLA_NACK)).(control := M.Nothing), nodes)
  }

  lemma WritingEnds(s: M.Driver, nodes: seq<Node>, b: byte, data: seq<byte>)
    requires Sends(s, b, data) && Listening(nodes, b, |data|) && Heard(nodes, b)
    ensures WritingBus(s, nodes, b, data, 0).Valid()
    ensures WritingBus(s, nodes, b, data, 0).Cycles(|data| + 1) == SentBus(s, nodes, b, data)
  {
    WriteCycles(s, nodes, b, data, |data|);
    hide Bus.Cycle, Node.Hears, Written, Told, RoomFor, Heard, Node.On;
    assert data[..|data|] == data;
    var last := WritingBus(s, nodes, b, data, |data|);
    EndCycle(Writing, last.master, last.nodes);
    EveryoneHearsEnd(nodes, b, data);
  }

  lemma RefusalEnds(s: M.Driver, nodes: seq<Node>, b: byte, n: nat)
    requires M.IsSender(s) && Listening(nodes, b, 0) && !Heard(nodes, b)
    ensures var bus := Bus(Writing, M.Sending(s, 1).Finish(M.Failed(M.MT_SLA_NACK)), nodes);
      bus.Valid() && bus.Cycles(n + 1) == RefusedBus(s, nodes)
  {
    var bus := Bus(Writing, M.Sending(s, 1).Finish(M.Failed(M.MT_SLA_NACK)), nodes);
    EndCycle(Writing, bus.master, nodes);
    NobodyHearsAddress(nodes, b);
    hide Bus.Cycle, Node.Hears, RoomFor, Heard, Node.On;
    assert bus.Cycle() == RefusedBus(s, nodes);
    TwoCycles(bus);
    CyclesAdd(bus, 1, n);
    NothingHappens(bus.Cycle(), n);
  }

  lemma SendingRuns(s: M.Driver, nodes: seq<Node>, b: byte, data: seq<byte>)
    requires Sends(s, b, data) && Listening(nodes, b, |data|)
    ensures var start := Bus(Free, s, nodes);
      && start.Valid()
      && start.Cycles(|data| + 3) == if Heard(nodes, b) then SentBus(s, nodes, b, data) else RefusedBus(s, nodes)
  {
    hide Bus.Cycle, Bus.Cycles, Node.Hears, RoomFor, Heard, M.Sending;
    var start := Bus(Free, s, nodes);
    StartCycle(s, nodes, b, data);
    AddressCycle(s, nodes, b, data);
    TwoCyclesFirst(start, |data| + 1);
    if Heard(nodes, b) {
      WritingEnds(s, nodes, b, data);
    } else {
      ListeningForLess(nodes, b, |data|, 0);
      RefusalEnds(s, nodes, b, |data|);
    }
  }

  lemma TwoCycles(bus: Bus)
    requires bus.Valid()
    ensures bus.Cycles(1) == bus.Cycle() && bus.Cycles(2) == bus.Cycle().Cycle()
  {
    assert bus.Cycles(0) == bus;
    assert bus.Cycles(1) == bus.Cycles(0).Cycle();
    assert bus.Cycles(2) == bus.Cycles(1).Cycle();
  }

  lemma TwoCyclesFirst(bus: Bus, k: nat)
    requires bus.Valid()
    ensures bus.Cycles(k + 2) == bus.Cycle().Cycle().Cycles(k)
  {
    TwoCycles(bus);
    CyclesAdd(bus, 2, k);
  }

  lemma NobodyIsTold(nodes: seq<Node>, b: byte, data: seq<byte>)
    requires Listening(nodes, b, |data|) && !Heard(nodes, b)
    ensures AllTold(nodes, b, data) == nodes
  {
  }

  lemma SentIsAtRest(s: M.Driver, nodes: seq<Node>, b: byte, data: seq<byte>)
    requires M.IsSender(s) && Listening(nodes, b, |data|)
    ensures SentBus(s, nodes, b, data).AtRest()
  {
  }

  lemma RefusedIsAtRest(s: M.Driver, nodes: seq<Node>, b: byte)
    requires M.IsSender(s) && Listening(nodes, b, 0)
    ensures RefusedBus(s, nodes).AtRest()
  {
  }

  // ----- The master reads

  /** Slave `i`, and no other, answers to the address, and its driver can supply `n` bytes. */
  predicate OnlyReader(nodes: seq<Node>, b: byte, i: nat, n: nat) {
    && i < |nodes| && nodes[i].Hears(b) && nodes[i].driver.txIdx + n <= S.TW_TX_MAX_LEN
    && forall j | 0 <= j < |nodes| ::
        nodes[j].driver.Valid() && nodes[j].role == Idle && (nodes[j].Hears(b) ==> j == i)
  }

  /** The slave once its address and `k` bytes have been acknowledged: the next byte is in its data register. */
  function Supplying(node: Node, k: nat): Node
    requires node.driver.Valid() && node.driver.txIdx + k < S.TW_TX_MAX_LEN
  {
    var d := node.driver;
    node.(role := Transmitter,
          driver := d.(mode := S.TRANSMITTING, error := S.Success, twdr := d.txBuffer[d.txIdx + k],
                       txIdx := d.txIdx + k + 1, control := S.Ack))
  }

  /** The slave after the last of `n` bytes: it succeeded if it had no more of them. */
  function Supplied(node: Node, n: nat): Node
    requires node.driver.Valid() && 0 < n && node.driver.txIdx + n <= S.TW_TX_MAX_LEN
  {
    var r := Supplying(node, n - 1);
    var e := if node.driver.txIdx + n >= node.driver.txSize then S.Success else S.Failed(S.ST_DATA_NACK);
    r.(role := Idle, driver := r.driver.(error := e, mode := S.READY, control := S.Deaf))
  }

  lemma {:induction false} ByteFromTheReader(nodes: seq<Node>, i: nat)
    requires i < |nodes| && nodes[i].role == Transmitter
    requires forall j | 0 <= j < |nodes| && j != i :: nodes[j].role == Idle
    ensures ByteFrom(nodes) == nodes[i].driver.twdr
  {
    if i > 0 {
      ByteFromTheReader(nodes[1..], i - 1);
    }
  }

  lemma EveryoneAddressed(nodes: seq<Node>, b: byte, i: nat, n: nat)
    requires OnlyReader(nodes, b, i, n) && b % 2 == 1 && 0 < n
    ensures Everyone(nodes, Begin) == nodes
    ensures Everyone(nodes, Address(b)) == nodes[i := Supplying(nodes[i], 0)]
    ensures nodes[i].Acks(Address(b))
  {
  }

  lemma EveryoneSupplies(nodes: seq<Node>, b: byte, i: nat, n: nat, k: nat)
    requires OnlyReader(nodes, b, i, n) && k < n
    ensures var now := nodes[i := Supplying(nodes[i], k)];
      && (forall j | 0 <= j < |now| :: now[j].driver.Valid())
      && ByteFrom(now) == nodes[i].driver.txBuffer[nodes[i].driver.txIdx + k]
      && (k + 1 < n ==> Everyone(now, Read(true)) == nodes[i := Supplying(nodes[i], k + 1)])
      && (k + 1 == n ==> Everyone(now, Read(false)) == nodes[i := Supplied(nodes[i], n)])
  {
    hide Node.Hears;
    ByteFromTheReader(nodes[i := Supplying(nodes[i], k)], i);
  }

  lemma EveryoneEnds(nodes: seq<Node>)
    requires forall j | 0 <= j < |nodes| :: nodes[j].driver.Valid() && nodes[j].role == Idle
    ensures Everyone(nodes, End) == nodes
  {
  }

  /** The receiver `s` once the START has been sent, and once the bytes `got` have arrived. */
  function Asking(s: M.Driver): M.Driver
    requires s.Valid()
  {
    s.(twdr := s.txBuffer[0], txIdx := 1, error := M.NoInfo, control := M.Transfer(false))
  }

  function Fetching(s: M.Driver, got: seq<byte>): M.Driver
    requires s.Valid() && |got| <= |s.rxBuffer|
  {
    s.(twdr := if got == [] then s.txBuffer[0] else got[|got| - 1], txIdx := 1, error := M.NoInfo,
       mode := M.RECEIVING, rxBuffer := got + s.rxBuffer[|got|..], rxIdx := |got|,
       control := M.Transfer(|got| + 1 < s.rxSize))
  }

  function Fetched(s: M.Driver, got: seq<byte>): M.Driver
    requires s.Valid() && |got| <= |s.rxBuffer|
  {
    Fetching(s, got).(mode := M.READY, error := M.Success, control := M.Stop)
  }

  lemma AskingSteps(s: M.Driver, x: byte)
    requires M.IsReceiver(s)
    ensures s.Isr(M.START, x) == Asking(s)
    ensures Asking(s).Valid() && Asking(s).Isr(M.MR_SLA_ACK, x) == Fetching(s, [])
    ensures Asking(s).Isr(M.MR_SLA_NACK, x) == Asking(s).Finish(M.Failed(M.MR_SLA_NACK))
  {
    assert [] + s.rxBuffer[0..] == s.rxBuffer;
    M.AllButTheLastAreWanted(0, s.rxSize);
  }

  lemma FetchingSteps(s: M.Driver, got: seq<byte>, x: byte)
    requires M.IsReceiver(s) && |got| < s.rxSize
    ensures Fetching(s, got).Valid() && Fetching(s, got).HasRoom(M.MR_DATA_ACK)
    ensures |got| + 1 < s.rxSize ==> Fetching(s, got).Isr(M.MR_DATA_ACK, x) == Fetching(s, got + [x])
    ensures |got| + 1 == s.rxSize ==> Fetching(s, got).Isr(M.MR_DATA_NACK, x) == Fetched(s, got + [x])
  {
    M.StoreKeepsTheRest(s, Fetching(s, got), got, x);
    M.AllButTheLastAreWanted(|got| + 1, s.rxSize);
  }

  function Supply(node: Node, k: nat): seq<byte>
    requires node.driver.Valid() && node.driver.txIdx + k <= S.TW_TX_MAX_LEN
  {
    node.driver.txBuffer[node.driver.txIdx..node.driver.txIdx + k]
  }

  function ReadingBus(s: M.Driver, nodes: seq<Node>, b: byte, i: nat, k: nat): Bus
    requires M.IsReceiver(s) && OnlyReader(nodes, b, i, s.rxSize) && k < s.rxSize
  {
    Bus(Reading, Fetching(s, Supply(nodes[i], k)), nodes[i := Supplying(nodes[i], k)])
  }

  function ReadBus(s: M.Driver, nodes: seq<Node>, b: byte, i: nat): Bus
    requires M.IsReceiver(s) && OnlyReader(nodes, b, i, s.rxSize)
  {
    Bus(Reading, Fetched(s, Supply(nodes[i], s.rxSize)), nodes[i := Supplied(nodes[i], s.rxSize)])
  }

  lemma ReadCycle(s: M.Driver, nodes: seq<Node>, b: byte, i: nat, k: nat)
    requires M.IsReceiver(s) && OnlyReader(nodes, b, i, s.rxSize) && k < s.rxSize
    ensures ReadingBus(s, nodes, b, i, k).Valid()
    ensures ReadingBus(s, nodes, b, i, k).Cycle() ==
      if k + 1 < s.rxSize then ReadingBus(s, nodes, b, i, k + 1) else ReadBus(s, nodes, b, i)
  {
    hide Node.On, Node.Hears, M.Driver.Isr, ByteFrom, Supplying, Supplied;
    var bus := ReadingBus(s, nodes, b, i, k);
    EveryoneSupplies(nodes, b, i, s.rxSize, k);
    FetchingSteps(s, Supply(nodes[i], k), bus.ByteRead());
    assert Supply(nodes[i], k) + [bus.ByteRead()] == Supply(nodes[i], k + 1);
  }

  lemma {:induction false} ReadCycles(s: M.Driver, nodes: seq<Node>, b: byte, i: nat, k: nat)
    requires M.IsReceiver(s) && OnlyReader(nodes, b, i, s.rxSize) && k < s.rxSize
    ensures ReadingBus(s, nodes, b, i, 0).Valid()
    ensures ReadingBus(s, nodes, b, i, 0).Cycles(k) == ReadingBus(s, nodes, b, i, k)
  {
    hide Bus.Cycle, OnlyReader, Fetching, Supplying, Supply;
    ReadCycle(s, nodes, b, i, k);
    if k > 0 {
      ReadCycles(s, nodes, b, i, k - 1);
      ReadCycle(s, nodes, b, i, k - 1);
    }
  }

  lemma AskCycle(s: M.Driver, nodes: seq<Node>)
    requires M.IsReceiver(s) && forall j | 0 <= j < |nodes| :: nodes[j].driver.Valid() && nodes[j].role == Idle
    ensures var bus := Bus(Free, s, nodes); bus.Valid() && bus.Cycle() == Bus(Started, Asking(s), nodes)
  {
    hide M.Driver.Isr;
    var bus := Bus(Free, s, nodes);
    AskingSteps(s, bus.ByteRead());
    assert Everyone(nodes, Begin) == nodes;
  }

  lemma AnswerCycle(s: M.Driver, nodes: seq<Node>, i: nat)
    requires M.IsReceiver(s) && OnlyReader(nodes, s.txBuffer[0], i, s.rxSize)
    ensures var bus := Bus(Started, Asking(s), nodes);
      && bus.Valid() && bus.Cycle() == ReadingBus(s, nodes, s.txBuffer[0], i, 0)
  {
    hide M.Driver.Isr, Node.On, Node.Hears, Node.Acks, ByteFrom, Supplying;
    var bus, b := Bus(Started, Asking(s), nodes), s.txBuffer[0];
    AskingSteps(s, bus.ByteRead());
    EveryoneAddressed(nodes, b, i, s.rxSize);
    assert bus.Acked(Address(b));
    assert Supply(nodes[i], 0) == [];
  }

  predicate NobodyHears(nodes: seq<Node>, b: byte) {
    forall j | 0 <= j < |nodes| :: nodes[j].driver.Valid() && nodes[j].role == Idle && !nodes[j].Hears(b)
  }

  lemma NoAnswerCycle(s: M.Driver, nodes: seq<Node>)
    requires M.IsReceiver(s) && NobodyHears(nodes, s.txBuffer[0])
    ensures var bus := Bus(Started, Asking(s), nodes);
      && bus.Valid() && bus.Cycle() == Bus(Reading, Asking(s).Finish(M.Failed(M.MR_SLA_NACK)), nodes)
  {
    hide M.Driver.Isr, ByteFrom;
    var bus, b := Bus(Started, Asking(s), nodes), s.txBuffer[0];
    AskingSteps(s, bus.ByteRead());
    assert Everyone(nodes, Address(b)) == nodes;
    assert !bus.Acked(Address(b));
  }

  lemma ReadingRuns(s: M.Driver, nodes: seq<Node>, i: nat)
    requires M.IsReceiver(s) && OnlyReader(nodes, s.txBuffer[0], i, s.rxSize)
    ensures var start, last := Bus(Free, s, nodes), ReadBus(s, nodes, s.txBuffer[0], i);
      && start.Valid()
      && start.Cycles(s.rxSize + 3) == Bus(Free, last.master.(control := M.Nothing), last.nodes)
  {
    hide Bus.Cycle, Bus.Cycles, Fetching, Fetched, Supplying, Supplied, Supply, Asking, Node.Hears;
    AskCycle(s, nodes);
    AnswerCycle(s, nodes, i);
    TwoCyclesFirst(Bus(Free, s, nodes), s.rxSize + 1);
    ReadingEnds(s, nodes, s.txBuffer[0], i);
  }

  lemma ReadingEnds(s: M.Driver, nodes: seq<Node>, b: byte, i: nat)
    requires M.IsReceiver(s) && OnlyReader(nodes, b, i, s.rxSize)
    ensures var first, last := ReadingBus(s, nodes, b, i, 0), ReadBus(s, nodes, b, i);
      first.Valid() && first.Cycles(s.rxSize + 1) == Bus(Free, last.master.(control := M.Nothing), last.nodes)
  {
    hide Bus.Cycle, Bus.Cycles, OnlyReader, Fetching, Fetched, Supplying, Supplied, Supply;
    var n := s.rxSize;
    ReadCycles(s, nodes, b, i, n - 1);
    ReadCycle(s, nodes, b, i, n - 1);
    ReadEndCycle(s, nodes, b, i);
    LastTwoCycles(ReadingBus(s, nodes, b, i, 0), n - 1);
  }

  lemma ReadEndCycle(s: M.Driver, nodes: seq<Node>, b: byte, i: nat)
    requires M.IsReceiver(s) && OnlyReader(nodes, b, i, s.rxSize)
    ensures var last := ReadBus(s, nodes, b, i);
      last.Valid() && last.Cycle() == Bus(Free, last.master.(control := M.Nothing), last.nodes)
  {
    var last := ReadBus(s, nodes, b, i);
    EveryoneEnds(last.nodes);
    EndCycle(Reading, last.master, last.nodes);
  }

  lemma LastTwoCycles(bus: Bus, k: nat)
    requires bus.Valid()
    ensures bus.Cycles(k + 2) == bus.Cycles(k).Cycle().Cycle()
  {
    CyclesAdd(bus, k, 2);
    TwoCycles(bus.Cycles(k));
  }

  lemma NoAnswerRuns(s: M.Driver, nodes: seq<Node>)
    requires M.IsReceiver(s) && NobodyHears(nodes, s.txBuffer[0])
    ensures var start := Bus(Free, s, nodes);
      && start.Valid()
      && start.Cycles(s.rxSize + 3) ==
         Bus(Free, Asking(s).Finish(M.Failed(M.MR_SLA_NACK)).(control := M.Nothing), nodes)
  {
    var refused := Asking(s).Finish(M.Failed(M.MR_SLA_NACK));
    AskCycle(s, nodes);
    NoAnswerCycle(s, nodes);
    EveryoneEnds(nodes);
    EndCycle(Reading, refused, nodes);
    hide Bus.Cycle, Bus.Cycles, Bus.Valid, NobodyHears, Asking;
    var start, bus := Bus(Free, s, nodes), Bus(Reading, refused, nodes);
    TwoCyclesFirst(start, s.rxSize + 1);
    CyclesAdd(bus, 1, s.rxSize);
    TwoCycles(bus);
    NothingHappens(bus.Cycle(), s.rxSize);
  }

  /**
   The master reads `n` bytes, in `n + 3` cycles. It gets the next `n` bytes of the one slave that
   answers; both drivers are ready again, the master's with success, and the slave's with success
   exactly if it had queued no more. No other slave changes.
   */
  lemma RecvDelivers(bus: Bus, addr: byte, buf: seq<byte>, n: nat, i: nat)
    requires bus.AtRest() && 0 < n <= M.TW_RX_MAX_LEN && n <= |buf|
    requires OnlyReader(bus.nodes, M.AddrRead(addr), i, n)
    ensures var r := bus.(master := bus.master.Recv(addr, buf, n, false)).Cycles(n + 3);
      && r.AtRest() && r.nodes == bus.nodes[i := Supplied(bus.nodes[i], n)]
      && r.master.error == M.Success && r.master.rxIdx == n
      && r.master.rxBuffer == Supply(bus.nodes[i], n) + buf[n..]
  {
    var s := bus.master.Recv(addr, buf, n, false);
    RecvBegins(bus.master, addr, buf, n);
    assert bus.(master := s) == Bus(Free, s, bus.nodes);
    hide M.Driver.Recv, M.Driver.Begin, M.IsReceiver, OnlyReader, Bus.Cycles, Bus.AtRest, Bus.Valid, Fetched, Supplied;
    ReadingRuns(s, bus.nodes, i);
    ReadIsAtRest(s, bus.nodes, M.AddrRead(addr), i);
  }

  lemma RecvBegins(d: M.Driver, addr: byte, buf: seq<byte>, n: nat)
    requires d.Valid() && d.mode == M.READY && 0 < n <= M.TW_RX_MAX_LEN && n <= |buf|
    ensures var s := d.Recv(addr, buf, n, false);
      M.IsReceiver(s) && s.txBuffer[0] == M.AddrRead(addr) && s.rxSize == n && s.rxBuffer == buf
  {
  }

  lemma ReadIsAtRest(s: M.Driver, nodes: seq<Node>, b: byte, i: nat)
    requires M.IsReceiver(s) && OnlyReader(nodes, b, i, s.rxSize)
    ensures var last := ReadBus(s, nodes, b, i);
      && Bus(Free, last.master.(control := M.Nothing), last.nodes).AtRest()
      && last.master.error == M.Success && last.master.rxIdx == s.rxSize
      && last.master.rxBuffer == Supply(nodes[i], s.rxSize) + s.rxBuffer[s.rxSize..]
  {
    hide Node.Hears;
  }

  /** A read that no slave answers brings nothing and changes no slave. */
  lemma RecvFromNobody(bus: Bus, addr: byte, buf: seq<byte>, n: nat)
    requires bus.AtRest() && 0 < n <= M.TW_RX_MAX_LEN && n <= |buf| && NobodyHears(bus.nodes, M.AddrRead(addr))
    ensures var r := bus.(master := bus.master.Recv(addr, buf, n, false)).Cycles(n + 3);
      && r.AtRest() && r.nodes == bus.nodes
      && r.master.error == M.Failed(M.MR_SLA_NACK) && r.master.rxIdx == 0 && r.master.rxBuffer == buf
  {
    var s := bus.master.Recv(addr, buf, n, false);
    NoAnswerRuns(s, bus.nodes);
  }

  // ----- Both ends

  /** A slave in `twi_recv` with an empty buffer returns the number of bytes sent and holds exactly those. */
  lemma ReceiverHoldsWhatWasSent(node: Node, d: S.Driver, buf: seq<byte>, b: byte, data: seq<byte>)
    requires d.Valid() && node.driver == d.Recv(buf, S.TW_RX_MAX_LEN) && node.Hears(b) && |data| <= |buf|
    ensures RoomFor(node, b, |data|)
    ensures var r := Told(node, b, data).driver;
      r.mode == S.READY && r.rxIdx == |data| && r.rxBuffer == data + buf[|data|..]
  {
    assert buf[..0] + data + buf[|data|..] == data + buf[|data|..];
  }

  /** The master gets what the slave queued with `twi_send`, if it asks for just as many bytes; both succeed. */
  lemma ReaderGetsWhatWasQueued(bus: Bus, addr: byte, buf: seq<byte>, data: seq<byte>, i: nat, d: S.Driver)
    requires bus.AtRest() && 0 < |data| <= M.TW_RX_MAX_LEN && |data| <= |buf| && d.Valid()
    requires i < |bus.nodes| && bus.nodes[i].driver == d.Send(data)
    requires OnlyReader(bus.nodes, M.AddrRead(addr), i, |data|)
    ensures var r := bus.(master := bus.master.Recv(addr, buf, |data|, false)).Cycles(|data| + 3);
      && r.AtRest() && r.master.error == M.Success && r.master.rxIdx == |data|
      && r.master.rxBuffer == data + buf[|data|..]
      && r.nodes[i].driver.mode == S.READY && r.nodes[i].driver.error == S.Success
      && forall j | 0 <= j < |bus.nodes| && j != i :: r.nodes[j] == bus.nodes[j]
  {
    hide Bus.Cycles;
    RecvDelivers(bus, addr, buf, |data|, i);
    assert Supply(bus.nodes[i], |data|) == data;
  }

  // ----- The bus raises only what the master expects

  /** The last status of a transfer in the given phase, if no address and no byte has been refused. */
  predicate LastStatus(phase: Phase, last: Option<M.Status>) {
    match phase
    case Free => last == None
    case Started => last == Some(M.START)
    case Writing => last in {Some(M.MT_SLA_ACK), Some(M.MT_DATA_ACK)}
    case Reading => last in {Some(M.MR_SLA_ACK), Some(M.MR_DATA_ACK)}
  }

  /** One cycle reports what may follow the status before. */
  lemma BusIsLegal(bus: Bus, last: Option<M.Status>)
    requires bus.Valid() && LastStatus(bus.phase, last)
    requires bus.Next().Some? && bus.Next() != Some(End)
    ensures M.MayFollow(last, bus.master, bus.Reported(bus.Next().value))
  {
  }

  /** The interrupt that the next cycle brings to the master, if any. */
  function Report(bus: Bus): seq<M.Interrupt> {
    match bus.Next()
    case None => []
    case Some(End) => []
    case Some(e) => [M.Interrupt(bus.Reported(e), bus.ByteRead())]
  }

  /** The interrupts of the first `k` cycles. */
  function Reports(bus: Bus, k: nat): seq<M.Interrupt>
    requires bus.Valid()
  {
    if k == 0 then [] else Reports(bus, k - 1) + Report(bus.Cycles(k - 1))
  }

  /** A bus on which the transfer of `s` is under way, or over. */
  predicate InTransfer(s: M.Driver, bus: Bus, ints: seq<M.Interrupt>)
    requires s.Valid() && bus.Valid()
  {
    && M.Legal(s, ints)
    && if bus.phase == Free && bus.master.control == M.Nothing then
        bus.master == M.After(s, ints).(control := M.Nothing)
      else
        && bus.master == M.After(s, ints)
        && (bus.master.control.Transfer? || bus.phase == Free ==> LastStatus(bus.phase, M.LastOf(ints)))
  }

  lemma CycleKeepsTransfer(s: M.Driver, bus: Bus, ints: seq<M.Interrupt>)
    requires s.Valid() && bus.Valid() && M.NeverOverruns(s) && InTransfer(s, bus, ints)
    requires bus.Next() == None || bus.Next() == Some(End)
    ensures InTransfer(s, bus.Cycle(), ints)
  {
    hide M.Legal, M.After, M.NeverOverruns, M.LastOf, Everyone;
  }

  lemma StatusFits(bus: Bus, e: Event)
    requires bus.Valid() && bus.Next() == Some(e) && e != End
    requires bus.master.HasRoom(bus.Reported(e))
    ensures bus.NewPhase(e) != Free
    ensures bus.MasterOn(e).control.Transfer? ==> LastStatus(bus.NewPhase(e), Some(bus.Reported(e)))
  {
    hide Bus.Acked, ByteFrom;
  }

  lemma ReportKeepsTransfer(s: M.Driver, bus: Bus, ints: seq<M.Interrupt>, e: Event)
    requires s.Valid() && bus.Valid() && M.NeverOverruns(s) && InTransfer(s, bus, ints)
    requires bus.Next() == Some(e) && e != End
    ensures InTransfer(s, bus.Cycle(), ints + [M.Interrupt(bus.Reported(e), bus.ByteRead())])
  {
    var i := M.Interrupt(bus.Reported(e), bus.ByteRead());
    assert M.Legal(s, ints) && bus.master == M.After(s, ints) && LastStatus(bus.phase, M.LastOf(ints));
    BusIsLegal(bus, M.LastOf(ints));
    M.OneMore(s, ints, i);
    assert bus.master.HasRoom(i.status);
    StatusFits(bus, e);
    hide M.Legal, M.After, M.Loaded, Everyone, M.LastOf, M.LoadedBy, M.Driver.Isr, M.MayFollow, M.NeverOverruns;
    hide Bus.Reported, Bus.NewPhase, Bus.Next, LastStatus;
  }

  lemma TransferGoesOn(s: M.Driver, bus: Bus, ints: seq<M.Interrupt>)
    requires s.Valid() && bus.Valid() && M.NeverOverruns(s) && InTransfer(s, bus, ints)
    ensures InTransfer(s, bus.Cycle(), ints + Report(bus))
  {
    hide M.NeverOverruns, InTransfer, Bus.Cycle, Bus.Next, Bus.Reported;
    if bus.Next() == None || bus.Next() == Some(End) {
      CycleKeepsTransfer(s, bus, ints);
      assert ints + [] == ints;
    } else {
      ReportKeepsTransfer(s, bus, ints, bus.Next().value);
    }
  }

  /**
   Over any number of cycles, what the bus reports to the master is one of the legal interrupt sequences
   of the master's own theorems, and the master is where that sequence leads.
   */
  lemma {:induction false} BusRunsAreLegal(bus: Bus, k: nat)
    requires bus.Valid() && bus.phase == Free && bus.master.control == M.Start && M.NeverOverruns(bus.master)
    ensures InTransfer(bus.master, bus.Cycles(k), Reports(bus, k))
    decreases k
  {
    if k == 0 {
      M.NothingYet(bus.master);
    } else {
      hide InTransfer, Bus.Cycle, M.NeverOverruns, Report;
      BusRunsAreLegal(bus, k - 1);
      TransferGoesOn(bus.master, bus.Cycles(k - 1), Reports(bus, k - 1));
    }
  }
}
