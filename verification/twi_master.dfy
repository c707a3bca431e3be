/** The master's I2C driver: master transmitter and master receiver, driven by the TWI interrupt. */
module TwiMaster {
  import opened Bytes

  const TW_TX_MAX_LEN := 32
  const TW_RX_MAX_LEN := 32

  /** The status codes of the TWI hardware that concern a master. */
  datatype Status =
    | START | REP_START
    | MT_SLA_ACK | MT_SLA_NACK | MT_DATA_ACK | MT_DATA_NACK | MT_ARB_LOST
    | MR_SLA_ACK | MR_SLA_NACK | MR_DATA_ACK | MR_DATA_NACK
    | NO_INFO | BUS_ERROR

  datatype Mode = READY | REPEATED_START | INITIALIZING | TRANSMITTING | RECEIVING

  datatype Error = Success | NoInfo | Failed(status: Status)

  /** What the last write to TWCR asks the hardware for. A transfer says whether an incoming byte is acknowledged. */
  datatype Control = Nothing | Start | Stop | Transfer(ack: bool)

  /** `twi_addr_write`: eight bits, so an address counts modulo 128. */
  function AddrWrite(addr: byte): byte {
    2 * addr % 256
  }

  function AddrRead(addr: byte): byte {
    2 * addr % 256 + 1
  }

  /** `rx_idx < rx_size - 1` in 16-bit unsigned arithmetic. */
  predicate WantsMore(rxIdx: nat, rxSize: nat) {
    rxIdx < (rxSize - 1) % 0x1_0000
  }

  /** Asked for no byte at all, the driver acknowledges every byte; asked for one or more, all but the last. */
  lemma AllButTheLastAreWanted(rxIdx: nat, rxSize: nat)
    requires rxSize <= TW_RX_MAX_LEN && rxIdx < 0xFFFF
    ensures WantsMore(rxIdx, rxSize) <==> rxSize == 0 || rxIdx + 1 < rxSize
  {
    if rxSize == 0 {
      assert (-1) % 0x1_0000 == 0xFFFF;
    }
  }

  /** The static variables of the driver, the caller's receive buffer, and the two registers it drives. */
  datatype Driver = Driver(
    mode: Mode, error: Error, repStart: bool,
    txBuffer: seq<byte>, txIdx: nat, txSize: nat,
    rxBuffer: seq<byte>, rxIdx: nat, rxSize: nat,
    twdr: byte, control: Control) {

    predicate Valid() {
      |txBuffer| == TW_TX_MAX_LEN + 1 && txIdx <= txSize <= |txBuffer|
    }

    predicate IsReady() {
      mode == READY || mode == REPEATED_START
    }

    /** `_twi_send`. */
    function Begin(size: nat, busLock: bool): Driver
      requires Valid() && 0 < size <= |txBuffer|
    {
      var d := this.(txSize := size, txIdx := 0, repStart := busLock, mode := INITIALIZING);
      if mode == REPEATED_START then d.(twdr := txBuffer[0], txIdx := 1, control := Transfer(false))
      else d.(control := Start)
    }

    /** `twi_send` on a ready driver. */
    function Send(addr: byte, data: seq<byte>, busLock: bool): Driver
      requires Valid() && |data| <= TW_TX_MAX_LEN
    {
      this.(txBuffer := [AddrWrite(addr)] + data + txBuffer[1 + |data|..]).Begin(1 + |data|, busLock)
    }

    /** The start of `twi_recv` on a ready driver. */
    function Recv(addr: byte, buf: seq<byte>, toRecv: nat, busLock: bool): Driver
      requires Valid()
    {
      this.(rxBuffer := buf, rxSize := toRecv, rxIdx := 0, txBuffer := txBuffer[0 := AddrRead(addr)])
          .Begin(1, busLock)
    }

    function NextByte(): Driver
      requires Valid()
    {
      if txIdx < txSize then
        this.(twdr := txBuffer[txIdx], txIdx := txIdx + 1, error := NoInfo, control := Transfer(false))
      else if repStart then this.(error := Success, control := Start)
      else this.(mode := READY, error := Success, control := Stop)
    }

    function Store(data: byte): Driver
      requires rxIdx < |rxBuffer|
    {
      this.(twdr := data, rxBuffer := rxBuffer[rxIdx := data], rxIdx := rxIdx + 1)
    }

    function AskForByte(): Driver {
      this.(mode := RECEIVING, error := NoInfo, control := Transfer(WantsMore(rxIdx, rxSize)))
    }

    function Finish(e: Error): Driver {
      if repStart then this.(error := e, control := Start)
      else this.(error := e, mode := READY, control := Stop)
    }

    /** The statuses that bring a byte find room for it. */
    predicate HasRoom(status: Status) {
      status == MR_DATA_ACK || status == MR_DATA_NACK ==> rxIdx < |rxBuffer|
    }

    /** `ISR(TWI_vect)`; `data` is what the hardware has put into TWDR. */
    function Isr(status: Status, data: byte): (d: Driver)
      requires Valid() && HasRoom(status)
      ensures d.Valid() && |d.rxBuffer| == |rxBuffer|
    {
      match status
      case MT_SLA_ACK => this.(mode := TRANSMITTING).NextByte()
      case START => NextByte()
      case MT_DATA_ACK => NextByte()
      case MR_DATA_ACK => Store(data).AskForByte()
      case MR_SLA_ACK => AskForByte()
      case MR_DATA_NACK => Store(data).Finish(Success)
      case MR_SLA_NACK => Finish(Failed(status))
      case MT_SLA_NACK => Finish(Failed(status))
      case MT_DATA_NACK => Finish(Failed(status))
      case MT_ARB_LOST => Finish(Failed(status))
      case REP_START => this.(mode := REPEATED_START)
      case NO_INFO => this
      case BUS_ERROR => this.(error := Failed(BUS_ERROR), mode := READY, control := Stop)
    }
  }

  // ----- The interrupts that may follow one another

  /** One interrupt: its status, and the byte in TWDR. */
  datatype Interrupt = Interrupt(status: Status, data: byte)

  /** What the hardware may report next, given the last status of this transfer and what the driver asked for. */
  predicate MayFollow(last: Option<Status>, d: Driver, next: Status) {
    match last
    case None => d.control == Start && next == START
    case Some(START) =>
      && d.control.Transfer?
      && (next in {MT_ARB_LOST, BUS_ERROR}
          || next in if d.twdr % 2 == 0 then {MT_SLA_ACK, MT_SLA_NACK} else {MR_SLA_ACK, MR_SLA_NACK})
    case Some(s) =>
      && d.control.Transfer?
      && if s == MT_SLA_ACK || s == MT_DATA_ACK then next in {MT_DATA_ACK, MT_DATA_NACK, MT_ARB_LOST, BUS_ERROR}
        else if s == MR_SLA_ACK || s == MR_DATA_ACK then
          next == BUS_ERROR || next == if d.control.ack then MR_DATA_ACK else MR_DATA_NACK
        else false
  }

  lemma NothingFollowsStop(last: Option<Status>, d: Driver, next: Status)
    ensures d.control == Stop ==> !MayFollow(last, d, next)
  {
  }

  function LastOf(ints: seq<Interrupt>): Option<Status> {
    if ints == [] then None else Some(ints[|ints| - 1].status)
  }

  predicate Legal(d: Driver, ints: seq<Interrupt>)
    requires d.Valid()
  {
    if ints == [] then true
    else
      var front := ints[..|ints| - 1];
      Legal(d, front) && MayFollow(LastOf(front), After(d, front), ints[|ints| - 1].status)
  }

  /** The driver after the interrupts; one that overran the receive buffer would end the run. */
  function After(d: Driver, ints: seq<Interrupt>): (r: Driver)
    requires d.Valid()
    ensures r.Valid()
  {
    if ints == [] then d
    else
      var r, i := After(d, ints[..|ints| - 1]), ints[|ints| - 1];
      if r.HasRoom(i.status) then r.Isr(i.status, i.data) else r
  }

  /** The byte that the driver puts on the bus when the interrupt comes. */
  function LoadedBy(d: Driver, status: Status): seq<byte>
    requires d.Valid()
  {
    if status in {START, MT_SLA_ACK, MT_DATA_ACK} && d.txIdx < d.txSize then [d.txBuffer[d.txIdx]] else []
  }

  function Loaded(d: Driver, ints: seq<Interrupt>): seq<byte>
    requires d.Valid()
  {
    if ints == [] then []
    else
      var front := ints[..|ints| - 1];
      Loaded(d, front) + LoadedBy(After(d, front), ints[|ints| - 1].status)
  }

  lemma OneMore(d: Driver, ints: seq<Interrupt>, i: Interrupt)
    requires d.Valid()
    ensures var r := After(d, ints);
      After(d, ints + [i]) == if r.HasRoom(i.status) then r.Isr(i.status, i.data) else r
    ensures Loaded(d, ints + [i]) == Loaded(d, ints) + LoadedBy(After(d, ints), i.status)
    ensures LastOf(ints + [i]) == Some(i.status)
    ensures Legal(d, ints + [i]) <==> Legal(d, ints) && MayFollow(LastOf(ints), After(d, ints), i.status)
  {
    assert (ints + [i])[..|ints + [i]| - 1] == ints;
  }

  lemma LastStep(d: Driver, ints: seq<Interrupt>) returns (front: seq<Interrupt>, i: Interrupt)
    requires d.Valid() && Legal(d, ints) && ints != []
    ensures ints == front + [i] && Legal(d, front) && After(d, front).control != Stop
    ensures MayFollow(LastOf(front), After(d, front), i.status)
  {
    front, i := ints[..|ints| - 1], ints[|ints| - 1];
    assert ints == front + [i];
  }

  // ----- Sending

  /** The sender `s` after `k` acknowledged bytes and the START before them, if nothing went wrong. */
  function Sending(s: Driver, k: nat): Driver
    requires s.Valid() && k <= s.txSize
  {
    if k == 0 then s
    else
      s.(twdr := s.txBuffer[k - 1], txIdx := k, error := NoInfo, control := Transfer(false),
         mode := if k == 1 then INITIALIZING else TRANSMITTING)
  }

  function SendingStatus(k: nat): Option<Status> {
    if k == 0 then None else if k == 1 then Some(START) else if k == 2 then Some(MT_SLA_ACK) else Some(MT_DATA_ACK)
  }

  predicate IsSender(s: Driver) {
    && s.Valid() && 0 < s.txSize && s.txIdx == 0 && !s.repStart && s.mode == INITIALIZING
    && s.control == Start && s.txBuffer[0] % 2 == 0
  }

  /** The outcome of a transfer whose last interrupt has the given status. */
  function Outcome(last: Status): Error {
    if last in {MT_SLA_ACK, MT_DATA_ACK, MR_DATA_NACK} then Success else Failed(last)
  }

  lemma SendingStep(s: Driver, k: nat, i: Interrupt)
    requires IsSender(s) && k <= s.txSize
    requires MayFollow(SendingStatus(k), Sending(s, k), i.status)
    ensures var d := Sending(s, k).Isr(i.status, i.data);
      || (k < s.txSize && d == Sending(s, k + 1) && Some(i.status) == SendingStatus(k + 1)
          && LoadedBy(Sending(s, k), i.status) == [s.txBuffer[k]])
      || (0 < k && d.mode == READY && d.control == Stop && d.error == Outcome(i.status)
          && (d.error == Success ==> k == s.txSize) && LoadedBy(Sending(s, k), i.status) == [])
    ensures Sending(s, k).HasRoom(i.status)
  {
  }

  predicate SendGoesOn(s: Driver, ints: seq<Interrupt>)
    requires s.Valid()
  {
    && |ints| <= s.txSize && LastOf(ints) == SendingStatus(|ints|) && Loaded(s, ints) == s.txBuffer[..|ints|]
    && After(s, ints) == Sending(s, |ints|)
  }

  predicate SendIsOver(s: Driver, ints: seq<Interrupt>)
    requires s.Valid() && ints != []
  {
    var d, k := After(s, ints), |ints| - 1;
    && d.mode == READY && d.control == Stop && d.error == Outcome(ints[k].status)
    && 0 < k <= s.txSize && Loaded(s, ints) == s.txBuffer[..k] && (d.error == Success ==> k == s.txSize)
  }

  lemma SendingExtends(s: Driver, ints: seq<Interrupt>, i: Interrupt)
    requires IsSender(s) && SendGoesOn(s, ints)
    requires MayFollow(LastOf(ints), After(s, ints), i.status)
    ensures SendGoesOn(s, ints + [i]) || SendIsOver(s, ints + [i])
  {
    hide MayFollow, After, Loaded, LoadedBy, LastOf, Sending, SendingStatus, Driver.Isr, Outcome;
    var k := |ints|;
    SendingStep(s, k, i);
    OneMore(s, ints, i);
    if k < s.txSize {
      assert s.txBuffer[..k + 1] == s.txBuffer[..k] + [s.txBuffer[k]];
    }
    assert s.txBuffer[..k] + [] == s.txBuffer[..k];
    assert (ints + [i])[k] == i;
  }

  lemma {:induction false} SendingInv(s: Driver, ints: seq<Interrupt>)
    requires IsSender(s) && Legal(s, ints)
    ensures SendGoesOn(s, ints) || (ints != [] && SendIsOver(s, ints))
  {
    if ints != [] {
      hide MayFollow, LastOf, Legal, Sending, SendingStatus;
      var front, i := LastStep(s, ints);
      SendingInv(s, front);
      assert SendGoesOn(s, front);
      SendingExtends(s, front, i);
    }
  }

  lemma SendBegins(d0: Driver, addr: byte, data: seq<byte>)
    requires d0.Valid() && d0.mode == READY && |data| <= TW_TX_MAX_LEN
    ensures var s := d0.Send(addr, data, false);
      IsSender(s) && s.txSize == 1 + |data| && s.txBuffer[..1 + |data|] == [AddrWrite(addr)] + data
  {
    var s := d0.Send(addr, data, false);
    assert s.txBuffer == [AddrWrite(addr)] + data + d0.txBuffer[1 + |data|..];
  }

  lemma LoadedIsPrefix(s: Driver, ints: seq<Interrupt>)
    requires IsSender(s) && Legal(s, ints)
    ensures var d, all := After(s, ints), s.txBuffer[..s.txSize];
      && Loaded(s, ints) <= all
      && (d.mode == READY && d.error == Success ==> Loaded(s, ints) == all)
      && (d.mode == READY ==> ints != [] && d.error == Outcome(ints[|ints| - 1].status) && d.control == Stop)
      && |ints| <= s.txSize + 1 && (|ints| == s.txSize + 1 ==> d.mode == READY)
  {
    hide Legal, After, Loaded, SendingStatus, LastOf, Outcome;
    SendingInv(s, ints);
    var m := if SendGoesOn(s, ints) then |ints| else |ints| - 1;
    assert s.txBuffer[..s.txSize][..m] == s.txBuffer[..m];
  }

  /**
   What the driver puts on the bus is always a prefix of the address byte and the data, and all of it
   once the transfer has succeeded. The transfer ends within two interrupts more than there are bytes,
   and succeeds exactly if its last byte was acknowledged.
   */
  lemma SendLoadsThePrefix(d0: Driver, addr: byte, data: seq<byte>, ints: seq<Interrupt>)
    requires d0.Valid() && d0.mode == READY && |data| <= TW_TX_MAX_LEN
    requires Legal(d0.Send(addr, data, false), ints)
    ensures var s := d0.Send(addr, data, false); var d := After(s, ints);
      && Loaded(s, ints) <= [AddrWrite(addr)] + data
      && (d.mode == READY && d.error == Success ==> Loaded(s, ints) == [AddrWrite(addr)] + data)
      && (d.mode == READY ==> ints != [] && d.error == Outcome(ints[|ints| - 1].status) && d.control == Stop)
      && |ints| <= |data| + 2 && (|ints| == |data| + 2 ==> d.mode == READY)
  {
    hide Legal, After, Loaded, Outcome, Driver.Send, IsSender;
    SendBegins(d0, addr, data);
    LoadedIsPrefix(d0.Send(addr, data, false), ints);
  }

  // ----- Receiving

  predicate IsReceiver(s: Driver) {
    && s.Valid() && s.txSize == 1 && s.txIdx == 0 && !s.repStart && s.mode == INITIALIZING
    && s.control == Start && s.txBuffer[0] % 2 == 1
    && s.rxIdx == 0 && 0 < s.rxSize <= TW_RX_MAX_LEN && s.rxSize <= |s.rxBuffer|
  }

  predicate BringsByte(status: Status) {
    status == MR_DATA_ACK || status == MR_DATA_NACK
  }

  /** The bytes that the hardware has handed over. */
  function Arrived(ints: seq<Interrupt>): seq<byte> {
    if ints == [] then []
    else
      var i := ints[|ints| - 1];
      Arrived(ints[..|ints| - 1]) + if BringsByte(i.status) then [i.data] else []
  }

  lemma OneMoreArrives(ints: seq<Interrupt>, i: Interrupt)
    ensures Arrived(ints + [i]) == if BringsByte(i.status) then Arrived(ints) + [i.data] else Arrived(ints)
  {
    assert (ints + [i])[..|ints + [i]| - 1] == ints;
  }

  /** Byte by byte in arrival order at the front of the caller's buffer; the rest is not touched. */
  predicate Stored(s: Driver, d: Driver, got: seq<byte>) {
    && |got| <= s.rxSize <= |s.rxBuffer| && d.rxIdx == |got|
    && d.rxBuffer == got + s.rxBuffer[|got|..]
  }

  lemma StoreKeepsTheRest(s: Driver, d: Driver, got: seq<byte>, b: byte)
    requires Stored(s, d, got) && |got| < s.rxSize
    ensures Stored(s, d.Store(b), got + [b])
  {
    assert s.rxBuffer[|got|..] == [s.rxBuffer[|got|]] + s.rxBuffer[|got| + 1..];
    assert (got + s.rxBuffer[|got|..])[|got| := b] == got + [b] + s.rxBuffer[|got| + 1..];
  }

  /** The receiver `s` after the START and, from the second interrupt on, the slave's answer. */
  predicate Receiving(s: Driver, d: Driver, k: nat, last: Option<Status>) {
    && d.Valid() && d.txSize == 1 && d.rxSize == s.rxSize && !d.repStart && !d.IsReady()
    && if k == 0 then d == s && last == None
      else if k == 1 then
        d.control.Transfer? && d.twdr % 2 == 1 && last == Some(START) && d.txIdx == 1
      else
        d.control == Transfer(k - 1 < s.rxSize) && last in {Some(MR_SLA_ACK), Some(MR_DATA_ACK)}
  }

  lemma ReceivingStep(s: Driver, d: Driver, k: nat, last: Option<Status>, got: seq<byte>, i: Interrupt)
    requires IsReceiver(s) && k <= s.rxSize + 1 && |got| == (if k < 2 then 0 else k - 2)
    requires Receiving(s, d, k, last) && Stored(s, d, got)
    requires MayFollow(last, d, i.status)
    ensures d.HasRoom(i.status)
    ensures var r := d.Isr(i.status, i.data);
      || (Receiving(s, r, k + 1, Some(i.status)) && k < s.rxSize + 1 && (BringsByte(i.status) <==> k >= 2))
      || (0 < k && r.mode == READY && r.control == Stop && r.error == Outcome(i.status)
          && (i.status == MR_DATA_NACK <==> r.error == Success) && (r.error == Success ==> k == s.rxSize + 1))
    ensures i.status == MR_SLA_NACK ==> k == 1
    ensures BringsByte(i.status) ==> k >= 2 && (i.status == MR_DATA_ACK <==> k - 1 < s.rxSize)
    ensures Stored(s, d.Isr(i.status, i.data), if BringsByte(i.status) then got + [i.data] else got)
  {
    if BringsByte(i.status) {
      StoreKeepsTheRest(s, d, got, i.data);
    }
    AllButTheLastAreWanted(if BringsByte(i.status) then |got| + 1 else |got|, s.rxSize);
  }

  /** Every byte but the last one asked for is acknowledged, and that one is refused. */
  predicate AcksAllButTheLast(n: nat, ints: seq<Interrupt>) {
    forall j | 0 <= j < |ints| && BringsByte(ints[j].status) ::
      1 < j && (ints[j].status == MR_DATA_ACK <==> j - 1 < n)
  }

  predicate ReceiveGoesOn(s: Driver, ints: seq<Interrupt>)
    requires s.Valid()
  {
    && |ints| <= s.rxSize + 1 && |Arrived(ints)| == (if |ints| < 2 then 0 else |ints| - 2)
    && Receiving(s, After(s, ints), |ints|, LastOf(ints))
  }

  predicate ReceiveIsOver(s: Driver, ints: seq<Interrupt>)
    requires s.Valid() && ints != []
  {
    var d, k := After(s, ints), |ints| - 1;
    && d.mode == READY && d.control == Stop && d.error == Outcome(ints[k].status)
    && 0 < k <= s.rxSize + 1 && (d.error == Success ==> k == s.rxSize + 1 && |Arrived(ints)| == s.rxSize)
    && (ints[k].status == MR_SLA_NACK ==> Arrived(ints) == [])
  }

  predicate ReceiveInv(s: Driver, ints: seq<Interrupt>)
    requires s.Valid()
  {
    && (ReceiveGoesOn(s, ints) || (ints != [] && ReceiveIsOver(s, ints)))
    && Stored(s, After(s, ints), Arrived(ints)) && AcksAllButTheLast(s.rxSize, ints)
  }

  lemma ReceivingExtends(s: Driver, ints: seq<Interrupt>, i: Interrupt)
    requires IsReceiver(s) && ReceiveGoesOn(s, ints) && ReceiveInv(s, ints)
    requires MayFollow(LastOf(ints), After(s, ints), i.status)
    ensures ReceiveInv(s, ints + [i]) && After(s, ints).HasRoom(i.status)
  {
    hide MayFollow, After, LastOf, Loaded, LoadedBy, Legal, Arrived, Receiving, Stored, Driver.Isr, Outcome;
    ReceivingStep(s, After(s, ints), |ints|, LastOf(ints), Arrived(ints), i);
    OneMore(s, ints, i);
    OneMoreArrives(ints, i);
    AcksExtend(s.rxSize, ints, i);
    assert (ints + [i])[|ints|] == i;
    hide AcksAllButTheLast;
  }

  lemma AcksExtend(n: nat, ints: seq<Interrupt>, i: Interrupt)
    requires AcksAllButTheLast(n, ints)
    requires BringsByte(i.status) ==> 1 < |ints| && (i.status == MR_DATA_ACK <==> |ints| - 1 < n)
    ensures AcksAllButTheLast(n, ints + [i])
  {
  }

  lemma {:induction false} ReceivingInv(s: Driver, ints: seq<Interrupt>)
    requires IsReceiver(s) && Legal(s, ints)
    ensures ReceiveInv(s, ints)
  {
    if ints == [] {
      assert [] + s.rxBuffer[0..] == s.rxBuffer;
    } else {
      hide MayFollow, LastOf, Legal, Arrived, Receiving, Stored, Outcome, AcksAllButTheLast;
      var front, i := LastStep(s, ints);
      ReceivingInv(s, front);
      assert ReceiveGoesOn(s, front);
      ReceivingExtends(s, front, i);
    }
  }

  /**
   Asked for `n` bytes, the driver never stores more than `n`, and stores them in the order in which
   they arrive; it acknowledges all of them but the `n`-th. A transfer is over within `n + 2`
   interrupts and succeeds exactly if the `n`-th byte has arrived; a refused address brings none.
   */
  lemma ReceiveStoresTheBytes(d0: Driver, addr: byte, buf: seq<byte>, n: nat, ints: seq<Interrupt>)
    requires d0.Valid() && d0.mode == READY && 0 < n <= TW_RX_MAX_LEN && n <= |buf|
    requires Legal(d0.Recv(addr, buf, n, false), ints)
    ensures var d := After(d0.Recv(addr, buf, n, false), ints);
      && |Arrived(ints)| <= n && d.rxIdx == |Arrived(ints)| && d.rxBuffer == Arrived(ints) + buf[d.rxIdx..]
      && AcksAllButTheLast(n, ints)
      && (forall next | MayFollow(LastOf(ints), d, next) :: d.HasRoom(next))
      && |ints| <= n + 2 && (|ints| == n + 2 ==> d.mode == READY)
      && (d.mode == READY ==> ints != [] && d.error == Outcome(ints[|ints| - 1].status) && d.control == Stop)
      && (d.mode == READY && d.error == Success ==> d.rxIdx == n)
      && (LastOf(ints) == Some(MR_SLA_NACK) ==> d.mode == READY && d.rxIdx == 0)
  {
    hide After, Arrived, Legal, AcksAllButTheLast, MayFollow, Outcome;
    var s := d0.Recv(addr, buf, n, false);
    ReceivingInv(s, ints);
    forall next | MayFollow(LastOf(ints), After(s, ints), next) ensures After(s, ints).HasRoom(next) {
      if ReceiveGoesOn(s, ints) {
        ReceivingExtends(s, ints, Interrupt(next, 0));
      } else {
        NothingFollowsStop(LastOf(ints), After(s, ints), next);
      }
    }
  }

  /** No interrupt that may come makes the driver write past the caller's buffer. */
  ghost predicate NeverOverruns(s: Driver)
    requires s.Valid()
  {
    forall ints, next | Legal(s, ints) && MayFollow(LastOf(ints), After(s, ints), next) :: After(s, ints).HasRoom(next)
  }

  /** A sender never stores a byte. */
  lemma SendersNeverOverrun(s: Driver)
    requires IsSender(s)
    ensures NeverOverruns(s)
  {
    hide After, Legal, LastOf, Loaded, MayFollow, Sending;
    forall ints, next | Legal(s, ints) && MayFollow(LastOf(ints), After(s, ints), next)
      ensures After(s, ints).HasRoom(next)
    {
      SendingInv(s, ints);
      if SendGoesOn(s, ints) {
        SendingStep(s, |ints|, Interrupt(next, 0));
      } else {
        NothingFollowsStop(LastOf(ints), After(s, ints), next);
      }
    }
  }

  lemma AfterStart(s: Driver, start: Interrupt)
    requires s.Valid() && s.txSize == 1 && s.txIdx == 0 && s.control == Start && start.status == START
    ensures Legal(s, [start]) && LastOf([start]) == Some(START)
    ensures After(s, [start]) == s.(twdr := s.txBuffer[0], txIdx := 1, error := NoInfo, control := Transfer(false))
  {
    NothingYet(s);
    OneMore(s, [], start);
    hide After, Legal, LastOf;
    assert [] + [start] == [start];
  }

  lemma AfterAnswer(s: Driver, start: Interrupt, answer: Interrupt)
    requires s.Valid() && s.txSize == 1 && s.txIdx == 0 && s.control == Start && s.txBuffer[0] % 2 == 1
    requires start.status == START && answer.status == MR_SLA_ACK
    ensures Legal(s, [start] + [answer]) && LastOf([start] + [answer]) == Some(MR_SLA_ACK)
    ensures After(s, [start] + [answer]) ==
      s.(twdr := s.txBuffer[0], txIdx := 1, mode := RECEIVING, error := NoInfo,
         control := Transfer(WantsMore(s.rxIdx, s.rxSize)))
  {
    AfterStart(s, start);
    OneMore(s, [start], answer);
    hide After, Legal, LastOf;
  }

  lemma NothingAskedOverruns(s: Driver)
    requires s.Valid() && s.txSize == 1 && s.txIdx == 0 && s.control == Start && s.txBuffer[0] % 2 == 1
    requires s.rxIdx == s.rxSize == 0 && s.rxBuffer == []
    ensures !NeverOverruns(s)
  {
    var start, answer := Interrupt(START, 0), Interrupt(MR_SLA_ACK, 0);
    AfterAnswer(s, start, answer);
    AllButTheLastAreWanted(0, 0);
    hide After, Legal, LastOf, WantsMore, Driver.Valid;
    var ints := [start] + [answer];
    assert MayFollow(LastOf(ints), After(s, ints), MR_DATA_ACK) && !After(s, ints).HasRoom(MR_DATA_ACK);
  }

  lemma NothingYet(s: Driver)
    requires s.Valid()
    ensures Legal(s, []) && After(s, []) == s && LastOf([]) == None
  {
  }

  /** A buffer of the size asked for is enough exactly if that size is not zero. */
  lemma NeverOverrunsExactly(d0: Driver, addr: byte, buf: seq<byte>)
    requires d0.Valid() && d0.mode == READY && |buf| <= TW_RX_MAX_LEN
    ensures NeverOverruns(d0.Recv(addr, buf, |buf|, false)) <==> buf != []
  {
    var s := d0.Recv(addr, buf, |buf|, false);
    if buf == [] {
      NothingAskedOverruns(s);
    } else {
      forall ints, next | Legal(s, ints) && MayFollow(LastOf(ints), After(s, ints), next)
        ensures After(s, ints).HasRoom(next)
      {
        ReceiveStoresTheBytes(d0, addr, buf, |buf|, ints);
      }
    }
  }

  /**
   A sender that keeps the bus asks for a repeated START after its last byte; the driver is ready once that
   has been sent, and the next transfer puts its address on the bus without a START of its own.
   */
  lemma LockedBusGoesOn(d: Driver, addr: byte, data: seq<byte>, busLock: bool)
    requires d.Valid() && d.repStart && d.txIdx == d.txSize && !d.IsReady() && |data| <= TW_TX_MAX_LEN
    ensures var r := d.Isr(MT_DATA_ACK, 0);
      && r.error == Success && r.control == Start && !r.IsReady() && r.Isr(REP_START, 0).IsReady()
      && var s := r.Isr(REP_START, 0).Send(addr, data, busLock);
      && !s.IsReady() && s.control == Transfer(false) && s.twdr == AddrWrite(addr) && s.txIdx == 1
      && s.txBuffer[s.txIdx..s.txSize] == data && s.repStart == busLock
  {
    var s := d.Isr(MT_DATA_ACK, 0).Isr(REP_START, 0).Send(addr, data, busLock);
    assert s.txBuffer == [AddrWrite(addr)] + data + d.txBuffer[1 + |data|..];
  }

  /** A refusal or a lost arbitration fails with that status, and a bus error always gives the bus back. */
  lemma FaultsEndTheTransfer(d: Driver, status: Status, data: byte)
    requires d.Valid() && status in {MT_SLA_NACK, MT_DATA_NACK, MR_SLA_NACK, MT_ARB_LOST, BUS_ERROR}
    ensures var r := d.Isr(status, data);
      && r.error == Failed(status) && r.rxBuffer == d.rxBuffer && r.rxIdx == d.rxIdx && r.txBuffer == d.txBuffer
      && if d.repStart && status != BUS_ERROR then r.mode == d.mode && r.control == Start
        else r.mode == READY && r.control == Stop
    ensures d.Isr(NO_INFO, data) == d
  {
  }

  // ----- Whole transfers

  /** The interrupts up to the first one after which the driver is ready, none of which overruns its buffer. */
  predicate Ends(s: Driver, ints: seq<Interrupt>)
    requires s.Valid()
  {
    && After(s, ints).IsReady()
    && forall k | 0 <= k < |ints| :: !After(s, ints[..k]).IsReady() && After(s, ints[..k]).HasRoom(ints[k].status)
  }

  lemma EndsStep(s: Driver, ints: seq<Interrupt>, k: nat)
    requires s.Valid() && Ends(s, ints) && k <= |ints| && !After(s, ints[..k]).IsReady()
    ensures k < |ints| && After(s, ints[..k]).HasRoom(ints[k].status)
    ensures After(s, ints[..k + 1]) == After(s, ints[..k]).Isr(ints[k].status, ints[k].data)
    ensures k + 1 == |ints| ==> After(s, ints[..k + 1]).IsReady()
  {
    hide After, Legal, Loaded, LastOf, MayFollow, Driver.Isr, Driver.IsReady, Driver.HasRoom;
    assert ints[..|ints|] == ints;
    assert k < |ints|;
    OneMore(s, ints[..k], ints[k]);
    assert ints[..k] + [ints[k]] == ints[..k + 1];
  }

  lemma {:induction false} PrefixIsLegal(s: Driver, ints: seq<Interrupt>, k: nat)
    requires s.Valid() && Legal(s, ints) && k < |ints|
    ensures Legal(s, ints[..k]) && After(s, ints[..k]).control != Stop
    ensures MayFollow(LastOf(ints[..k]), After(s, ints[..k]), ints[k].status)
  {
    hide After, MayFollow, LastOf;
    var front, i := LastStep(s, ints);
    if k < |front| {
      PrefixIsLegal(s, front, k);
      assert front[..k] == ints[..k];
    } else {
      assert front == ints[..k];
    }
  }

  /** The source waits for a transfer to be over exactly as long as interrupts keep coming. */
  lemma TransferEnds(s: Driver, ints: seq<Interrupt>)
    requires (IsSender(s) || IsReceiver(s)) && Legal(s, ints) && After(s, ints).mode == READY
    ensures Ends(s, ints)
  {
    hide After, Loaded, Arrived, MayFollow, LastOf, Legal, SendingStatus;
    forall k | 0 <= k < |ints|
      ensures !After(s, ints[..k]).IsReady() && After(s, ints[..k]).HasRoom(ints[k].status)
    {
      var front := ints[..k];
      PrefixIsLegal(s, ints, k);
      if IsSender(s) {
        SendingInv(s, front);
        assert SendGoesOn(s, front);
        SendingStep(s, k, ints[k]);
      } else {
        ReceivingInv(s, front);
        assert ReceiveGoesOn(s, front);
        ReceivingExtends(s, front, ints[k]);
      }
    }
  }

  lemma ReceiveTransferEnds(d0: Driver, addr: byte, buf: seq<byte>, n: nat, ints: seq<Interrupt>)
    requires d0.Valid() && d0.mode == READY && 0 < n <= TW_RX_MAX_LEN && n <= |buf|
    requires var s := d0.Recv(addr, buf, n, false); Legal(s, ints) && After(s, ints).mode == READY
    ensures var s := d0.Recv(addr, buf, n, false); var d := After(s, ints);
      && Ends(s, ints) && d.rxIdx == |Arrived(ints)| <= n && d.rxBuffer == Arrived(ints) + buf[d.rxIdx..]
      && ints != [] && d.error == Outcome(ints[|ints| - 1].status) && (d.error == Success ==> d.rxIdx == n)
  {
    hide After, Legal, Arrived, Outcome, Ends;
    TransferEnds(d0.Recv(addr, buf, n, false), ints);
    ReceiveStoresTheBytes(d0, addr, buf, n, ints);
  }

  /** A read of at least one byte, into a buffer that is large enough, on a bus that is free before and after. */
  predicate Simple(d0: Driver, addr: byte, buf: seq<byte>, n: nat, busLock: bool, ints: seq<Interrupt>)
    requires d0.Valid()
  {
    && d0.mode == READY && !busLock && 0 < n <= TW_RX_MAX_LEN && n <= |buf|
    && Legal(d0.Recv(addr, buf, n, false), ints)
  }

  /** The bytes that arrived are at the front of the buffer, and counted; the outcome is that of the last status. */
  predicate Brought(d: Driver, buf: seq<byte>, n: nat, ints: seq<Interrupt>) {
    && d.rxIdx == |Arrived(ints)| <= n && n <= |buf| && d.rxBuffer == Arrived(ints) + buf[d.rxIdx..]
    && d.mode == READY && (d.error == Success ==> d.rxIdx == n)
    && ints != [] && d.error == Outcome(ints[|ints| - 1].status)
  }

  lemma SmallStays(n: nat)
    requires n <= TW_RX_MAX_LEN
    ensures n % 0x100 == n
  {
  }

  lemma SimpleEnds(d0: Driver, addr: byte, buf: seq<byte>, n: nat, busLock: bool, ints: seq<Interrupt>)
    requires d0.Valid() && Simple(d0, addr, buf, n, busLock, ints) && Ends(d0.Recv(addr, buf, n, busLock), ints)
    ensures var d := After(d0.Recv(addr, buf, n, busLock), ints);
      d.rxIdx <= TW_RX_MAX_LEN && Brought(d, buf, n, ints)
  {
    hide After, Legal, Arrived, LastOf, MayFollow, Outcome;
    ReceivingInv(d0.Recv(addr, buf, n, false), ints);
    ReceiveTransferEnds(d0, addr, buf, n, ints);
  }

  // ----- The driver in place

  class Twi {
    var mode: Mode
    var error: Error
    var repStart: bool
    const txBuffer: array<byte>
    var txIdx: nat
    var txSize: nat
    var rxBuffer: array?<byte>
    var rxIdx: nat
    var rxSize: nat
    var twdr: byte
    var control: Control

    ghost function View(): Driver
      reads this, txBuffer, rxBuffer
    {
      Driver(mode, error, repStart, txBuffer[..], txIdx, txSize,
             if rxBuffer == null then [] else rxBuffer[..], rxIdx, rxSize, twdr, control)
    }

    ghost predicate Valid()
      reads this, txBuffer, rxBuffer
    {
      View().Valid() && txBuffer != rxBuffer
    }

    constructor ()
      ensures Valid() && View().IsReady() && error == Success && fresh(txBuffer)
    {
      txBuffer := new byte[TW_TX_MAX_LEN + 1];
      mode, error, repStart, txIdx, txSize, rxBuffer, rxIdx, rxSize := READY, Success, false, 0, 0, null, 0, 0;
      twdr, control := 0, Nothing;
    }

    method SendNextByte()
      requires Valid()
      modifies this
      ensures Valid() && View() == old(View()).NextByte()
      ensures rxBuffer == old(rxBuffer)
    {
      if txIdx < txSize {
        twdr := txBuffer[txIdx];
        txIdx := txIdx + 1;
        error := NoInfo;
        control := Transfer(false);
      } else if repStart {
        error := Success;
        control := Start;
      } else {
        mode := READY;
        error := Success;
        control := Stop;
      }
    }

    method StoreByte(data: byte)
      requires Valid() && rxIdx < |View().rxBuffer|
      modifies this, rxBuffer
      ensures Valid() && View() == old(View()).Store(data)
      ensures rxBuffer == old(rxBuffer)
    {
      twdr := data;
      rxBuffer[rxIdx] := twdr;
      rxIdx := rxIdx + 1;
    }

    method EndTransfer(e: Error)
      requires Valid()
      modifies this
      ensures Valid() && View() == old(View()).Finish(e)
      ensures rxBuffer == old(rxBuffer)
    {
      error := e;
      if repStart {
        control := Start;
      } else {
        mode := READY;
        control := Stop;
      }
    }

    /** `ISR(TWI_vect)`. */
    method Isr(status: Status, data: byte)
      requires Valid() && View().HasRoom(status)
      modifies this, rxBuffer
      ensures Valid() && View() == old(View()).Isr(status, data)
      ensures rxBuffer == old(rxBuffer)
    {
      match status {
        case MT_SLA_ACK =>
          mode := TRANSMITTING;
          SendNextByte();
        case START => SendNextByte();
        case MT_DATA_ACK => SendNextByte();
        case MR_DATA_ACK =>
          StoreByte(data);
          mode, error, control := RECEIVING, NoInfo, Transfer(WantsMore(rxIdx, rxSize));
        case MR_SLA_ACK =>
          mode, error, control := RECEIVING, NoInfo, Transfer(WantsMore(rxIdx, rxSize));
        case MR_DATA_NACK =>
          StoreByte(data);
          EndTransfer(Success);
        case MR_SLA_NACK => EndTransfer(Failed(status));
        case MT_SLA_NACK => EndTransfer(Failed(status));
        case MT_DATA_NACK => EndTransfer(Failed(status));
        case MT_ARB_LOST => EndTransfer(Failed(status));
        case REP_START => mode := REPEATED_START;
        case NO_INFO =>
        case BUS_ERROR =>
          error := Failed(BUS_ERROR);
          mode := READY;
          control := Stop;
      }
    }

    /** `_twi_send`. */
    method Begin(size: nat, busLock: bool)
      requires Valid() && 0 < size <= txBuffer.Length
      modifies this
      ensures Valid() && View() == old(View()).Begin(size, busLock)
      ensures rxBuffer == old(rxBuffer)
    {
      txSize, txIdx := size, 0;
      repStart := busLock;
      if mode == REPEATED_START {
        twdr := txBuffer[txIdx];
        txIdx := txIdx + 1;
        control := Transfer(false);
      } else {
        control := Start;
      }
      mode := INITIALIZING;
    }

    /** The address byte and the data, at the front of the transmit buffer. */
    method Fill(addr: byte, data: array<byte>, size: nat)
      requires Valid() && size <= data.Length && data != txBuffer && size <= TW_TX_MAX_LEN
      modifies txBuffer
      ensures Valid()
      ensures View() == old(View().(txBuffer := [AddrWrite(addr)] + data[..size] + txBuffer[1 + size..]))
    {
      txBuffer[0] := AddrWrite(addr);
      MemCpy(txBuffer, 1, data, size);
    }

    /** `twi_send` on a ready driver; true is the source's error return. */
    method Send(addr: byte, data: array?<byte>, size: nat, busLock: bool) returns (err: bool)
      requires Valid() && View().IsReady()
      requires data != null ==> size <= data.Length && data != txBuffer
      modifies this, txBuffer
      ensures Valid()
      ensures err == (data == null || size > 32)
      ensures err ==> View() == old(View())
      ensures !err ==> View() == old(View()).Send(addr, data[..size], busLock)
    {
      if data == null || size > TW_TX_MAX_LEN {
        return true;
      }
      hide Driver.Begin;
      Fill(addr, data, size);
      assert old(txBuffer[1 + size..]) == old(txBuffer[..])[1 + size..];
      Begin(size + 1, busLock);
      err := false;
    }

    /** The interrupts of a transfer come in until the driver is ready. */
    method WaitUntilReady(ints: seq<Interrupt>)
      requires Valid() && Ends(View(), ints)
      modifies this, rxBuffer
      ensures Valid() && View() == After(old(View()), ints)
      ensures rxBuffer == old(rxBuffer)
    {
      hide After, Legal, Driver.Isr, Driver.Valid, Driver.HasRoom;
      ghost var s := View();
      NothingYet(s);
      var k := 0;
      while mode != READY && mode != REPEATED_START
        invariant Valid() && rxBuffer == old(rxBuffer)
        invariant k <= |ints| && View() == After(s, ints[..k])
        invariant k == |ints| ==> View().IsReady()
        decreases |ints| - k
      {
        EndsStep(s, ints, k);
        Isr(ints[k].status, ints[k].data);
        k := k + 1;
      }
      assert ints[..|ints|] == ints;
    }

    /** The set-up in `twi_recv`. */
    method BeginRecv(addr: byte, buf: array<byte>, toRecv: nat, busLock: bool)
      requires Valid() && View().IsReady() && buf != txBuffer
      modifies this, txBuffer
      ensures Valid() && View() == old(View().Recv(addr, buf[..], toRecv, busLock))
      ensures rxBuffer == buf
    {
      rxBuffer, rxSize, rxIdx := buf, toRecv, 0;
      txBuffer[0] := AddrRead(addr);
      hide Driver.Begin;
      Begin(1, busLock);
    }

    /** The transfer in `twi_recv`, and the wait for its end. */
    method Fetch(addr: byte, buf: array<byte>, toRecv: nat, busLock: bool, ints: seq<Interrupt>) returns (n: byte)
      requires Valid() && View().IsReady() && buf != txBuffer
      requires Ends(View().Recv(addr, buf[..], toRecv, busLock), ints)
      modifies this, txBuffer, buf
      ensures Valid() && View() == After(old(View().Recv(addr, buf[..], toRecv, busLock)), ints)
      ensures n == rxIdx % 0x100 && rxIdx == View().rxIdx && buf[..] == View().rxBuffer
    {
      hide After, Legal, Driver.Recv, Ends;
      BeginRecv(addr, buf, toRecv, busLock);
      WaitUntilReady(ints);
      assert View().rxBuffer == buf[..];
      n := rxIdx % 0x100;
    }

    /**
     `twi_recv` on a ready driver; 1 is also the source's error return. `ints` are the interrupts that come
     in while it waits. On a bus that is neither locked nor kept from the transfer before, every legal
     sequence that ends the transfer is one.
     */
    method Recv(addr: byte, buf: array?<byte>, toRecv: nat, busLock: bool, ints: seq<Interrupt>) returns (n: byte)
      requires Valid() && View().IsReady() && buf != txBuffer
      requires buf != null && toRecv <= TW_RX_MAX_LEN ==> Ends(View().Recv(addr, buf[..], toRecv, busLock), ints)
      modifies this, txBuffer, buf
      ensures Valid()
      ensures buf == null || toRecv > 32 ==> n == 1 && View() == old(View())
      ensures buf != null && toRecv <= 32 ==>
        && View() == After(old(View().Recv(addr, buf[..], toRecv, busLock)), ints)
        && n == rxIdx % 0x100 && buf[..] == View().rxBuffer
      ensures buf != null && old(Simple(View(), addr, buf[..], toRecv, busLock, ints)) ==>
        n == rxIdx && Brought(View(), old(buf[..]), toRecv, ints)
    {
      if buf == null || toRecv > TW_RX_MAX_LEN {
        return 1;
      }
      hide After, Driver.Recv, Ends, Simple, Brought;
      ghost var d0, oldBuf := View(), buf[..];
      n := Fetch(addr, buf, toRecv, busLock, ints);
      if Simple(d0, addr, oldBuf, toRecv, busLock, ints) {
        SimpleEnds(d0, addr, oldBuf, toRecv, busLock, ints);
        SmallStays(rxIdx);
      }
    }
  }
}
