/** The slave's I2C driver: slave receiver and slave transmitter, driven by the TWI interrupt. */
module TwiSlave {
  import opened Bytes

  const TW_TX_MAX_LEN := 32
  const TW_RX_MAX_LEN := 32

  /** The status codes of the TWI hardware that concern a slave. */
  datatype Status =
    | ST_SLA_ACK | ST_DATA_ACK | ST_DATA_NACK | ST_LAST_DATA | ST_ARB_LOST_SLA_ACK
    | SR_SLA_ACK | SR_GCALL_ACK | SR_DATA_ACK | SR_GCALL_DATA_ACK | SR_DATA_NACK | SR_GCALL_DATA_NACK | SR_STOP
    | SR_ARB_LOST_SLA_ACK | SR_ARB_LOST_GCALL_ACK
    | NO_INFO | BUS_ERROR

  datatype Mode = READY | INITIALIZING | TRANSMITTING | RECEIVING

  datatype Error = Success | NoInfo | Failed(status: Status)

  /** What the last write to TWCR lets the hardware do. It answers to its address only when it may acknowledge. */
  datatype Control = Deaf | Ack | ReleaseBus

  /** The static variables of the driver, the caller's receive buffer, and the two registers it drives. */
  datatype Driver = Driver(
    mode: Mode, error: Error,
    txBuffer: seq<byte>, txIdx: nat, txSize: nat,
    rxBuffer: seq<byte>, rxIdx: nat, rxSize: nat,
    twdr: byte, control: Control) {

    predicate Valid() {
      |txBuffer| == TW_TX_MAX_LEN
    }

    /** `twi_send` on a ready driver. */
    function Send(data: seq<byte>): Driver
      requires Valid() && |data| <= TW_TX_MAX_LEN
    {
      this.(mode := INITIALIZING, txBuffer := data + txBuffer[|data|..], txSize := |data|, txIdx := 0, control := Ack)
    }

    /** `twi_recv` on a ready driver, up to its second wait. */
    function Recv(buf: seq<byte>, toRecv: nat): Driver {
      this.(mode := INITIALIZING, rxBuffer := buf, rxSize := toRecv, rxIdx := 0, control := Ack)
    }

    /** Whether the buffer that the status makes the driver index has the byte. The driver does not look. */
    predicate HasRoom(status: Status) {
      && (status in {ST_SLA_ACK, ST_DATA_ACK} ==> txIdx < |txBuffer|)
      && (status in {SR_DATA_ACK, SR_GCALL_DATA_ACK} ==> rxIdx < |rxBuffer|)
    }

    function PutNextByte(): Driver
      requires txIdx < |txBuffer|
    {
      this.(error := Success, twdr := txBuffer[txIdx], txIdx := txIdx + 1, control := Ack)
    }

    function Store(data: byte): Driver
      requires rxIdx < |rxBuffer|
    {
      this.(rxBuffer := rxBuffer[rxIdx := data], rxIdx := rxIdx + 1, error := NoInfo, control := Ack)
    }

    /** `ISR(TWI_vect)`; `data` is what the hardware has put into TWDR. */
    function Isr(status: Status, data: byte): (d: Driver)
      requires Valid() && HasRoom(status)
      ensures d.Valid() && |d.rxBuffer| == |rxBuffer|
    {
      match status
      case ST_SLA_ACK => this.(mode := TRANSMITTING).PutNextByte()
      case ST_DATA_ACK => PutNextByte()
      case ST_DATA_NACK =>
        this.(error := if txIdx >= txSize then Success else Failed(status), mode := READY, control := Deaf)
      case SR_SLA_ACK => this.(mode := RECEIVING, control := Ack)
      case SR_GCALL_ACK => this.(mode := RECEIVING, control := Ack)
      case SR_DATA_ACK => Store(data)
      case SR_GCALL_DATA_ACK => Store(data)
      case SR_STOP => this.(mode := READY, control := Deaf)
      case ST_LAST_DATA => this.(error := Failed(status), mode := READY, control := ReleaseBus)
      case SR_DATA_NACK => this.(error := Failed(status), mode := READY, control := ReleaseBus)
      case SR_GCALL_DATA_NACK => this.(error := Failed(status), mode := READY, control := ReleaseBus)
      case BUS_ERROR => this.(error := Failed(status), mode := READY, control := ReleaseBus)
      case NO_INFO => this
      case SR_ARB_LOST_SLA_ACK => this.(error := Failed(status), mode := READY, control := Deaf)
      case SR_ARB_LOST_GCALL_ACK => this.(error := Failed(status), mode := READY, control := Deaf)
      case ST_ARB_LOST_SLA_ACK => this.(error := Failed(status), mode := READY, control := Deaf)
    }
  }

  /** A fault or a lost arbitration ends the transfer with that status, and touches neither buffer. */
  lemma FaultsEndTheTransfer(d: Driver, status: Status, data: byte)
    requires d.Valid()
    requires status in {ST_LAST_DATA, SR_DATA_NACK, SR_GCALL_DATA_NACK, BUS_ERROR,
                        SR_ARB_LOST_SLA_ACK, SR_ARB_LOST_GCALL_ACK, ST_ARB_LOST_SLA_ACK}
    ensures var r := d.Isr(status, data);
      var lost := status in {SR_ARB_LOST_SLA_ACK, SR_ARB_LOST_GCALL_ACK, ST_ARB_LOST_SLA_ACK};
      && r.mode == READY && r.error == Failed(status) && r.control == (if lost then Deaf else ReleaseBus)
      && r.txBuffer == d.txBuffer && r.rxBuffer == d.rxBuffer && r.rxIdx == d.rxIdx && r.txIdx == d.txIdx
    ensures d.Isr(NO_INFO, data) == d
  {
  }

  // ----- The driver in place

  class Twi {
    var mode: Mode
    var error: Error
    const txBuffer: array<byte>
    var txIdx: nat
    var txSize: nat
    var rxBuffer: array?<byte>
    var rxIdx: nat
    var rxSize: nat
    var twdr: byte
    var control: Control

    ghost function View(): Driver
      reads this, txBuffer, rxBuffer
    {
      Driver(mode, error, txBuffer[..], txIdx, txSize,
             if rxBuffer == null then [] else rxBuffer[..], rxIdx, rxSize, twdr, control)
    }

    ghost predicate Valid()
      reads this, txBuffer, rxBuffer
    {
      View().Valid() && txBuffer != rxBuffer
    }

    constructor ()
      ensures Valid() && mode == READY && error == Success && control == Deaf && fresh(txBuffer)
    {
      txBuffer := new byte[TW_TX_MAX_LEN];
      mode, error, txIdx, txSize, rxBuffer, rxIdx, rxSize := READY, Success, 0, 0, null, 0, 0;
      twdr, control := 0, Deaf;
    }

    method Fill(data: array<byte>, size: nat)
      requires Valid() && size <= data.Length && data != txBuffer && size <= TW_TX_MAX_LEN
      modifies txBuffer
      ensures Valid() && View() == old(View().(txBuffer := data[..size] + txBuffer[size..]))
    {
      MemCpy(txBuffer, 0, data, size);
      assert old(txBuffer[..0]) == [];
    }

    /** `twi_send` on a ready driver; true is the source's error return. */
    method Send(data: array?<byte>, size: nat) returns (err: bool)
      requires Valid() && mode == READY
      requires data != null ==> size <= data.Length && data != txBuffer
      modifies this, txBuffer
      ensures Valid() && rxBuffer == old(rxBuffer)
      ensures err == (data == null || size > 32)
      ensures err ==> View() == old(View())
      ensures !err ==> View() == old(View()).Send(data[..size])
    {
      if data == null || size > TW_TX_MAX_LEN {
        return true;
      }
      mode := INITIALIZING;
      Fill(data, size);
      assert old(txBuffer[size..]) == old(txBuffer[..])[size..];
      txSize, txIdx := size, 0;
      control := Ack;
      err := false;
    }

    /** `twi_recv` on a ready driver up to its second wait; true is the source's error return. */
    method BeginRecv(buf: array?<byte>, toRecv: nat) returns (err: bool)
      requires Valid() && mode == READY && buf != txBuffer
      modifies this
      ensures Valid()
      ensures err == (buf == null || toRecv > 32)
      ensures err ==> View() == old(View())
      ensures !err ==> rxBuffer == buf && View() == old(View()).Recv(buf[..], toRecv)
    {
      if buf == null || toRecv > TW_RX_MAX_LEN {
        return true;
      }
      mode := INITIALIZING;
      rxBuffer, rxSize, rxIdx := buf, toRecv, 0;
      control := Ack;
      err := false;
    }

    method PutNextByte()
      requires Valid() && txIdx < txBuffer.Length
      modifies this
      ensures Valid() && View() == old(View()).PutNextByte()
      ensures rxBuffer == old(rxBuffer)
    {
      error := Success;
      twdr := txBuffer[txIdx];
      txIdx := txIdx + 1;
      control := Ack;
    }

    method StoreByte(data: byte)
      requires Valid() && rxIdx < |View().rxBuffer|
      modifies this, rxBuffer
      ensures Valid() && View() == old(View()).Store(data)
      ensures rxBuffer == old(rxBuffer)
    {
      rxBuffer[rxIdx] := data;
      rxIdx := rxIdx + 1;
      error := NoInfo;
      control := Ack;
    }

    /** `ISR(TWI_vect)`. */
    method Isr(status: Status, data: byte)
      requires Valid() && View().HasRoom(status)
      modifies this, rxBuffer
      ensures Valid() && View() == old(View()).Isr(status, data)
      ensures rxBuffer == old(rxBuffer)
    {
      match status {
        case ST_SLA_ACK =>
          mode := TRANSMITTING;
          PutNextByte();
        case ST_DATA_ACK => PutNextByte();
        case ST_DATA_NACK =>
          error := if txIdx >= txSize then Success else Failed(status);
          mode, control := READY, Deaf;
        case SR_SLA_ACK => mode, control := RECEIVING, Ack;
        case SR_GCALL_ACK => mode, control := RECEIVING, Ack;
        case SR_DATA_ACK => StoreByte(data);
        case SR_GCALL_DATA_ACK => StoreByte(data);
        case SR_STOP => mode, control := READY, Deaf;
        case ST_LAST_DATA => error, mode, control := Failed(status), READY, ReleaseBus;
        case SR_DATA_NACK => error, mode, control := Failed(status), READY, ReleaseBus;
        case SR_GCALL_DATA_NACK => error, mode, control := Failed(status), READY, ReleaseBus;
        case BUS_ERROR => error, mode, control := Failed(status), READY, ReleaseBus;
        case NO_INFO =>
        case SR_ARB_LOST_SLA_ACK => error, mode, control := Failed(status), READY, Deaf;
        case SR_ARB_LOST_GCALL_ACK => error, mode, control := Failed(status), READY, Deaf;
        case ST_ARB_LOST_SLA_ACK => error, mode, control := Failed(status), READY, Deaf;
      }
    }
  }
}
