/** The slave's main program: it receives a command, executes it, and starts again. */
module SlaveProgram {
  import opened Bytes
  import opened Commands
  import opened Motors
  import S = TwiSlave
  import TwiBus

  /** `command_isvalid`. */
  predicate IsValid(cmd: seq<byte>, size: byte)
    requires |cmd| == COMMAND_MAX_SIZE
  {
    if cmd[0] == CMD_GET_SPEED || cmd[0] == CMD_APPLY_SPEED then size == 1
    else if cmd[0] == CMD_SET_SPEED then size == 3
    else if cmd[0] == CMD_PING then size == 2
    else if cmd[0] == CMD_SET_ADDR then size == 2 && ValidAddress(cmd[1])
    else false
  }

  /** The addresses that a slave takes. */
  predicate ValidAddress(addr: byte) {
    addr != 0 && addr < 127
  }

  /** Where the main program waits inside `twi_recv`: for the pending response to be read, or for a command. */
  datatype Pc = Responding | Serving

  /** A slave: where its program waits, its I2C side (which holds the command buffer), and its motor. */
  datatype Slave = Slave(pc: Pc, node: TwiBus.Node, motor: Motor) {

    predicate Valid() {
      node.driver.Valid() && |node.driver.rxBuffer| == COMMAND_MAX_SIZE
    }

    /** Armed for a command, with an empty buffer, and not addressed. */
    predicate Waiting() {
      && Valid() && pc == Serving && node.role == TwiBus.Idle
      && node.driver.mode == S.INITIALIZING && node.driver.control == S.Ack && node.driver.rxIdx == 0
    }

    /** `command_respond`. */
    function Respond(data: seq<byte>): Slave
      requires Valid() && |data| <= S.TW_TX_MAX_LEN
    {
      this.(node := node.(driver := node.driver.Send(data)))
    }

    /** `change_twi_address_to`. */
    function ChangeAddress(addr: byte): Slave {
      this.(node := node.(own := addr, driver := node.driver.(control := S.Deaf)))
    }

    /** `execute_command`. */
    function Execute(size: byte): Slave
      requires Valid()
    {
      var cmd := node.driver.rxBuffer;
      if !IsValid(cmd, size) then this
      else if cmd[0] == CMD_GET_SPEED then Respond(Encode(motor.actual))
      else if cmd[0] == CMD_SET_SPEED then this.(motor := motor.Set(Decode(cmd[1], cmd[2])))
      else if cmd[0] == CMD_APPLY_SPEED then this.(motor := motor.Apply())
      else if cmd[0] == CMD_PING then Respond(cmd[1..size])
      else ChangeAddress(cmd[1])
    }

    /** `command_recv` on a ready driver. */
    function Rearm(): Slave
      requires Valid()
    {
      this.(pc := Serving, node := node.(driver := node.driver.Recv(node.driver.rxBuffer, S.TW_RX_MAX_LEN)))
    }

    /** What the program does until it waits again. */
    function Wake(): (r: Slave)
      requires Valid()
      ensures r.Valid()
    {
      if node.driver.mode != S.READY then this
      else
        var done := if pc == Serving then Execute(node.driver.rxIdx % 0x100) else this;
        if done.node.driver.mode == S.READY then done.Rearm() else done.(pc := Responding)
    }
  }

  lemma LoadedForTransmission(d: S.Driver, data: seq<byte>)
    requires d.Valid() && |data| <= S.TW_TX_MAX_LEN
    ensures var r := d.Send(data); |r.txBuffer| == S.TW_TX_MAX_LEN && r.txBuffer[..|data|] == data
  {
  }

  /**
   The commands by their bytes: number, size, and what becomes of the motor, the address and the response.
   Any other number or size does nothing at all.
   */
  lemma ExecuteByTheBytes(s: Slave, size: byte)
    requires s.Valid()
    ensures var r, cmd, m := s.Execute(size), s.node.driver.rxBuffer, s.motor;
      var d := r.node.driver;
      if cmd[0] == 0 && size == 1 then
        && r.motor == m && r.node.own == s.node.own && d.txSize == 2 && |d.txBuffer| >= 2
        && Word(d.txBuffer[0], d.txBuffer[1]) == m.actual % 0x1_0000
      else if cmd[0] == 1 && size == 3 then
        r == s.(motor := Motor(if Word(cmd[1], cmd[2]) <= 125 then Word(cmd[1], cmd[2]) else 125, m.target, m.actual))
      else if cmd[0] == 2 && size == 1 then r == s.(motor := Motor(m.next, m.next, m.actual))
      else if cmd[0] == 3 && size == 2 then
        && r.motor == m && r.node.own == s.node.own && d.txSize == 1 && |d.txBuffer| >= 1 && d.txBuffer[0] == cmd[1]
      else if cmd[0] == 4 && size == 2 && 1 <= cmd[1] <= 126 then
        r == s.(node := s.node.(own := cmd[1], driver := s.node.driver.(control := S.Deaf)))
      else r == s
  {
    var cmd, actual := s.node.driver.rxBuffer, s.motor.actual;
    LowByteFirst(actual, cmd[1], cmd[2]);
    LoadedForTransmission(s.node.driver, Encode(actual));
    var sent := s.node.driver.Send(Encode(actual)).txBuffer;
    assert sent[0] == sent[..2][0] && sent[1] == sent[..2][1];
    hide Encode, Decode;
  }

  // ----- The program in place

  class Controller {
    const twi: S.Twi
    const command: array<byte>
    const dcMotor: DcMotor
    var own: byte
    var pc: Pc
    var role: TwiBus.Role

    ghost function View(): Slave
      reads this, twi, twi.txBuffer, twi.rxBuffer, dcMotor
    {
      Slave(pc, TwiBus.Node(own, role, twi.View()), dcMotor.View())
    }

    ghost predicate Valid()
      reads this, twi, twi.txBuffer, twi.rxBuffer, dcMotor, command
    {
      && twi.Valid() && twi.rxBuffer == command && command.Length == COMMAND_MAX_SIZE
      && View().Valid()
    }

    /** `setup` and the first wait of `main`; the address comes from the EEPROM. */
    constructor (address: byte)
      ensures Valid() && View().Waiting() && own == address && View().motor == Motor(0, 0, 0)
      ensures fresh(twi) && fresh(twi.txBuffer) && fresh(command) && fresh(dcMotor)
    {
      twi := new S.Twi();
      command := new byte[COMMAND_MAX_SIZE];
      dcMotor := new DcMotor();
      own, pc, role := address, Serving, TwiBus.Idle;
      new;
      var _ := twi.BeginRecv(command, S.TW_RX_MAX_LEN);
    }

    /** `execute_command`. */
    method ExecuteCommand(size: byte)
      requires Valid() && twi.mode == S.READY
      modifies this, twi, twi.txBuffer, dcMotor
      ensures Valid() && View() == old(View()).Execute(size)
    {
      if !IsValid(command[..], size) {
        return;
      }
      if command[0] == CMD_GET_SPEED {
        var speed := dcMotor.Get();
        var bytes := Encode(speed);
        var response := new byte[2] [bytes[0], bytes[1]];
        var _ := twi.Send(response, 2);
        assert response[..2] == bytes;
      } else if command[0] == CMD_SET_SPEED {
        dcMotor.Set(Decode(command[1], command[2]));
      } else if command[0] == CMD_APPLY_SPEED {
        dcMotor.Apply();
      } else if command[0] == CMD_PING {
        var response := new byte[1] [command[1]];
        assert response[..1] == command[1..size];
        var _ := twi.Send(response, 1);
      } else {
        own := command[1];
        twi.control := S.Deaf;
      }
    }

    /** The body of the endless loop in `main`, from one wait to the next. */
    method Wake()
      requires Valid() && twi.mode == S.READY
      modifies this, twi, twi.txBuffer, dcMotor
      ensures Valid() && View() == old(View()).Wake()
    {
      if pc == Serving {
        ExecuteCommand(twi.rxIdx % 0x100);
      }
      if twi.mode == S.READY {
        var _ := twi.BeginRecv(command, S.TW_RX_MAX_LEN);
        pc := Serving;
      } else {
        pc := Responding;
      }
    }
  }
}
