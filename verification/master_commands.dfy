/** The commands of the master, put together in a buffer and handed to the I2C driver. */
module MasterCommands {
  import opened Bytes
  import opened Commands
  import M = TwiMaster

  class Commander {
    const twi: M.Twi

    constructor (twi: M.Twi)
      ensures this.twi == twi
    {
      this.twi := twi;
    }

    /** `prepare_command`. */
    method Prepare(command: array<byte>, id: byte, arg: array?<byte>, argSize: nat)
      requires command.Length == COMMAND_MAX_SIZE && argSize < COMMAND_MAX_SIZE && arg != command
      requires if arg == null then argSize == 0 else argSize <= arg.Length
      modifies command
      ensures command[..1 + argSize] == [id] + if arg == null then [] else arg[..argSize]
    {
      command[0] := id;
      if arg != null {
        MemCpy(command, 1, arg, argSize);
      }
    }

    /** `master_send_command`, and with address 0 `master_send_bcast_command`, when the driver is ready. */
    method Send(addr: byte, id: byte, arg: array?<byte>, argSize: nat)
      requires twi.Valid() && twi.View().IsReady()
      requires if arg == null then argSize == 0 else argSize <= arg.Length
      requires argSize < COMMAND_MAX_SIZE && arg != twi.txBuffer
      modifies twi, twi.txBuffer
      ensures twi.Valid()
      ensures twi.View() == old(twi.View()).Send(addr, [id] + if arg == null then [] else old(arg[..argSize]), false)
    {
      hide M.Driver.Send;
      var command := new byte[COMMAND_MAX_SIZE];
      Prepare(command, id, arg, argSize);
      var _ := twi.Send(addr, command, 1 + argSize, false);
    }
  }
}
