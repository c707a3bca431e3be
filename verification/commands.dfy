/** The commands that the master sends to the slaves. */
module Commands {
  import opened Bytes

  const COMMAND_MAX_SIZE := 16

  const CMD_GET_SPEED: byte := 0
  const CMD_SET_SPEED: byte := 1
  const CMD_APPLY_SPEED: byte := 2
  const CMD_PING: byte := 3
  const CMD_SET_ADDR: byte := 4
}
