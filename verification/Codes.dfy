/** Message codes of SIA OSDP v2.2.2 used by both sides. */
module Codes {
  import opened Bytes

  const CMD_POLL: byte := 0x60
  const CMD_ID: byte := 0x61
  const CMD_CAP: byte := 0x62
  const CMD_COMSET: byte := 0x6E
  const CMD_KEYSET: byte := 0x75
  const CMD_CHLNG: byte := 0x76
  const CMD_SCRYPT: byte := 0x77

  const REPLY_NAK: byte := 0x41
  const REPLY_COM: byte := 0x54
  const REPLY_CCRYPT: byte := 0x76
  const REPLY_RMAC_I: byte := 0x78
  const REPLY_BUSY: byte := 0x79

  const NAK_BAD_CHECK: byte := 0x01
  const NAK_CMD_LENGTH: byte := 0x02
  const NAK_UNKNOWN_CMD: byte := 0x03
  const NAK_UNSUPPORTED_SCB: byte := 0x05
  const NAK_ENCRYPTION_REQUIRED: byte := 0x06
  const NAK_RECORD_INVALID: byte := 0x09

  /** 0x7F reaches every device; addresses end below it. */
  const MAX_ADDR: byte := 0x7E
  const BROADCAST: byte := 0x7F
}
