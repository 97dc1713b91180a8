/** Message numbers and sizes of the SSH protocol (RFC 4250) and of the SFTP subsystem. */
module Protocol {
  import opened Machine

  const MSG_DISCONNECT: u8 := 1
  const MSG_IGNORE: u8 := 2
  const MSG_UNIMPLEMENTED: u8 := 3
  const MSG_DEBUG: u8 := 4
  const MSG_EXT_INFO: u8 := 7
  const MSG_KEXINIT: u8 := 20
  const MSG_NEWKEYS: u8 := 21
  const MSG_KEX_ECDH_INIT: u8 := 30
  const MSG_KEX_ECDH_REPLY: u8 := 31
  const MSG_GLOBAL_REQUEST: u8 := 80
  const MSG_REQUEST_FAILURE: u8 := 82
  const MSG_CHANNEL_OPEN: u8 := 90
  const MSG_CHANNEL_OPEN_CONFIRMATION: u8 := 91
  const MSG_CHANNEL_OPEN_FAILURE: u8 := 92
  const MSG_CHANNEL_WINDOW_ADJUST: u8 := 93
  const MSG_CHANNEL_DATA: u8 := 94
  const MSG_CHANNEL_EOF: u8 := 96
  const MSG_CHANNEL_CLOSE: u8 := 97
  const MSG_CHANNEL_REQUEST: u8 := 98
  const MSG_CHANNEL_SUCCESS: u8 := 99
  const MSG_CHANNEL_FAILURE: u8 := 100

  /** A reply holds the largest read and its header. */
  const MAX_READ := 32000
  const REPLY_CAP := MAX_READ + 64
}
