/** The registry numbers the carriage layer itself uses. */
module Registry {
  import opened Bytes

  const DEFAULT_BUFFER_ID: u32 := 1
  const SYSTEM_SOURCE_ID: u32 := 0
  const EVENT_MESSAGE: u32 := 0x3
  const EVENT_LOGGER_STARTED: u32 := 0x101
  const EVENT_LOGGER_STOPPED: u32 := 0x102
  const EVENT_RECORDS_DROPPED: u32 := 0x104
  const EVENT_DEFINITION_CHANGED: u32 := 0x106
  const EVENT_SOURCE_HIGH_WATER: u32 := 0x108

  const KEY_MESSAGE_TEMPLATE_ID: u16 := 0x14
  const KEY_DROPPED_COUNT: u16 := 0x16
  const KEY_FIRST_LOST_SEQ: u16 := 0x17
  const KEY_LAST_LOST_SEQ: u16 := 0x18
  const KEY_DEF_HASH_NEW: u16 := 0x1C
  const KEY_SOURCE_HIGH_WATER: u16 := 0x38
  const KEY_DEF_HASH_OLD: u16 := 0x39
  const KEY_EPOCH_ID: u16 := 0x3A
  const KEY_COLD_START: u16 := 0x3B

  const TY_BOOL: byte := 0
  const TY_UDINT: byte := 5
  const TY_ULINT: byte := 7
  const TY_BYTES: byte := 0x0D
}
