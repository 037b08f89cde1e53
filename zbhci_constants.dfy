// The zbhci framing constants, command identifier and ZCL data-type tags
// the gateway's decoder switches on.
module ZbhciConstants {
  import opened Bytes

  const FRAME_START: Byte := 0x55
  const FRAME_END: Byte := 0xAA
  const ATTR_READ_RSP: U16 := 0x8100
  const LONG_STR_LENGTH_LENGTH: nat := 2
  const SHORT_STR_LENGTH_LENGTH: nat := 1
  /** ZbhciStatus.SUCCESS: the only attribute status the decoder accepts. */
  const SUCCESS: Byte := 0x00

  const NO_DATA: Byte := 0x00
  const DATA8: Byte := 0x08
  const DATA16: Byte := 0x09
  const DATA24: Byte := 0x0a
  const DATA32: Byte := 0x0b
  const DATA40: Byte := 0x0c
  const DATA48: Byte := 0x0d
  const DATA56: Byte := 0x0e
  const DATA64: Byte := 0x0f
  const BOOLEAN: Byte := 0x10
  const BITMAP8: Byte := 0x18
  const BITMAP16: Byte := 0x19
  const BITMAP24: Byte := 0x1a
  const BITMAP32: Byte := 0x1b
  const BITMAP40: Byte := 0x1c
  const BITMAP48: Byte := 0x1d
  const BITMAP56: Byte := 0x1e
  const BITMAP64: Byte := 0x1f
  const UINT8: Byte := 0x20
  const UINT16: Byte := 0x21
  const UINT24: Byte := 0x22
  const UINT32: Byte := 0x23
  const UINT40: Byte := 0x24
  const UINT48: Byte := 0x25
  const UINT56: Byte := 0x26
  const UINT64: Byte := 0x27
  const INT8: Byte := 0x28
  const INT16: Byte := 0x29
  const INT24: Byte := 0x2a
  const INT32: Byte := 0x2b
  const INT40: Byte := 0x2c
  const INT48: Byte := 0x2d
  const INT56: Byte := 0x2e
  const INT64: Byte := 0x2f
  const ENUM8: Byte := 0x30
  const ENUM16: Byte := 0x31
  const SEMI_PREC: Byte := 0x38
  const SINGLE_PREC: Byte := 0x39
  const DOUBLE_PREC: Byte := 0x3a
  const OCTET_STR: Byte := 0x41
  const CHAR_STR: Byte := 0x42
  const LONG_OCTET_STR: Byte := 0x43
  const LONG_CHAR_STR: Byte := 0x44
  const ARRAY: Byte := 0x48
  const STRUCT: Byte := 0x4c
  const SET: Byte := 0x50
  const BAG: Byte := 0x51
  const TOD: Byte := 0xe0
  const DATE: Byte := 0xe1
  const UTC: Byte := 0xe2
  const CLUSTER_ID: Byte := 0xe8
  const ATTR_ID: Byte := 0xe9
  const BAC_OID: Byte := 0xea
  const IEEE_ADDR: Byte := 0xf0
  const BIT_128_SEC_KEY: Byte := 0xf1
  const UNKNOWN: Byte := 0xff

  /** How the decoder reads the value that follows a data-type tag. */
  datatype ValueKind =
    | LongString   // two-byte big-endian length, then that many bytes
    | ShortString  // one-byte length, then that many bytes
    | Enum8        // one byte
    | Uint16       // two bytes, big-endian
    | Uint32       // four bytes, big-endian
    | Uint48       // six bytes, big-endian
    | Uint64       // eight bytes, big-endian
    | Unsupported  // ZbhciUnsupportedValueTypeException

  function KindOf(dataType: Byte): ValueKind
  {
    if dataType == LONG_CHAR_STR || dataType == LONG_OCTET_STR then LongString
    else if dataType == CHAR_STR || dataType == OCTET_STR then ShortString
    else if dataType == ENUM8 then Enum8
    else if dataType == DATA16 || dataType == BITMAP16 || dataType == UINT16 || dataType == INT16
         || dataType == ENUM16 || dataType == SEMI_PREC || dataType == CLUSTER_ID || dataType == ATTR_ID
    then Uint16
    else if dataType == DATA32 || dataType == BITMAP32 || dataType == UINT32 || dataType == INT32
         || dataType == SINGLE_PREC || dataType == DATE || dataType == UTC || dataType == BAC_OID
    then Uint32
    else if dataType == DATA48 || dataType == BITMAP48 || dataType == UINT48 || dataType == INT48 then Uint48
    else if dataType == DATA64 || dataType == BITMAP64 || dataType == UINT64 || dataType == INT64
         || dataType == DOUBLE_PREC || dataType == IEEE_ADDR
    then Uint64
    else Unsupported
  }
}
