/**
  Machine types and small wrappers shared by the modules of the client model.
  C's fixed-width unsigned integers become subset types of `int`; where the
  client relies on their width (the 8-bit write offset of the receive buffer)
  the wrap-around is written out where it happens.
 */
module Types {

  /** One octet, as stored in the receive buffer (`u8_t`). */
  type byte = bv8

  type uint16 = x: int | 0 <= x < 0x1_0000
  type uint32 = x: int | 0 <= x < 0x1_0000_0000

  /** A value that may be absent: a NULL pointer or the SDK's `nil_time`. */
  datatype Option<+T> = None | Some(value: T)

  /** lwIP's `err_t` success code `ERR_OK`. */
  const ErrOk: int := 0
}
