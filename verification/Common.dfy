/**
 * Basic types shared by the model of the RFID attendance sketches.
 *
 * An Arduino `String` is a buffer of 8-bit `char`s, so every string in the
 * model is a sequence of characters whose code is below 256.
 */
module Common {

  datatype Option<T> = None | Some(value: T)

  /** An unsigned 8-bit value, as in the reader's `uid.uidByte[]`. */
  type Byte = x: int | 0 <= x < 0x100

  /** One character of an Arduino `String`: an 8-bit code. */
  type ByteChar = c: char | c as int < 0x100

  /** The contents of an Arduino `String`. */
  type ByteString = seq<ByteChar>

  /** The terminator that ends the walk over `c_str()`. */
  const NUL: ByteChar := '\0'
}
