/** The two error records of the crate (src/error/length_error.rs, src/error/utf8_error.rs). */
module Errors {
  import opened Utf8Syntax

  /** A string overflowed its buffer: `remaining` bytes of capacity, `count` bytes requested. */
  datatype LengthError = LengthError(remaining: nat, count: nat)

  /** An invalid UTF-8 byte `value` was found at offset `index`. */
  datatype Utf8Error = Utf8Error(value: byte, index: nat)
}
