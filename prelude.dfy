/** Small value types shared by the header model: bytes, optional values and
    copy-on-write buffers. */
module Prelude {

  /** One byte (Rust `u8`). */
  newtype Byte = b: int | 0 <= b < 0x100

  datatype Option<+T> = None | Some(value: T)

  /** A copy-on-write value (Rust `Cow`): either borrowed from the caller or
      already owned. Both forms observe the same contents. */
  datatype Cow<+T> = Borrowed(borrowed: T) | Owned(owned: T) {

    /** `Cow::into_owned`: clones a borrowed value, moves an owned one. */
    function IntoOwned(): T {
      match this
      case Borrowed(b) => b
      case Owned(o) => o
    }
  }
}
