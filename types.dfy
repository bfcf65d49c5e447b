/** Shared value types of the overlay-record model. */
module Types {

  /** One octet of a file, as Rust's `u8`. */
  type Byte = x: int | 0 <= x < 256

  /** Rust's `Option`. */
  datatype Option<+T> = None | Some(value: T)

  /** Rust's `Result`. */
  datatype Result<+T, +E> = Ok(value: T) | Err(error: E)

  /** Rust's `std::cmp::Ordering`. */
  datatype Ordering = Less | Equal | Greater {
    function Reverse(): Ordering {
      match this
      case Less => Greater
      case Equal => Equal
      case Greater => Less
    }
  }

  /** The largest value of a 64-bit `usize`/`u64`. */
  const U64_MAX: nat := 0xFFFF_FFFF_FFFF_FFFF
}
