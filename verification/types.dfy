/** Values shared by the hash-chain controller model: the Option and Result
    wrappers that stand for Rust's `Option` and `Result<_, io::Error>`, and the
    error conditions the controller reports. */
module Types {

  datatype Option<+T> = None | Some(value: T)

  /** The `io::Error` values the controller produces. `TimedOut` is the one
      error kind the controller inspects; the others are `ErrorKind::Other`
      errors, told apart by the message the source attaches to them. */
  datatype Error =
    | TimedOut                          // an RX FIFO was empty when read
    | UnpackFailed                      // a command response did not unpack
    | UnexpectedChipRev(chip: nat)      // reply `chip` came from a chip that is not a BM1387
    | TooManyChips(count: nat)          // enumeration found MAX_CHIPS_ON_CHAIN chips or more
    | NoChips                           // enumeration found no chip
    | NoChipsToIterate                  // `for_all_chips` on an empty chain
    | Other(code: nat)                  // an error produced by a caller-supplied closure

  datatype Result<+T> = Ok(value: T) | Err(error: Error)

  /** The three unsigned widths the controller works with. */
  type byte = bv8
  type u16 = bv16
  type u32 = bv32
}
