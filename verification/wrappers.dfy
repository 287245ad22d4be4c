/** Failure-carrying datatypes shared by every module of the model. */
module Wrappers {

  /** A value that may be missing: Python's `None`, a JavaScript empty slot. */
  datatype Option<+T> = None | Some(value: T) {

    /** Returns the wrapped value, or `default` when there is none. */
    function GetOr(default: T): T {
      match this
      case Some(v) => v
      case None => default
    }
  }

  /** The outcome of a computation that may raise: `Err` carries what was raised. */
  datatype Result<+R, +E> = Ok(value: R) | Err(error: E)
}

/** Bytes and the fixed-width integer layouts the device and file formats use. */
module Bytes {

  type Byte = b: int | 0 <= b < 0x100

  /** High byte of a 16-bit quantity, as Python's `(v >> 8) & 0xFF`. */
  function Hi(v: int): Byte { (v / 0x100) % 0x100 }

  /** Low byte, as Python's `v & 0xFF`. */
  function Lo(v: int): Byte { v % 0x100 }

  /** The 16-bit value of a big-endian byte pair. */
  function Word(hi: Byte, lo: Byte): int { hi * 0x100 + lo }

  /** Splitting a 16-bit value into its two bytes and recombining them is the identity. */
  lemma HiLoRecombine(v: int)
    requires 0 <= v < 0x10000
    ensures Word(Hi(v), Lo(v)) == v
  {
  }

  /** The two bytes of a big-endian pair are recovered by `Hi` and `Lo`. */
  lemma HiLoOfPair(hi: Byte, lo: Byte)
    ensures Hi(Word(hi, lo)) == hi && Lo(Word(hi, lo)) == lo
  {
  }
}
