/** Machine words, fixed-size byte arrays and the result wrappers shared by the model. */
module Words {

  type Byte = bv8

  const MAX_U64: nat := 0xFFFF_FFFF_FFFF_FFFF

  /** Rust's `u64`. */
  type U64 = x: nat | x <= MAX_U64

  /** Rust's `[u8; 32]`: public keys, transaction ids, seeds. */
  type Bytes32 = s: seq<Byte> | |s| == 32 witness seq(32, _ => 0)

  /** Rust's `[b; 32]`: the 32-byte value with every byte equal to `b`. */
  function Filled(b: Byte): (r: Bytes32)
    ensures forall i :: 0 <= i < 32 ==> r[i] == b
  {
    seq(32, _ => b)
  }

  /** Rust's `[u8; 64]`: signatures. */
  type Bytes64 = s: seq<Byte> | |s| == 64 witness seq(64, _ => 0)

  /** Rust's `Option<T>`. */
  datatype Option<+T> = None | Some(value: T)

  /** Rust's `Result<(), E>`: success carries no value. */
  datatype Outcome<+E> = Pass | Fail(error: E)
}
