/** Shared vocabulary: optional values, failures, and the machine types the
    modelled program stores. */
module Common {

  datatype Option<+T> = None | Some(value: T)

  datatype Result<+T, +E> = Ok(value: T) | Err(error: E)

  /** The largest value of an unsigned 64-bit integer. */
  const U64_MAX: int := 0xFFFF_FFFF_FFFF_FFFF

  type U64 = n: int | 0 <= n <= U64_MAX

  /** The number in a word: a hash, a tree node, a public key or a commitment. Words are
      only compared and hashed, so their width does not matter. */
  type Word = n: int | 0 <= n

  type Byte = n: int | 0 <= n < 256

  type Bytes = seq<Byte>

  function SaturatingSucc(n: U64): U64 {
    if n == U64_MAX then U64_MAX else n + 1
  }

  function Pow2(k: nat): (p: nat)
    ensures p > 0
  {
    if k == 0 then 1 else 2 * Pow2(k - 1)
  }
}
