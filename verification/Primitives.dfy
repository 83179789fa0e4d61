/** Fixed-width values, result types and the hash functions every other module shares. */
module Primitives {
  newtype byte = x: int | 0 <= x < 256
  type Bytes = seq<byte>

  type u64 = x: int | 0 <= x < 0x1_0000_0000_0000_0000

  /** `n` zero bytes. */
  function Zeros(n: nat): (s: Bytes)
    ensures |s| == n && forall i :: 0 <= i < n ==> s[i] == 0
  {
    seq(n, _ => 0)
  }

  /** A 32-byte hash (`B256`). */
  type Digest = s: Bytes | |s| == 32 witness Zeros(32)

  /** `B256::ZERO` */
  const ZERO: Digest := Zeros(32)

  /** `n` zero digests. */
  function ZeroDigests(n: nat): (s: seq<Digest>)
    ensures |s| == n && forall i :: 0 <= i < n ==> s[i] == ZERO
  {
    seq(n, _ => ZERO)
  }

  datatype Option<+T> = None | Some(value: T)
  datatype Result<+T, +E> = Ok(value: T) | Err(error: E)

  /** SHA-256 of the 64-byte concatenation of two digests. Nothing is known about it: the
      constant has no value here, so every statement holds for every such function. */
  const SHA256_PAIR: (Digest, Digest) -> Digest

  function H(left: Digest, right: Digest): Digest {
    SHA256_PAIR(left, right)
  }
}
