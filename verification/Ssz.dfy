/** The pieces of SSZ that the header container needs: little-endian integers, vectors of
    digests, and the four-byte offsets of a container with two variable-length fields. */
module Ssz {
  import opened Primitives
  import opened Bits

  function LeBytes(x: nat, n: nat): (b: Bytes)
    ensures |b| == n
    decreases n, x
  {
    if n == 0 then [] else [(x % 256) as byte] + LeBytes(x / 256, n - 1)
  }

  function FromLe(b: Bytes): nat {
    if b == [] then 0 else b[0] as nat + 256 * FromLe(b[1..])
  }

  /** `x` fits in `n` bytes. */
  predicate Fits(x: nat, n: nat)
    decreases n
  {
    if n == 0 then x == 0 else Fits(x / 256, n - 1)
  }

  lemma {:induction false} FromLeToLe(x: nat, n: nat)
    requires Fits(x, n)
    ensures FromLe(LeBytes(x, n)) == x
    decreases n
  {
    if n > 0 {
      FromLeToLe(x / 256, n - 1);
      assert LeBytes(x, n)[1..] == LeBytes(x / 256, n - 1);
    }
  }

  lemma {:induction false} ToLeFromLe(b: Bytes)
    ensures Fits(FromLe(b), |b|)
    ensures LeBytes(FromLe(b), |b|) == b
  {
    if b != [] {
      ToLeFromLe(b[1..]);
      var x := FromLe(b);
      assert x % 256 == b[0] as nat && x / 256 == FromLe(b[1..]);
      assert b == [b[0]] + b[1..];
    }
  }

  lemma {:induction false} FitsBelowPower(x: nat, n: nat)
    ensures Fits(x, n) <==> x < Pow256(n)
    decreases n
  {
    if n > 0 {
      FitsBelowPower(x / 256, n - 1);
    }
  }

  lemma FitsBelow(x: nat, n: nat)
    requires (n == 4 && x < 0x1_0000_0000) || (n == 8 && x < 0x1_0000_0000_0000_0000)
    ensures Fits(x, n)
  {
    assert Pow256(4) == 0x1_0000_0000 && Pow256(8) == 0x1_0000_0000_0000_0000;
    FitsBelowPower(x, n);
  }

  lemma FitsBound(x: nat)
    requires Fits(x, 8)
    ensures x < 0x1_0000_0000_0000_0000
  {
    assert Pow256(8) == 0x1_0000_0000_0000_0000;
    FitsBelowPower(x, 8);
  }

  /** The bytes of a number are its digits to the base 256, the lowest first. */
  lemma {:induction false} LittleEndian(x: nat, n: nat, i: nat)
    requires i < n
    ensures LeBytes(x, n)[i] as nat == x / Pow256(i) % 256
    decreases i
  {
    if i > 0 {
      LittleEndian(x / 256, n - 1, i - 1);
      DivDiv(x, Pow256(i - 1));
    }
  }

  function U64Bytes(x: u64): (b: Bytes)
    ensures |b| == 8
  {
    LeBytes(x, 8)
  }

  function U64FromBytes(b: Bytes): u64
    requires |b| == 8
  {
    ToLeFromLe(b);
    FitsBound(FromLe(b));
    FromLe(b)
  }

  lemma U64Inverse(x: u64, b: Bytes)
    ensures U64FromBytes(U64Bytes(x)) == x
    ensures |b| == 8 ==> U64Bytes(U64FromBytes(b)) == b
  {
    FitsBelow(x, 8);
    FromLeToLe(x, 8);
    ToLeFromLe(b);
  }

  /** A number as a 32-byte little-endian chunk. */
  function Chunk(x: nat): Digest {
    LeBytes(x, 32)
  }

  lemma {:induction false} LeBytesPad(x: nat, n: nat, m: nat)
    requires Fits(x, n)
    ensures LeBytes(x, n + m) == LeBytes(x, n) + Zeros(m)
    decreases n + m
  {
    if n > 0 {
      LeBytesPad(x / 256, n - 1, m);
    } else if m > 0 {
      LeBytesPad(0, 0, m - 1);
      assert Zeros(m) == [0] + Zeros(m - 1);
    }
  }

  /** A chunk gives back every number of up to 256 bits, and no other number has it. */
  lemma ChunkGivesBack(x: nat, y: nat)
    requires x < Pow256(32) && y < Pow256(32)
    ensures FromLe(Chunk(x)) == x
    ensures Chunk(x) == Chunk(y) ==> x == y
  {
    hide LeBytes, FromLe, Fits, Pow256;
    FitsBelowPower(x, 32);
    FitsBelowPower(y, 32);
    FromLeToLe(x, 32);
    FromLeToLe(y, 32);
  }

  lemma ChunkOfZero()
    ensures Chunk(0) == ZERO
  {
    LeBytesPad(0, 0, 32);
  }

  lemma ChunkInjective(x: u64, y: u64)
    requires Chunk(x) == Chunk(y)
    ensures x == y
  {
    hide LeBytes;
    FitsBelow(x, 8);
    FitsBelow(y, 8);
    LeBytesPad(x, 8, 24);
    LeBytesPad(y, 8, 24);
    assert U64Bytes(x) == Chunk(x)[..8] && U64Bytes(y) == Chunk(y)[..8];
    U64Inverse(x, []);
    U64Inverse(y, []);
  }

  /** Copies the eight bytes of a number into a zeroed buffer: its chunk. */
  method IntToFixedBytes32(x: u64) returns (bytes: array<byte>)
    ensures fresh(bytes) && bytes[..] == Chunk(x)
  {
    bytes := new byte[32](_ => 0);
    var intBytes := U64Bytes(x);
    for i := 0 to 8
      invariant forall k :: 0 <= k < i ==> bytes[k] == intBytes[k]
      invariant forall k :: i <= k < 32 ==> bytes[k] == 0
    {
      bytes[i] := intBytes[i];
    }
    FitsBelow(x, 8);
    LeBytesPad(x, 8, 24);
    assert bytes[..] == intBytes + Zeros(24);
  }

  // ---- Vectors of digests ----

  function Flatten(ds: seq<Digest>): (b: Bytes)
    ensures |b| == 32 * |ds|
  {
    if ds == [] then [] else ds[0] + Flatten(ds[1..])
  }

  function Digests(b: Bytes, n: nat): (ds: seq<Digest>)
    requires |b| == 32 * n
    ensures |ds| == n
    decreases n, b
  {
    if n == 0 then [] else [b[..32]] + Digests(b[32..], n - 1)
  }

  lemma {:induction false} DigestsOfFlatten(ds: seq<Digest>)
    ensures Digests(Flatten(ds), |ds|) == ds
  {
    if ds != [] {
      DigestsOfFlatten(ds[1..]);
      assert Flatten(ds)[..32] == ds[0] && Flatten(ds)[32..] == Flatten(ds[1..]);
    }
  }

  /** Digest `i` stands at bytes `32 * i` to `32 * i + 32`. */
  lemma {:induction false} FlattenAt(ds: seq<Digest>, i: nat)
    requires i < |ds|
    ensures Flatten(ds)[32 * i..32 * i + 32] == ds[i]
  {
    if i > 0 {
      FlattenAt(ds[1..], i - 1);
      assert Flatten(ds)[32 * i..32 * i + 32] == Flatten(ds[1..])[32 * (i - 1)..32 * (i - 1) + 32];
    }
  }

  lemma {:induction false} FlattenOfDigests(b: Bytes, n: nat)
    requires |b| == 32 * n
    ensures Flatten(Digests(b, n)) == b
    decreases n
  {
    if n > 0 {
      FlattenOfDigests(b[32..], n - 1);
      var ds := Digests(b, n);
      assert ds[1..] == Digests(b[32..], n - 1);
      assert b == b[..32] + b[32..];
    }
  }

  /** Cutting four concatenated parts apart again. */
  lemma FourParts(a: Bytes, b: Bytes, c: Bytes, d: Bytes)
    ensures var all := a + b + c + d;
      var i, j := |a| + |b|, |a| + |b| + |c|;
      all[..|a|] == a && all[|a|..i] == b && all[i..j] == c && all[j..] == d
  {
  }

  // ---- A container of two variable-length fields ----

  /** Two offsets, then the two fields. */
  function TwoFields(first: Bytes, second: Bytes): Bytes {
    LeBytes(8, 4) + LeBytes(8 + |first|, 4) + first + second
  }

  /** The two fields, when the first offset is the size of the fixed part and the second lies
      between it and the end. */
  function SplitTwoFields(b: Bytes): Option<(Bytes, Bytes)> {
    if |b| < 8 then None
    else
      var o1, o2 := FromLe(b[..4]), FromLe(b[4..8]);
      if o1 == 8 && o1 <= o2 <= |b| then Some((b[8..o2], b[o2..])) else None
  }

  lemma SplitOfTwoFields(first: Bytes, second: Bytes)
    requires |first| < 0x1_0000_0000 - 8
    ensures SplitTwoFields(TwoFields(first, second)) == Some((first, second))
  {
    hide LeBytes, FromLe, Fits;
    var b := TwoFields(first, second);
    FitsBelow(8, 4);
    FitsBelow(8 + |first|, 4);
    FromLeToLe(8, 4);
    FromLeToLe(8 + |first|, 4);
    assert b[..4] == LeBytes(8, 4) && b[4..8] == LeBytes(8 + |first|, 4);
    assert b[8..8 + |first|] == first && b[8 + |first|..] == second;
  }

  lemma TwoFieldsOfSplit(b: Bytes)
    requires SplitTwoFields(b).Some?
    ensures var (first, second) := SplitTwoFields(b).value;
      TwoFields(first, second) == b
  {
    hide LeBytes, FromLe, Fits;
    ToLeFromLe(b[..4]);
    ToLeFromLe(b[4..8]);
    var (first, second) := SplitTwoFields(b).value;
    assert b == b[..4] + b[4..8] + first + second;
  }
}
