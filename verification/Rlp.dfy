/** Recursive-length prefix as Appendix B of the Ethereum Yellow Paper defines it: canonical
    items only. A decoder returns the value and the bytes after it. */
module Rlp {
  import opened Primitives
  import opened Bits

  const LIMIT := 0x1_0000_0000_0000_0000

  /** A number in big-endian bytes without leading zeros; zero is empty. */
  function Be(n: nat): Bytes {
    if n == 0 then [] else Be(n / 256) + [(n % 256) as byte]
  }

  function FromBe(b: Bytes): nat {
    if b == [] then 0 else FromBe(b[..|b| - 1]) * 256 + b[|b| - 1] as nat
  }

  predicate Minimal(b: Bytes) {
    b != [] ==> b[0] != 0
  }

  lemma {:induction false} BeMinimal(n: nat)
    ensures Minimal(Be(n)) && (n > 0 ==> Be(n) != [])
    ensures FromBe(Be(n)) == n
  {
    if n > 0 {
      BeMinimal(n / 256);
      var b := Be(n);
      assert b[..|b| - 1] == Be(n / 256);
    }
  }

  lemma {:induction false} FromBeCanonical(b: Bytes)
    requires Minimal(b)
    ensures Be(FromBe(b)) == b
    ensures b != [] ==> FromBe(b) > 0
  {
    if b != [] {
      var init := b[..|b| - 1];
      FromBeCanonical(init);
      assert b == init + [b[|b| - 1]];
      assert FromBe(b) / 256 == FromBe(init) && FromBe(b) % 256 == b[|b| - 1] as nat;
    }
  }

  lemma {:induction false} FromBeBound(b: Bytes)
    ensures FromBe(b) < Pow256(|b|)
  {
    if b != [] {
      FromBeBound(b[..|b| - 1]);
    }
  }

  lemma {:induction false} BeLength(n: nat, k: nat)
    requires n < Pow256(k)
    ensures |Be(n)| <= k
  {
    if n > 0 {
      BeLength(n / 256, k - 1);
    }
  }

  /** Eight bytes hold exactly the numbers below 2^64. */
  lemma EightBytes(n: nat, b: Bytes)
    ensures n < LIMIT ==> |Be(n)| <= 8
    ensures |b| <= 8 ==> FromBe(b) < LIMIT
  {
    assert Pow256(8) == LIMIT;
    if n < LIMIT {
      BeLength(n, 8);
    }
    if |b| <= 8 {
      FromBeBound(b);
      Pow256Grows(|b|, 8);
    }
  }

  lemma BeSmall(n: nat)
    ensures n == 0 ==> Be(n) == []
    ensures 0 < n < 256 ==> Be(n) == [n as byte]
    ensures n >= 256 ==> |Be(n)| >= 2
  {
    if n >= 256 {
      BeMinimal(n / 256);
    } else if n > 0 {
      assert n / 256 == 0;
    }
  }

  /** The bytes of a number, counted from the last: its digits to the base 256. */
  lemma {:induction false} BigEndian(n: nat, i: nat)
    requires i < |Be(n)|
    ensures Be(n)[|Be(n)| - 1 - i] as nat == n / Pow256(i) % 256
  {
    if i > 0 {
      BigEndian(n / 256, i - 1);
      DivDiv(n, Pow256(i - 1));
    }
  }

  // ---- Items ----

  function Base(list: bool): nat {
    if list then 0xc0 else 0x80
  }

  /** The type and length in front of a payload of `n` bytes. The length of a length never
      exceeds eight for payloads below 2^64 bytes, which is all that fits in memory. */
  function Prefix(list: bool, n: nat): Bytes {
    if n < 56 then [(Base(list) + n) as byte]
    else [((Base(list) + 55 + |Be(n)|) % 256) as byte] + Be(n)
  }

  function EncodeItem(list: bool, payload: Bytes): (b: Bytes)
    ensures |b| >= |payload| && |b| >= 1
  {
    if !list && |payload| == 1 && payload[0] < 0x80 then payload
    else Prefix(list, |payload|) + payload
  }

  datatype Item = Item(list: bool, payload: Bytes, rest: Bytes)

  function Cut(list: bool, b: Bytes, start: nat, n: nat): (item: Option<Item>)
    ensures item.Some? ==> start + n <= |b| && |item.value.payload| == n && |item.value.rest| == |b| - start - n
  {
    if start + n > |b| then None else Some(Item(list, b[start..start + n], b[start + n..]))
  }

  /** One canonical item from the front of `b`. */
  function DecodeItem(b: Bytes): (item: Option<Item>)
    ensures item.Some? ==> |item.value.rest| < |b|
  {
    if b == [] then None
    else if b[0] < 0x80 then Some(Item(false, b[..1], b[1..]))
    else
      var list := b[0] >= 0xc0;
      var n := b[0] as nat - Base(list);
      if n < 56 then
        var item := Cut(list, b, 1, n);
        if item.Some? && !list && n == 1 && item.value.payload[0] < 0x80 then None else item
      else DecodeLong(list, n - 55, b)
  }

  /** An item whose length takes `k` bytes after the first. */
  function DecodeLong(list: bool, k: nat, b: Bytes): (item: Option<Item>)
    requires k > 0
    ensures item.Some? ==> |item.value.rest| < |b|
  {
    if 1 + k > |b| then None
    else
      var length := b[1..1 + k];
      if length[0] == 0 || FromBe(length) < 56 then None else Cut(list, b, 1 + k, FromBe(length))
  }

  lemma ShortRoundTrip(list: bool, payload: Bytes, rest: Bytes)
    requires |payload| < 56 && (list || |payload| != 1 || payload[0] >= 0x80)
    ensures DecodeItem(EncodeItem(list, payload) + rest) == Some(Item(list, payload, rest))
  {
    var n := |payload|;
    var b := EncodeItem(list, payload) + rest;
    assert b[0] as nat == Base(list) + n;
    assert b[1..1 + n] == payload && b[1 + n..] == rest;
  }

  lemma LongRoundTrip(list: bool, payload: Bytes, rest: Bytes)
    requires 56 <= |payload| < LIMIT
    ensures DecodeItem(EncodeItem(list, payload) + rest) == Some(Item(list, payload, rest))
  {
    hide Be, FromBe, DecodeItem, DecodeLong;
    var length := Be(|payload|);
    BeMinimal(|payload|);
    EightBytes(|payload|, []);
    var first := (Base(list) + 55 + |length|) as byte;
    assert EncodeItem(list, payload) == [first] + length + payload;
    LongParts(list, first, length, payload, rest);
    LongItem([first] + length + payload + rest, list, |length|);
  }

  lemma LongItem(b: Bytes, list: bool, k: nat)
    requires 1 <= k <= 8 && b != [] && b[0] as nat == Base(list) + 55 + k
    ensures DecodeItem(b) == DecodeLong(list, k, b)
  {
  }

  lemma LongParts(list: bool, first: byte, length: Bytes, payload: Bytes, rest: Bytes)
    requires length != [] && length[0] != 0 && FromBe(length) == |payload| >= 56
    ensures DecodeLong(list, |length|, [first] + length + payload + rest) == Some(Item(list, payload, rest))
  {
    var b := [first] + length + payload + rest;
    var k := |length|;
    assert b[1..1 + k] == length;
    assert b[1 + k..1 + k + |payload|] == payload && b[1 + k + |payload|..] == rest;
  }

  lemma ItemRoundTrip(list: bool, payload: Bytes, rest: Bytes)
    requires |payload| < LIMIT
    ensures DecodeItem(EncodeItem(list, payload) + rest) == Some(Item(list, payload, rest))
  {
    if !list && |payload| == 1 && payload[0] < 0x80 {
      var b := payload + rest;
      assert b[..1] == payload && b[1..] == rest;
    } else if |payload| < 56 {
      ShortRoundTrip(list, payload, rest);
    } else {
      LongRoundTrip(list, payload, rest);
    }
  }

  lemma ShortCanonical(b: Bytes)
    requires DecodeItem(b).Some? && b[0] as nat - Base(b[0] >= 0xc0) < 56
    ensures var item := DecodeItem(b).value;
      |item.payload| < LIMIT && b == EncodeItem(item.list, item.payload) + item.rest
  {
    var item := DecodeItem(b).value;
    if b[0] < 0x80 {
      assert b == b[..1] + b[1..];
    } else {
      var n := b[0] as nat - Base(b[0] >= 0xc0);
      assert item == Item(b[0] >= 0xc0, b[1..1 + n], b[1 + n..]);
      assert Prefix(item.list, n) == [b[0]];
      assert b == [b[0]] + b[1..1 + n] + b[1 + n..];
    }
  }

  lemma LongCanonical(b: Bytes)
    requires DecodeItem(b).Some? && b[0] as nat - Base(b[0] >= 0xc0) >= 56
    ensures var item := DecodeItem(b).value;
      |item.payload| < LIMIT && b == EncodeItem(item.list, item.payload) + item.rest
  {
    hide Be, FromBe, DecodeItem, DecodeLong;
    var item := DecodeItem(b).value;
    var k := b[0] as nat - Base(b[0] >= 0xc0) - 55;
    LongItem(b, b[0] >= 0xc0, k);
    LongPartsCanonical(b[0] >= 0xc0, k, b);
    EightBytes(0, b[1..1 + k]);
    assert Prefix(item.list, |item.payload|) == [b[0]] + b[1..1 + k];
    assert EncodeItem(item.list, item.payload) == Prefix(item.list, |item.payload|) + item.payload;
  }

  lemma LongPartsCanonical(list: bool, k: nat, b: Bytes)
    requires k > 0 && b != [] && DecodeLong(list, k, b).Some?
    ensures var item := DecodeLong(list, k, b).value;
      && item.list == list && 56 <= |item.payload| == FromBe(b[1..1 + k])
      && Be(|item.payload|) == b[1..1 + k]
      && b == [b[0]] + b[1..1 + k] + item.payload + item.rest
  {
    FromBeCanonical(b[1..1 + k]);
  }

  lemma ItemCanonical(b: Bytes)
    requires DecodeItem(b).Some?
    ensures var item := DecodeItem(b).value;
      |item.payload| < LIMIT && b == EncodeItem(item.list, item.payload) + item.rest
  {
    if b[0] as nat - Base(b[0] >= 0xc0) < 56 {
      ShortCanonical(b);
    } else {
      LongCanonical(b);
    }
  }

  // ---- Values ----

  function EncodeBytes(x: Bytes): Bytes {
    EncodeItem(false, x)
  }

  function DecodeBytes(b: Bytes): (r: Option<(Bytes, Bytes)>)
    ensures r.Some? ==> |r.value.1| < |b|
  {
    match DecodeItem(b)
    case None => None
    case Some(item) => if item.list then None else Some((item.payload, item.rest))
  }

  lemma BytesRoundTrip(x: Bytes, rest: Bytes)
    requires |x| < LIMIT
    ensures DecodeBytes(EncodeBytes(x) + rest) == Some((x, rest))
  {
    ItemRoundTrip(false, x, rest);
  }

  lemma BytesCanonical(b: Bytes)
    requires DecodeBytes(b).Some?
    ensures |DecodeBytes(b).value.0| < LIMIT && b == EncodeBytes(DecodeBytes(b).value.0) + DecodeBytes(b).value.1
  {
    ItemCanonical(b);
  }

  function EncodeU64(n: u64): Bytes {
    EncodeBytes(Be(n))
  }

  function DecodeU64(b: Bytes): (r: Option<(u64, Bytes)>)
    ensures r.Some? ==> |r.value.1| < |b|
  {
    match DecodeBytes(b)
    case None => None
    case Some((x, rest)) =>
      if |x| > 8 || !Minimal(x) then None
      else
        EightBytes(0, x);
        Some((FromBe(x), rest))
  }

  lemma U64RoundTrip(n: u64, rest: Bytes)
    ensures DecodeU64(EncodeU64(n) + rest) == Some((n, rest))
  {
    BeMinimal(n);
    EightBytes(n, []);
    BytesRoundTrip(Be(n), rest);
  }

  lemma U64Canonical(b: Bytes)
    requires DecodeU64(b).Some?
    ensures b == EncodeU64(DecodeU64(b).value.0) + DecodeU64(b).value.1
  {
    BytesCanonical(b);
    FromBeCanonical(DecodeBytes(b).value.0);
  }

  /** A string of exactly `n` bytes. */
  function DecodeFixed(b: Bytes, n: nat): (r: Option<(Bytes, Bytes)>)
    ensures r.Some? ==> |r.value.0| == n && |r.value.1| < |b|
  {
    match DecodeBytes(b)
    case None => None
    case Some((x, rest)) => if |x| == n then Some((x, rest)) else None
  }

  lemma FixedRoundTrip(x: Bytes, rest: Bytes)
    requires |x| < LIMIT
    ensures DecodeFixed(EncodeBytes(x) + rest, |x|) == Some((x, rest))
  {
    BytesRoundTrip(x, rest);
  }

  lemma FixedCanonical(b: Bytes, n: nat)
    requires DecodeFixed(b, n).Some?
    ensures b == EncodeBytes(DecodeFixed(b, n).value.0) + DecodeFixed(b, n).value.1
  {
    BytesCanonical(b);
  }

  /** The payload of a list item. */
  function DecodeList(b: Bytes): (r: Option<(Bytes, Bytes)>)
    ensures r.Some? ==> |r.value.1| < |b|
  {
    match DecodeItem(b)
    case None => None
    case Some(item) => if item.list then Some((item.payload, item.rest)) else None
  }

  lemma ListRoundTrip(payload: Bytes, rest: Bytes)
    requires |payload| < LIMIT
    ensures DecodeList(EncodeItem(true, payload) + rest) == Some((payload, rest))
  {
    ItemRoundTrip(true, payload, rest);
  }

  lemma ListCanonical(b: Bytes)
    requires DecodeList(b).Some?
    ensures |DecodeList(b).value.0| < LIMIT
    ensures b == EncodeItem(true, DecodeList(b).value.0) + DecodeList(b).value.1
  {
    ItemCanonical(b);
  }

  // ---- Sequences of items ----

  /** Kind and payload of one item after another, whatever they mean. */
  function Items(b: Bytes): Option<seq<(bool, Bytes)>>
    decreases |b|
  {
    if b == [] then Some([])
    else match DecodeItem(b)
      case None => None
      case Some(item) =>
        match Items(item.rest)
        case None => None
        case Some(items) => Some([(item.list, item.payload)] + items)
  }

  lemma NextItem(list: bool, payload: Bytes, rest: Bytes)
    requires |payload| < LIMIT && Items(rest).Some?
    ensures Items(EncodeItem(list, payload) + rest) == Some([(list, payload)] + Items(rest).value)
  {
    hide EncodeItem, DecodeItem;
    ItemRoundTrip(list, payload, rest);
  }

  // ---- Trie keys ----

  /** The key of a transaction or receipt in its trie. */
  method RlpEncodeIndex(index: u64) returns (out: Bytes)
    ensures out == EncodeU64(index)
  {
    out := [];
    var payload := Be(index);
    if |payload| == 1 && payload[0] < 0x80 {
      out := out + payload;
    } else {
      out := out + Prefix(false, |payload|);
      out := out + payload;
    }
  }

  /** The nibbles of a key, high half first. */
  function Nibbles(b: Bytes): (n: seq<int>)
    ensures |n| == 2 * |b|
    ensures forall i :: 0 <= i < |b| ==> n[2 * i] == b[i] as int / 16 && n[2 * i + 1] == b[i] as int % 16
  {
    seq(2 * |b|, i requires 0 <= i < 2 * |b| => if i % 2 == 0 then b[i / 2] as int / 16 else b[i / 2] as int % 16)
  }

  /** The bytes of an item: a byte below 0x80 is itself, and otherwise the first byte gives kind and
      length up to 55, or kind and length of the length, which follows. */
  lemma ItemForms(list: bool, payload: Bytes)
    requires |payload| < LIMIT
    ensures var (b, n) := (EncodeItem(list, payload), |payload|);
      if !list && n == 1 && payload[0] < 0x80 then b == payload
      else if n < 56 then b == [((if list then 192 else 128) + n) as byte] + payload
      else
        var k := |Be(n)|;
        1 <= k <= 8 && b == [((if list then 247 else 183) + k) as byte] + Be(n) + payload
  {
    hide Be, FromBe;
    BeMinimal(|payload|);
    EightBytes(|payload|, []);
  }

  /** Keys: 0x80 for zero, the index itself below 128, and 0x80 plus the number of its bytes in front
      of them from there on. */
  lemma KeyForms(index: u64)
    ensures index == 0 ==> EncodeU64(index) == [128]
    ensures 0 < index < 128 ==> EncodeU64(index) == [index as byte]
    ensures index >= 128 ==>
      var n := |Be(index)|;
      1 <= n <= 8 && EncodeU64(index) == [(128 + n) as byte] + Be(index)
  {
    hide Be, EncodeItem;
    BeSmall(index);
    BeMinimal(index);
    EightBytes(index, []);
    ItemForms(false, Be(index));
  }

  /** No key is a prefix of another key, so no index shadows another in the trie. */
  lemma KeysPrefixFree(i: u64, j: u64)
    requires EncodeU64(i) <= EncodeU64(j)
    ensures i == j
  {
    var rest := EncodeU64(j)[|EncodeU64(i)|..];
    assert EncodeU64(j) == EncodeU64(i) + rest;
    U64RoundTrip(i, rest);
    U64RoundTrip(j, []);
    assert EncodeU64(j) + [] == EncodeU64(j);
  }

  /** The same at the level of nibbles, where the trie branches. */
  lemma NibbleKeysPrefixFree(i: u64, j: u64)
    requires Nibbles(EncodeU64(i)) <= Nibbles(EncodeU64(j))
    ensures i == j
  {
    var a, b := EncodeU64(i), EncodeU64(j);
    forall k | 0 <= k < |a|
      ensures a[k] == b[k]
    {
      assert Nibbles(a)[2 * k] == Nibbles(b)[2 * k] && Nibbles(a)[2 * k + 1] == Nibbles(b)[2 * k + 1];
    }
    KeysPrefixFree(i, j);
  }
}
