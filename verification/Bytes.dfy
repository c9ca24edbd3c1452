/** Bytes, machine words and a few facts about collections that the other modules share. */
module Bytes {

  datatype Option<T> = None | Some(value: T)

  type Byte = b: int | 0 <= b < 256

  type Bytes = seq<Byte>

  const TWO32: int := 0x1_0000_0000
  const TWO63: int := 0x8000_0000_0000_0000
  const TWO64: int := 0x1_0000_0000_0000_0000

  type Uint32 = n: int | 0 <= n < TWO32
  type Uint64 = n: int | 0 <= n < TWO64
  type Int32 = n: int | -0x8000_0000 <= n < 0x8000_0000
  type Int64 = n: int | -TWO63 <= n < TWO63

  /** A 256-bit hash, which is only ever compared. */
  datatype Hash = Hash(bits: nat)

  /** An output of a transaction, by the transaction's hash and the output's index. */
  datatype OutPoint = OutPoint(hash: Hash, index: Uint32)

  /** Go's conversion of a signed integer to uint64: two's complement. */
  function ToUint64(n: int): (r: Uint64)
    requires -TWO63 <= n < TWO64
  {
    if n < 0 then n + TWO64 else n
  }

  /** Go's truncating conversion of a uint64 to int32. */
  function ToInt32(n: Uint64): (r: Int32) {
    var low := n % TWO32;
    if low < 0x8000_0000 then low else low - TWO32
  }

  /** Go's conversion of a uint64 to int64. */
  function ToInt64(n: Uint64): (r: Int64) {
    if n < TWO63 then n else n - TWO64
  }

  /** A 32-bit signed value survives the widening and the truncation. */
  lemma Int32RoundTrip(v: Int32)
    ensures ToInt32(ToUint64(v)) == v
  {
    if v < 0 {
      assert v + TWO64 == (v + TWO32) + TWO32 * (TWO32 - 1);
      assert (v + TWO64) % TWO32 == v + TWO32;
    }
  }

  lemma {:induction false} SmallMod(n: nat)
    requires n < TWO64
    ensures n % TWO64 == n
  {
  }

  lemma {:induction false} SmallMod32(n: nat)
    requires n < TWO32
    ensures n % TWO32 == n
  {
  }

  lemma Associative<T>(a: seq<T>, b: seq<T>, c: seq<T>)
    ensures a + b + c == a + (b + c)
  {
  }

  lemma TakeDrop<T>(a: seq<T>, b: seq<T>)
    ensures (a + b)[..|a|] == a && (a + b)[|a|..] == b
  {
  }

  /** `after` is `before` with the bytes from `at` on overwritten by `s`. */
  ghost predicate Spliced(after: Bytes, before: Bytes, at: nat, s: Bytes) {
    && |after| == |before| >= at + |s|
    && forall k {:trigger SplicedAt(after, before, at, s, k)} :: 0 <= k < |after| ==> SplicedAt(after, before, at, s, k)
  }

  ghost predicate SplicedAt(after: Bytes, before: Bytes, at: nat, s: Bytes, k: nat)
    requires k < |after| == |before|
  {
    after[k] == if at <= k < at + |s| then s[k - at] else before[k]
  }

  lemma SplicedSlices(after: Bytes, before: Bytes, at: nat, s: Bytes)
    requires Spliced(after, before, at, s)
    ensures after[..at] == before[..at]
    ensures after[at..at + |s|] == s
    ensures after[at + |s|..] == before[at + |s|..]
  {
    forall k | 0 <= k < |after| ensures after[k] == if at <= k < at + |s| then s[k - at] else before[k] {
      assert SplicedAt(after, before, at, s, k);
    }
  }

  /** Writing `s` and then `t` behind it writes their concatenation. */
  lemma SplicedTwice(last: Bytes, mid: Bytes, first: Bytes, at: nat, next: nat, s: Bytes, t: Bytes)
    requires next == at + |s|
    requires Spliced(mid, first, at, s) && Spliced(last, mid, next, t)
    ensures Spliced(last, first, at, s + t)
  {
    forall k | 0 <= k < |last| ensures SplicedAt(last, first, at, s + t, k) {
      assert SplicedAt(mid, first, at, s, k) && SplicedAt(last, mid, next, t, k);
    }
  }

  /** Writing right behind a prefix extends it. */
  lemma PrefixGrows(after: Bytes, before: Bytes, at: nat, s: Bytes)
    requires Spliced(after, before, at, s)
    ensures after[..at + |s|] == before[..at] + s
  {
    forall k | 0 <= k < at + |s| ensures after[k] == (before[..at] + s)[k] {
      assert SplicedAt(after, before, at, s, k);
    }
  }

  function Pow2(k: nat): (p: nat)
    ensures p > 0
  {
    if k == 0 then 1 else 2 * Pow2(k - 1)
  }

  /** No element occurs twice. */
  ghost predicate NoRepeats<T>(s: seq<T>) {
    forall i, j :: 0 <= i < j < |s| ==> s[i] != s[j]
  }

  lemma {:induction false} SubsetSize<T>(a: set<T>, b: set<T>)
    requires a <= b
    ensures |a| <= |b| && (|a| == |b| ==> a == b)
  {
    if a != {} {
      var x :| x in a;
      SubsetSize(a - {x}, b - {x});
    }
  }
}
