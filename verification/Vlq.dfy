/**
 Variable length quantities (blockchain/compress.go): base-128 digits, most significant first,
 with one subtracted each time seven bits are shifted out so that no number has two encodings.
 */
module Vlq {
  import opened Bytes

  // ----- the format -----

  /** The leading digits of an encoding: every byte carries the continuation bit. */
  function Leading(n: nat): (s: Bytes)
  {
    if n <= 0x7f then [0x80 + n] else Leading(n / 0x80 - 1) + [0x80 + n % 0x80]
  }

  /** The encoding of `n`: leading digits, then a final byte without the continuation bit. */
  function Encode(n: nat): (s: Bytes)
  {
    if n <= 0x7f then [n] else Leading(n / 0x80 - 1) + [n % 0x80]
  }

  lemma EncodeLength(n: nat)
    ensures |Encode(n)| == |Leading(n)| >= 1
  {
  }

  /** Every byte but the last carries the continuation bit. */
  ghost predicate WellFormed(s: Bytes) {
    && |s| > 0
    && s[|s| - 1] < 0x80
    && forall i :: 0 <= i < |s| - 1 ==> s[i] >= 0x80
  }

  /** What leading digits stand for, including the one that was subtracted below them. */
  function Above(s: Bytes): (n: nat)
  {
    if s == [] then 0 else Above(s[..|s| - 1]) * 0x80 + s[|s| - 1] % 0x80 + 1
  }

  /** What a string of digits stands for, over the unbounded naturals. */
  function Value(s: Bytes): (n: nat)
    requires s != []
  {
    Above(s[..|s| - 1]) * 0x80 + s[|s| - 1] % 0x80
  }

  function Pow128(k: nat): (p: nat)
  {
    if k == 0 then 1 else 0x80 * Pow128(k - 1)
  }

  lemma {:induction false} LeadingBound(n: nat, k: nat)
    requires k > 0 && n < Pow128(k)
    ensures |Leading(n)| <= k
    decreases k
  {
    if n > 0x7f {
      assert Pow128(1) == 0x80 * Pow128(0);
      LeadingBound(n / 0x80 - 1, k - 1);
    }
  }

  /** No 64-bit number needs more than ten bytes. */
  lemma SizeBound(n: nat)
    requires n < TWO64
    ensures |Encode(n)| <= 10
  {
    EncodeLength(n);
    assert Pow128(10) > TWO64;
    LeadingBound(n, 10);
  }

  // ----- encoding -----

  /** serializeSizeVLQ: counts the bytes of an encoding without writing it. */
  method SerializeSize(number: Uint64) returns (size: nat)
    ensures size == |Encode(number)|
  {
    size := 1;
    var n: nat := number;
    EncodeLength(n);
    while n > 0x7f
      invariant |Encode(number)| == size - 1 + |Leading(n)|
      decreases n
    {
      n := n / 0x80 - 1;
      size := size + 1;
    }
  }

  /** The number putVLQ still has to write after `k` digits. */
  function After(n: nat, k: nat): (m: nat)
  {
    if k == 0 then n
    else
      var m := After(n, k - 1);
      if m <= 0x7f then 0 else m / 0x80 - 1
  }

  lemma {:induction false} AfterFirst(n: nat, k: nat)
    requires n > 0x7f && k > 0
    ensures After(n, k) == After(n / 0x80 - 1, k - 1)
    decreases k
  {
    if k > 1 {
      AfterFirst(n, k - 1);
    }
  }

  lemma {:induction false} LeadingAt(n: nat, k: nat)
    requires k < |Leading(n)|
    ensures Leading(n)[|Leading(n)| - 1 - k] == 0x80 + After(n, k) % 0x80
    ensures After(n, k) <= 0x7f <==> k == |Leading(n)| - 1
    decreases k
  {
    if n > 0x7f {
      EncodeLength(n / 0x80 - 1);
    }
    if k > 0 {
      LeadingAt(n / 0x80 - 1, k - 1);
      AfterFirst(n, k);
    }
  }

  /** The digit putVLQ writes at step `k`, counted from the end of the encoding. */
  lemma {:induction false} EncodeAt(n: nat, k: nat)
    requires k < |Encode(n)|
    ensures Encode(n)[|Encode(n)| - 1 - k] == After(n, k) % 0x80 + if k == 0 then 0 else 0x80
    ensures After(n, k) <= 0x7f <==> k == |Encode(n)| - 1
  {
    if n > 0x7f {
      EncodeLength(n / 0x80 - 1);
    }
    if k > 0 {
      LeadingAt(n / 0x80 - 1, k - 1);
      AfterFirst(n, k);
    }
  }

  /**
   putVLQ on the slice target[at..]: digits are written least significant first and then
   reversed in place. Everything outside the written bytes is left alone.
   */
  method Put(target: array<Byte>, at: nat, number: Uint64) returns (written: nat)
    requires at + |Encode(number)| <= target.Length
    modifies target
    ensures written == |Encode(number)|
    ensures Spliced(target[..], old(target[..]), at, Encode(number))
  {
    var offset := 0;
    var n: nat := number;
    ghost var size := |Encode(number)|;
    EncodeLength(number);
    while true
      invariant 0 <= offset < size && n == After(number, offset)
      invariant forall k :: at <= k < at + offset ==> target[k] == Encode(number)[size - 1 - (k - at)]
      invariant forall k :: 0 <= k < at || at + size <= k < target.Length ==> target[k] == old(target[k])
      decreases size - offset
    {
      EncodeAt(number, offset);
      var highBitMask := if offset == 0 then 0 else 0x80;
      target[at + offset] := n % 0x80 + highBitMask;
      if n <= 0x7f {
        break;
      }
      n := n / 0x80 - 1;
      offset := offset + 1;
    }
    Reverse(target, at, offset + 1);
    written := offset + 1;
  }

  /** The reversing loop at the end of putVLQ. */
  method Reverse(target: array<Byte>, at: nat, len: nat)
    requires at + len <= target.Length
    modifies target
    ensures forall k :: at <= k < at + len ==> target[k] == old(target[2 * at + len - 1 - k])
    ensures forall k :: 0 <= k < at || at + len <= k < target.Length ==> target[k] == old(target[k])
  {
    var i, j := 0, len - 1;
    while i < j
      invariant i + j == len - 1 && 0 <= i <= j + 1
      invariant forall k :: at <= k < at + i || at + j < k < at + len ==> target[k] == old(target[2 * at + len - 1 - k])
      invariant forall k :: 0 <= k < at || at + i <= k <= at + j || at + len <= k < target.Length ==>
        target[k] == old(target[k])
      decreases j - i
    {
      target[at + i], target[at + j] := target[at + j], target[at + i];
      i, j := i + 1, j - 1;
    }
  }

  // ----- decoding -----

  /** One step of deserializeVLQ: shift the accumulator, dropping what leaves 64 bits, and add a digit. */
  function Shift(acc: Uint64, b: Byte): (n: Uint64)
    ensures acc < 0x200_0000_0000_0000 ==> n == acc * 0x80 + b % 0x80
  {
    // the seven top bits are lost and the seven low bits of the shifted word are clear
    acc % 0x200_0000_0000_0000 * 0x80 + b % 0x80
  }

  /** A 64-bit increment, which wraps. */
  function Increment(n: Uint64): (r: Uint64)
  {
    if n == TWO64 - 1 then 0 else n + 1
  }

  /** deserializeVLQ's loop from an accumulator: the number and the bytes left unread. */
  function DecodeFrom(acc: Uint64, s: Bytes): (r: (Uint64, Bytes))
    ensures |r.1| <= |s|
    ensures s != [] ==> |r.1| < |s|
    decreases |s|
  {
    if s == [] then (acc, [])
    else if s[0] < 0x80 then (Shift(acc, s[0]), s[1..])
    else DecodeFrom(Increment(Shift(acc, s[0])), s[1..])
  }

  /** deserializeVLQ: the number at the front of `s`, and what follows it. */
  function Decode(s: Bytes): (r: (Uint64, Bytes))
    ensures |r.1| <= |s|
    ensures s != [] ==> |r.1| < |s|
  {
    DecodeFrom(0, s)
  }

  /** deserializeVLQ, which returns the number of bytes it has read. */
  method Deserialize(serialized: Bytes) returns (n: Uint64, size: nat)
    ensures size <= |serialized|
    ensures Decode(serialized) == (n, serialized[size..])
  {
    n, size := 0, 0;
    while size < |serialized|
      invariant size <= |serialized|
      invariant Decode(serialized) == DecodeFrom(n, serialized[size..])
    {
      var val := serialized[size];
      assert serialized[size..][1..] == serialized[size + 1..];
      size := size + 1;
      n := Shift(n, val);
      if val < 0x80 {
        return;
      }
      n := Increment(n);
    }
  }

  // ----- no redundant encodings -----

  lemma {:induction false} SplitDigit(n: nat, d: nat)
    requires d < 0x80
    ensures (n * 0x80 + d) / 0x80 == n && (n * 0x80 + d) % 0x80 == d
  {
  }

  lemma {:induction false} LeadingIsCanonical(s: Bytes)
    requires s != [] && forall i :: 0 <= i < |s| ==> s[i] >= 0x80
    ensures Above(s) >= 1 && Leading(Above(s) - 1) == s
  {
    var init, d := s[..|s| - 1], s[|s| - 1] % 0x80;
    assert s == init + [0x80 + d];
    if init != [] {
      LeadingIsCanonical(init);
      SplitDigit(Above(init), d);
    }
  }

  lemma LastDigit(init: Bytes, d: Byte, s: Bytes)
    requires d < 0x80 && s == init + [d]
    ensures Value(s) == Above(init) * 0x80 + d
  {
    assert s[..|s| - 1] == init && s[|s| - 1] == d;
    SplitDigit(0, d);
  }

  lemma EncodeDigits(q: nat, d: Byte, n: nat)
    requires d < 0x80 && n == q * 0x80 + d
    ensures Encode(n) == if q == 0 then [d] else Leading(q - 1) + [d]
  {
    SplitDigit(q, d);
  }

  /** Leading bytes are the digits of what they stand for. */
  lemma LeadingDigits(init: Bytes, d: Byte)
    requires forall i :: 0 <= i < |init| ==> init[i] >= 0x80
    ensures init + [d] == if Above(init) == 0 then [d] else Leading(Above(init) - 1) + [d]
  {
    if init != [] {
      LeadingIsCanonical(init);
    }
  }

  /** Every well-formed string is the encoding of its own value, so encodings are unique. */
  lemma EncodeValue(s: Bytes)
    requires WellFormed(s)
    ensures Encode(Value(s)) == s
  {
    var init, d := s[..|s| - 1], s[|s| - 1];
    assert s == init + [d];
    LeadingDigits(init, d);
    LastDigit(init, d, s);
    EncodeDigits(Above(init), d, Value(s));
  }

  lemma {:induction false} LeadingIsContinued(n: nat)
    ensures forall i :: 0 <= i < |Leading(n)| ==> Leading(n)[i] >= 0x80
    ensures Above(Leading(n)) == n + 1
  {
    if n > 0x7f {
      LeadingIsContinued(n / 0x80 - 1);
      var s := Leading(n);
      assert s[..|s| - 1] == Leading(n / 0x80 - 1);
    }
  }

  lemma LastByte(init: Bytes, d: Byte, s: Bytes)
    requires d < 0x80 && s == init + [d] && forall i :: 0 <= i < |init| ==> init[i] >= 0x80
    ensures WellFormed(s)
  {
  }

  lemma LongIsWellFormed(q: nat, d: Byte, s: Bytes)
    requires q > 0 && d < 0x80 && s == Leading(q - 1) + [d]
    ensures WellFormed(s) && Value(s) == q * 0x80 + d
  {
    LeadingIsContinued(q - 1);
    LastByte(Leading(q - 1), d, s);
    LastDigit(Leading(q - 1), d, s);
  }

  lemma ShortIsWellFormed(d: Byte)
    requires d < 0x80
    ensures WellFormed([d]) && Value([d]) == d
  {
    LastByte([], d, [d]);
    LastDigit([], d, [d]);
  }

  /** Encodings are well formed and stand for the number encoded. */
  lemma EncodeIsWellFormed(n: nat)
    ensures WellFormed(Encode(n)) && Value(Encode(n)) == n
  {
    if n > 0x7f {
      LongIsWellFormed(n / 0x80, n % 0x80, Encode(n));
    } else {
      ShortIsWellFormed(n);
    }
  }

  // ----- decoding inverts encoding -----

  /** Reading continuation bytes leaves what they stand for in the accumulator. */
  lemma {:induction false} DecodeContinued(s: Bytes, rest: Bytes)
    requires forall i :: 0 <= i < |s| ==> s[i] >= 0x80
    requires Above(s) < TWO64
    ensures DecodeFrom(0, s + rest) == DecodeFrom(Above(s), rest)
  {
    if s == [] {
      assert s + rest == rest;
    } else {
      var init, b := s[..|s| - 1], s[|s| - 1];
      assert s + rest == init + ([b] + rest);
      DecodeContinued(init, [b] + rest);
      assert ([b] + rest)[1..] == rest;
    }
  }

  /** A well-formed string whose value fits in 64 bits is read back as that value, whatever follows it. */
  lemma {:induction false} DecodeWellFormed(s: Bytes, rest: Bytes)
    requires WellFormed(s) && Value(s) < TWO64
    ensures Decode(s + rest) == (Value(s), rest)
  {
    var init, last := s[..|s| - 1], s[|s| - 1];
    assert s + rest == init + ([last] + rest);
    DecodeContinued(init, [last] + rest);
    assert ([last] + rest)[1..] == rest;
  }

  /** Decoding inverts encoding, whatever follows, and stops exactly at the end of the encoding. */
  lemma DecodeEncode(n: Uint64, rest: Bytes)
    ensures Decode(Encode(n) + rest) == (n, rest)
  {
    EncodeIsWellFormed(n);
    DecodeWellFormed(Encode(n), rest);
  }
}
