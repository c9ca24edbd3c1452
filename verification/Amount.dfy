/**
 Amount compression (blockchain/compress.go): an amount is split into a decimal exponent of at most
 nine, a last digit and the rest, and the three are packed so that round amounts become small numbers.
 */
module Amount {
  import opened Bytes

  /** Divides by ten while the number ends in zero, at most until the exponent reaches nine. */
  function Strip(m: nat, e: nat): (r: (nat, nat))
    requires m > 0 && e <= 9
    ensures r.0 > 0 && e <= r.1 <= 9
    ensures r.1 < 9 ==> r.0 % 10 != 0
    decreases m
  {
    if m % 10 == 0 && e < 9 then Strip(m / 10, e + 1) else (m, e)
  }

  /** `m` multiplied by ten `e` times. */
  function Scale(m: nat, e: nat): (n: nat)
    ensures n >= m + (if m > 0 then e else 0)
    decreases e
  {
    if e == 0 then m else Scale(m * 10, e - 1)
  }

  /** The packed form of a stripped amount. */
  function Pack(m: nat, e: nat): (c: nat)
    requires m > 0 && e <= 9 && (e < 9 ==> m % 10 != 0)
  {
    if e < 9 then 1 + 10 * (9 * (m / 10) + m % 10 - 1) + e else 10 + 10 * (m - 1)
  }

  /** The compression over the unbounded naturals. */
  function Compress(amount: nat): (c: nat) {
    if amount == 0 then 0
    else
      var (m, e) := Strip(amount, 0);
      Pack(m, e)
  }

  /** What a compressed amount splits into: the stripped amount and the exponent. */
  function Unpack(c: nat): (r: (nat, nat))
    requires c > 0
    ensures r.0 > 0 && r.1 <= 9
    ensures r.1 < 9 ==> r.0 % 10 != 0
  {
    var e, x := (c - 1) % 10, (c - 1) / 10;
    (if e < 9 then x / 9 * 10 + x % 9 + 1 else x + 1, e)
  }

  /** The decompression over the unbounded naturals. */
  function Decompress(c: nat): (amount: nat) {
    if c == 0 then 0
    else
      var (m, e) := Unpack(c);
      Scale(m, e)
  }

  // ----- the 64-bit code -----

  /** compressTxOutAmount, in wrapping 64-bit arithmetic. */
  method CompressTxOutAmount(amount: Uint64) returns (r: Uint64)
    ensures r == Compress(amount) % TWO64
  {
    if amount == 0 {
      return 0;
    }
    var m: nat, exponent: nat := amount, 0;
    while m % 10 == 0 && exponent < 9
      invariant 0 < m < TWO64 && exponent <= 9
      invariant Strip(amount, 0) == Strip(m, exponent)
      decreases m
    {
      m := m / 10;
      exponent := exponent + 1;
    }
    if exponent < 9 {
      var lastDigit := m % 10;
      m := m / 10;
      return (1 + 10 * (9 * m + lastDigit - 1) + exponent) % TWO64;
    }
    return (10 + 10 * (m - 1)) % TWO64;
  }

  /** decompressTxOutAmount, in wrapping 64-bit arithmetic. */
  method DecompressTxOutAmount(compressed: Uint64) returns (r: Uint64)
    ensures r == Decompress(compressed) % TWO64
  {
    if compressed == 0 {
      return 0;
    }
    var amount := compressed - 1;
    var exponent := amount % 10;
    amount := amount / 10;
    var n: nat := 0;
    if exponent < 9 {
      var lastDigit := amount % 9 + 1;
      amount := amount / 9;
      n := amount * 10 + lastDigit;
    } else {
      n := amount + 1;
    }
    r := ApplyExponent(n, exponent);
  }

  /** The final loop of decompressTxOutAmount. */
  method ApplyExponent(number: Uint64, exponent: nat) returns (r: Uint64)
    ensures r == Scale(number, exponent) % TWO64
  {
    r := number;
    var e := exponent;
    while e > 0
      invariant 0 <= e
      invariant Scale(r, e) % TWO64 == Scale(number, exponent) % TWO64
      decreases e
    {
      ScaleWraps(r * 10, e - 1);
      r := r * 10 % TWO64;
      e := e - 1;
    }
    SmallMod(r);
  }

  /** Wrapping before scaling changes nothing modulo 2^64. */
  lemma {:induction false} ScaleWraps(n: nat, e: nat)
    ensures Scale(n % TWO64, e) % TWO64 == Scale(n, e) % TWO64
    decreases e
  {
    if e > 0 {
      assert n % TWO64 * 10 % TWO64 == n * 10 % TWO64;
      ScaleWraps(n % TWO64 * 10, e - 1);
      ScaleWraps(n * 10, e - 1);
    }
  }

  // ----- a bijection on the naturals -----

  lemma {:induction false} StripValue(m: nat, e: nat)
    requires m > 0 && e <= 9
    ensures Scale(m, e) == Scale(Strip(m, e).0, Strip(m, e).1)
    decreases m
  {
    if m % 10 == 0 && e < 9 {
      StripValue(m / 10, e + 1);
    }
  }

  lemma SplitTenth(x: nat, e: nat)
    requires e < 10
    ensures (10 * x + e) / 10 == x && (10 * x + e) % 10 == e
  {
  }

  lemma SplitNinth(q: nat, r: nat)
    requires r < 9
    ensures (9 * q + r) / 9 == q && (9 * q + r) % 9 == r
  {
  }

  lemma UnpackPack(m: nat, e: nat)
    requires m > 0 && e <= 9 && (e < 9 ==> m % 10 != 0)
    ensures Unpack(Pack(m, e)) == (m, e)
  {
    if e < 9 {
      var q, r := m / 10, m % 10 - 1;
      assert m == 10 * q + r + 1;
      SplitTenth(9 * q + r, e);
      SplitNinth(q, r);
    } else {
      SplitTenth(m - 1, 9);
    }
  }

  lemma PackUnpack(c: nat)
    requires c > 0
    ensures Pack(Unpack(c).0, Unpack(c).1) == c
  {
    var e, x := (c - 1) % 10, (c - 1) / 10;
    if e < 9 {
      var m := x / 9 * 10 + x % 9 + 1;
      assert m / 10 == x / 9 && m % 10 == x % 9 + 1;
    }
  }

  lemma {:induction false} ScaleTenfold(m: nat, k: nat)
    ensures Scale(m, k + 1) == 10 * Scale(m, k)
    decreases k
  {
    if k > 0 {
      ScaleTenfold(m * 10, k - 1);
    }
  }

  /** Stripping finds the exponent an amount was scaled by. */
  lemma {:induction false} StripScaled(m: nat, k: nat, from: nat)
    requires m > 0 && from + k <= 9 && (from + k < 9 ==> m % 10 != 0)
    ensures Strip(Scale(m, k), from) == (m, from + k)
    decreases k
  {
    if k > 0 {
      ScaleTenfold(m, k - 1);
      StripScaled(m, k - 1, from + 1);
    }
  }

  /** Every amount comes back from its compression. */
  lemma DecompressCompress(amount: nat)
    ensures Decompress(Compress(amount)) == amount
  {
    if amount > 0 {
      var (m, e) := Strip(amount, 0);
      StripValue(amount, 0);
      UnpackPack(m, e);
    }
  }

  /** Every number is the compression of its decompression: the code wastes no value. */
  lemma CompressDecompress(c: nat)
    ensures Compress(Decompress(c)) == c
  {
    if c > 0 {
      var (m, e) := Unpack(c);
      StripScaled(m, e, 0);
      PackUnpack(c);
    }
  }

  /** Compression never grows an amount more than ninefold. */
  lemma CompressBound(amount: nat)
    ensures Compress(amount) <= 9 * amount
  {
    if amount > 0 {
      var (m, e) := Strip(amount, 0);
      StripValue(amount, 0);
      PackBound(m, e);
    }
  }

  lemma PackBound(m: nat, e: nat)
    requires m > 0 && e <= 9 && (e < 9 ==> m % 10 != 0)
    ensures Pack(m, e) <= 9 * Scale(m, e)
  {
  }

  /** An amount is recovered by the 64-bit code whenever its compressed form fits, in particular up to 2^64 / 9. */
  lemma ExactIn64Bits(amount: Uint64)
    ensures 9 * amount < TWO64 ==> Compress(amount) < TWO64
    ensures Compress(amount) < TWO64 ==> Decompress(Compress(amount) % TWO64) % TWO64 == amount
  {
    CompressBound(amount);
    DecompressCompress(amount);
    SmallMod(amount);
    if Compress(amount) < TWO64 {
      SmallMod(Compress(amount));
    }
  }

  /** Beyond that bound the 64-bit code loses amounts: 2^64 - 1 is not recovered. */
  lemma OverflowLosesAmounts()
    ensures Decompress(Compress(TWO64 - 1) % TWO64) % TWO64 != TWO64 - 1
  {
    var m := TWO64 - 1;
    assert Strip(m, 0) == (m, 0);
    assert Compress(m) == 1 + 10 * (9 * (m / 10) + 5 - 1);
    assert Compress(m) % TWO64 == TWO64 - 13;
    assert Unpack(TWO64 - 13).1 == 2;
  }
}
