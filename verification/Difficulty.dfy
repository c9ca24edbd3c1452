/**
 Compact difficulty targets and the retarget rule (blockchain/difficulty.go, chaincfg/params.go; sections 7.7.3
 and 7.7.4 of the Zcash Protocol Specification). Targets are natural numbers; negative targets are not encoded.
 */
module Difficulty {
  import opened Bytes
  import opened Arithmetic

  const SIGN_BIT: nat := 0x80_0000
  const EXPONENT_UNIT: nat := 0x100_0000

  /** Shifting right by `k` bytes, and left. */
  function Drop(n: nat, k: nat): (r: nat)
    decreases k
  {
    if k == 0 then n else Drop(n / 256, k - 1)
  }

  function Scale(n: nat, k: nat): (r: nat) {
    if k == 0 then n else 256 * Scale(n, k - 1)
  }

  /** The number of bytes of a number without leading zeros. */
  function ByteLength(n: nat): (len: nat) {
    if n == 0 then 0 else 1 + ByteLength(n / 256)
  }

  predicate HasSignBit(mantissa: nat) {
    (mantissa / SIGN_BIT) % 2 == 1
  }

  /** The mantissa and exponent BigToCompact packs. */
  function Parts(n: nat): (r: (nat, nat)) {
    var exponent := ByteLength(n);
    var mantissa := if exponent <= 3 then Scale(n, 3 - exponent) else Drop(n, exponent - 3);
    if HasSignBit(mantissa) then (mantissa / 256, exponent + 1) else (mantissa, exponent)
  }

  /** BigToCompact; the exponent keeps its low eight bits. */
  function BigToCompact(n: nat): (compact: nat) {
    if n == 0 then 0 else (Parts(n).1 % 256) * EXPONENT_UNIT + Parts(n).0
  }

  function Unpacked(mantissa: nat, exponent: nat): (n: nat) {
    if exponent <= 3 then Drop(mantissa, 3 - exponent) else Scale(mantissa, exponent - 3)
  }

  /** CompactToBig: a sign bit, a 23-bit mantissa and a base-256 exponent. */
  function CompactToBig(compact: nat): (n: int) {
    var bn := Unpacked(compact % SIGN_BIT, compact / EXPONENT_UNIT);
    if HasSignBit(compact) then 0 - bn else bn
  }

  // ----- rounding -----

  /** How many low bytes do not fit next to a 23-bit mantissa. */
  function Shift(n: nat): (s: nat) {
    if n < SIGN_BIT then 0 else 1 + Shift(n / 256)
  }

  /** The number with those bytes cleared. */
  function Rounded(n: nat): (r: nat) {
    Scale(Drop(n, Shift(n)), Shift(n))
  }

  lemma {:induction false} DropBounds(n: nat, k: nat)
    ensures Scale(Drop(n, k), k) <= n < Scale(Drop(n, k) + 1, k)
    decreases k
  {
    if k > 0 {
      DropBounds(n / 256, k - 1);
    }
  }

  lemma {:induction false} ScaleNext(m: nat, k: nat)
    ensures Scale(m + 1, k) == Scale(m, k) + Scale(1, k)
    ensures Scale(0x8000, k) == 0x8000 * Scale(1, k)
    ensures Scale(m, k) >= m
    ensures Drop(Scale(m, k), k) == m
  {
    if k > 0 {
      ScaleNext(m, k - 1);
      assert (256 * Scale(m, k - 1)) / 256 == Scale(m, k - 1);
    }
  }

  lemma {:induction false} ScaleGrows(m: nat, n: nat, k: nat)
    requires m <= n
    ensures Scale(m, k) <= Scale(n, k)
  {
    if k > 0 {
      ScaleGrows(m, n, k - 1);
    }
  }

  lemma {:induction false} ScaleGrowsInPlaces(m: nat, j: nat, k: nat)
    requires m > 0 && j < k
    ensures Scale(m, j) < Scale(m, k)
    decreases k
  {
    if j == k - 1 {
      ScaleNext(m, j);
    } else {
      ScaleGrowsInPlaces(m, j, k - 1);
    }
  }

  /** The mantissa of a rounded number fits, and uses at least 16 bits if anything was cleared. */
  lemma {:induction false} MantissaBounds(n: nat)
    ensures Drop(n, Shift(n)) < SIGN_BIT
    ensures Shift(n) > 0 ==> Drop(n, Shift(n)) >= 0x8000
    ensures n > 0 ==> Drop(n, Shift(n)) > 0
  {
    if n >= SIGN_BIT {
      MantissaBounds(n / 256);
    }
  }

  /** It is the largest number with a 23-bit mantissa that is not above the given one. */
  lemma {:induction false} RoundedIsLargest(n: nat, m: nat, k: nat)
    requires m < SIGN_BIT && Scale(m, k) <= n
    ensures Scale(m, k) <= Rounded(n)
  {
    if n >= SIGN_BIT {
      if k == 0 {
        RoundedIsLargest(n / 256, 0x8000, 0);
      } else {
        RoundedIsLargest(n / 256, m, k - 1);
      }
    }
  }

  lemma RoundedIsBelow(n: nat)
    ensures Rounded(n) <= n
  {
    DropBounds(n, Shift(n));
  }

  /** Clearing the low bytes loses less than one part in 2^15. */
  lemma RoundingLoss(n: nat)
    requires n > 0
    ensures (n - Rounded(n)) * 0x8000 < n
  {
    var s := Shift(n);
    var q := Drop(n, s);
    DropBounds(n, s);
    MantissaBounds(n);
    ScaleNext(q, s);
    if s > 0 {
      ScaleGrows(0x8000, q, s);
    }
  }

  lemma RoundedIsMonotone(a: nat, b: nat)
    requires a <= b
    ensures Rounded(a) <= Rounded(b)
  {
    RoundedIsBelow(a);
    MantissaBounds(a);
    RoundedIsLargest(b, Drop(a, Shift(a)), Shift(a));
  }

  lemma RoundedTwice(n: nat)
    ensures Rounded(Rounded(n)) == Rounded(n)
  {
    RoundedIsBelow(Rounded(n));
    MantissaBounds(n);
    RoundedIsLargest(Rounded(n), Drop(n, Shift(n)), Shift(n));
  }

  lemma {:induction false} ShiftBound(n: nat, k: nat)
    ensures Shift(n) <= k <==> n < Scale(SIGN_BIT, k)
  {
    if n >= SIGN_BIT && k > 0 {
      ShiftBound(n / 256, k - 1);
    } else if n < SIGN_BIT {
      ScaleNext(SIGN_BIT, k);
    }
  }

  // ----- the compact form -----

  lemma {:induction false} DropOneMore(n: nat, k: nat)
    ensures Drop(n, k + 1) == Drop(n, k) / 256
    decreases k
  {
    if k > 0 {
      DropOneMore(n / 256, k - 1);
    }
  }

  lemma LengthOfSmall(n: nat)
    requires 0 < n < 0x100_0000
    ensures ByteLength(n) == if n < 0x100 then 1 else if n < 0x1_0000 then 2 else 3
  {
    assert ByteLength(0) == 0;
    assert n < 0x100 ==> n / 256 == 0;
    assert n >= 0x100 ==> ByteLength(n) == 1 + ByteLength(n / 256);
    assert n < 0x1_0000 ==> n / 256 / 256 == 0;
    assert n / 256 / 256 / 256 == 0;
  }

  /** The three leading bytes, and how they tell the shift. */
  lemma {:induction false} LeadingBytes(n: nat)
    requires n >= 0x1_0000
    ensures ByteLength(n) >= 3
    ensures 0x1_0000 <= Drop(n, ByteLength(n) - 3) < 0x100_0000
    ensures Shift(n) == if Drop(n, ByteLength(n) - 3) < SIGN_BIT then ByteLength(n) - 3 else ByteLength(n) - 2
  {
    if n < 0x100_0000 {
      LengthOfSmall(n);
      assert n / 256 < SIGN_BIT;
    } else {
      LeadingBytes(n / 256);
    }
  }

  lemma SignBitIsTop(mantissa: nat)
    requires mantissa < 0x100_0000
    ensures HasSignBit(mantissa) <==> mantissa >= SIGN_BIT
  {
  }

  /** What is packed: the kept bytes and their place, or a small number moved up to three bytes. */
  lemma PartsAre(n: nat)
    requires n > 0
    ensures 0 < Parts(n).0 < SIGN_BIT && Parts(n).1 > 0
    ensures Shift(n) > 0 ==> Parts(n) == (Drop(n, Shift(n)), Shift(n) + 3)
    ensures Shift(n) == 0 ==> Parts(n).1 <= 3 && Parts(n).0 == Scale(n, 3 - Parts(n).1)
  {
    MantissaBounds(n);
    if n < 0x1_0000 {
      SmallParts(n);
    } else {
      LeadingBytes(n);
      var e := ByteLength(n);
      SignBitIsTop(Drop(n, e - 3));
      DropOneMore(n, e - 3);
    }
  }

  lemma SmallParts(n: nat)
    requires 0 < n < 0x1_0000
    ensures 0 < Parts(n).0 < SIGN_BIT && 0 < Parts(n).1 <= 3 && Parts(n).0 == Scale(n, 3 - Parts(n).1)
  {
    LengthOfSmall(n);
    assert Scale(n, 0) == n && Scale(n, 1) == 256 * n && Scale(n, 2) == 0x1_0000 * n;
    SignBitIsTop(Scale(n, 3 - ByteLength(n)));
  }

  lemma PackedParts(m: nat, e: nat)
    requires m < SIGN_BIT && e < 256
    ensures var c := e * EXPONENT_UNIT + m;
      c % SIGN_BIT == m && c / EXPONENT_UNIT == e && !HasSignBit(c) && c < TWO32
  {
    var c := e * EXPONENT_UNIT + m;
    assert c == 2 * e * SIGN_BIT + m;
    assert c / SIGN_BIT == 2 * e;
  }

  lemma CompactUnpacks(n: nat)
    requires n > 0
    ensures BigToCompact(n) < TWO32
    ensures CompactToBig(BigToCompact(n)) == Unpacked(Parts(n).0, Parts(n).1 % 256)
  {
    PartsAre(n);
    PackedParts(Parts(n).0, Parts(n).1 % 256);
  }

  /** Decoding the compact form gives the rounded number exactly when the exponent fits its eight bits. */
  lemma CompactRoundTrip(n: nat)
    ensures BigToCompact(n) < TWO32
    ensures CompactToBig(BigToCompact(n)) == Rounded(n) <==> n < Scale(SIGN_BIT, 252)
  {
    ShiftBound(n, 252);
    if n == 0 {
      PackedParts(0, 0);
      assert Drop(0, 3) == 0;
    } else {
      CompactUnpacks(n);
      PartsAre(n);
      UnpackedIsRounded(n, Parts(n).0, Parts(n).1);
    }
  }

  lemma UnpackedIsRounded(n: nat, m: nat, e: nat)
    requires n > 0 && m > 0 && e > 0
    requires Shift(n) > 0 ==> m == Drop(n, Shift(n)) && e == Shift(n) + 3
    requires Shift(n) == 0 ==> e <= 3 && m == Scale(n, 3 - e)
    ensures Unpacked(m, e % 256) == Rounded(n) <==> Shift(n) <= 252
  {
    if Shift(n) == 0 {
      ScaleNext(n, 3 - e);
    } else if e >= 256 {
      WrappedExponent(m, e);
    }
  }

  /** An exponent beyond eight bits makes the number smaller. */
  lemma WrappedExponent(m: nat, e: nat)
    requires m > 0 && e >= 256
    ensures Unpacked(m, e % 256) < Scale(m, e - 3)
  {
    if e % 256 > 3 {
      ScaleGrowsInPlaces(m, e % 256 - 3, e - 3);
    } else {
      DropBounds(m, 3 - e % 256);
      ScaleNext(Drop(m, 3 - e % 256), 3 - e % 256);
      ScaleGrowsInPlaces(m, 0, e - 3);
    }
  }

  // ----- work -----

  const ONE_LSH_256: nat := 0x1_0000_0000_0000_0000_0000_0000_0000_0000_0000_0000_0000_0000_0000_0000_0000_0000

  /** CalcWork. */
  function CalcWork(bits: Uint32): (work: nat) {
    var target := CompactToBig(bits);
    if target <= 0 then 0 else Div(ONE_LSH_256, target + 1)
  }

  /** The work is how often the target, and one, goes into 2^256; a target that is not positive is worth none. */
  lemma WorkIsQuotient(bits: Uint32)
    ensures var target, work := CompactToBig(bits), CalcWork(bits);
      if target <= 0 then work == 0
      else (target + 1) * work <= ONE_LSH_256 < (target + 1) * (work + 1)
  {
    if CompactToBig(bits) > 0 {
      DivBounds(ONE_LSH_256, CompactToBig(bits) + 1);
    }
  }

  lemma QuotientShrinks(n: nat, a: nat, b: nat)
    requires 0 < a <= b
    ensures Div(n, a) >= Div(n, b)
  {
    var q := Div(n, b);
    DivBounds(n, b);
    ProductGrows(q, a, b);
    QuotientAtLeast(n, a, q);
  }

  /** A target that is harder to meet is worth at least as much work, and a target of 256 bits is worth some. */
  lemma WorkGrowsWithDifficulty(a: Uint32, b: Uint32)
    requires 0 < CompactToBig(a) <= CompactToBig(b)
    ensures CalcWork(a) >= CalcWork(b)
    ensures CompactToBig(b) < ONE_LSH_256 ==> CalcWork(b) > 0
  {
    QuotientShrinks(ONE_LSH_256, CompactToBig(a) + 1, CompactToBig(b) + 1);
    if CompactToBig(b) < ONE_LSH_256 {
      QuotientAtLeast(ONE_LSH_256, CompactToBig(b) + 1, 1);
    }
  }
}
