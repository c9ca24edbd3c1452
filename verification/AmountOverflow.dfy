/**
 Where amount compression (blockchain/compress.go) leaves 64 bits: a compressed form that wraps around never
 decompresses to its amount again, so the code recovers exactly the amounts whose compressed form fits.
 */
module AmountOverflow {
  import opened Bytes
  import opened Amount

  /** What the 64-bit code makes of an amount, there and back. */
  function Back(amount: Uint64): (r: nat) {
    Decompress(Compress(amount) % TWO64) % TWO64
  }

  // ----- only amounts that end in a digit other than zero overflow -----

  lemma StrippedFits(m: nat, e: nat)
    requires m > 0 && 0 < e <= 9 && (e < 9 ==> m % 10 != 0)
    ensures Pack(m, e) <= Scale(m, e)
  {
    assert Scale(m, e) == Scale(m * 10, e - 1);
  }

  lemma OverflowForm(amount: Uint64)
    requires Compress(amount) >= TWO64
    ensures amount % 10 != 0
    ensures Compress(amount) == 90 * (amount / 10) + 10 * (amount % 10) - 9
  {
    var (m, e) := Strip(amount, 0);
    StripValue(amount, 0);
    assert Scale(amount, 0) == amount;
    if e > 0 {
      StrippedFits(m, e);
    }
  }

  // ----- decompressing a wrapped form -----

  /** What is left of the form of 10n + d after taking off `wrap`: its exponent, and a number linear in n and d. */
  lemma UnpackWrapped(wrap: nat, s: nat, e: nat, n: nat, d: nat)
    requires 10 * s == wrap + e && e < 9 && 1 <= d <= 9 && 90 * n + 10 * d - 9 > wrap
    ensures Unpack(90 * n + 10 * d - 9 - wrap) == (10 * n + d - s - (s - d + 9) / 9, e)
  {
    var x := 90 * n + 10 * d - 10 - wrap;
    var y := 9 * n + d - 1 - s;
    var g := (s - d + 9) / 9;
    assert x == 10 * y + e;
    assert x % 10 == e && x / 10 == y;
    assert 0 <= y - 9 * (n - g) < 9;
    assert y / 9 == n - g;
  }

  function Ten(e: nat): (p: nat) {
    if e == 2 then 100 else if e == 4 then 1_0000 else if e == 6 then 100_0000 else 1_0000_0000
  }

  predicate IsExponent(e: nat) {
    e == 2 || e == 4 || e == 6 || e == 8
  }

  lemma ScaleIsProduct(m: nat, e: nat)
    requires IsExponent(e)
    ensures Scale(m, e) == Ten(e) * m
  {
    assert Scale(m, 2) == 100 * m;
    if e == 4 {
      assert Scale(m, 4) == Scale(100 * m, 2);
    } else if e == 6 {
      assert Scale(m, 6) == Scale(100 * m, 4);
    } else if e == 8 {
      assert Scale(m, 8) == Scale(100 * m, 6);
    }
  }

  // ----- the one number that could come back -----

  /** The inverse of 5 * (10^e - 1) modulo 2^63. */
  function Inverse(e: nat): (u: nat) {
    if e == 2 then 8068121397895187727
    else if e == 4 then 6380997940008660579
    else if e == 6 then 5868474094666536435
    else 5594053834762946099
  }

  lemma Remainder(x: int, n: nat, t: int)
    requires n < TWO63 && x == n + t * TWO63
    ensures x % TWO63 == n
  {
  }

  lemma SolvedWith(a: nat, u: nat, v: nat, n: nat, h: int, j: int)
    requires u * a == 1 + v * TWO63 && a * n == h + j * TWO63 && n < TWO63
    ensures u * h % TWO63 == n
  {
    assert u * h == u * (a * n) - u * (j * TWO63);
    assert u * (a * n) == (u * a) * n == n + (v * TWO63) * n;
    assert u * (j * TWO63) == (u * j) * TWO63 && (v * TWO63) * n == (v * n) * TWO63;
    Remainder(u * h, n, v * n - u * j);
  }

  lemma Solved(e: nat, n: nat, h: int, j: int)
    requires IsExponent(e) && n < TWO63 && 5 * (Ten(e) - 1) * n == h + j * TWO63
    ensures Inverse(e) * h % TWO63 == n
  {
    if e == 2 {
      SolvedWith(495, Inverse(2), 433, n, h, j);
    } else if e == 4 {
      SolvedWith(4_9995, Inverse(4), 3_4588, n, h, j);
    } else if e == 6 {
      SolvedWith(499_9995, Inverse(6), 318_1303, n, h, j);
    } else {
      SolvedWith(4_9999_9995, Inverse(8), 3_0325_4263, n, h, j);
    }
  }

  lemma HalvedWith(q: nat, z: int, n: nat, d: nat, j: int)
    requires 2 * q * (10 * n + z) == 10 * n + d + j * TWO64
    ensures d % 2 == 0 && (d - 2 * q * z) / 2 == 5 * (2 * q - 1) * n - j * TWO63
  {
    assert 2 * q * (10 * n + z) == 20 * (q * n) + 2 * (q * z);
    assert 5 * (2 * q - 1) * n == 10 * (q * n) - 5 * n;
    assert d - 2 * (q * z) == 2 * (10 * (q * n) - 5 * n - j * TWO63);
  }

  /** In such an equation the last digit is even, and everything can be halved. */
  lemma Halved(e: nat, z: int, n: nat, d: nat, j: int)
    requires IsExponent(e) && Ten(e) * (10 * n + z) == 10 * n + d + j * TWO64
    ensures d % 2 == 0 && 5 * (Ten(e) - 1) * n == (d - Ten(e) * z) / 2 + j * TWO63
    ensures (d - Ten(e) * z) % 2 == 0
  {
    var q := Ten(e) / 2;
    assert 2 * q == Ten(e);
    HalvedWith(q, z, n, d, j);
    assert Ten(e) * z == 2 * (q * z);
  }

  /** The form of 10n + d wraps around `k` times, and decompresses to the amount again. */
  predicate ComesBack(k: nat, n: nat, d: nat)
    requires InRange(k, n, d)
  {
    Decompress(90 * n + 10 * d - 9 - k * TWO64) % TWO64 == 10 * n + d
  }

  predicate InRange(k: nat, n: nat, d: nat) {
    k * TWO64 < 90 * n + 10 * d - 9 < (k + 1) * TWO64 && 1 <= d <= 9 && 10 * n + d < TWO64
  }

  /** The equation an amount that comes back satisfies. */
  lemma BackEquation(k: nat, s: nat, e: nat, n: nat, d: nat) returns (j: int)
    requires 10 * s == k * TWO64 + e && IsExponent(e) && InRange(k, n, d)
    ensures ComesBack(k, n, d) ==> Ten(e) * (10 * n + (d - s - (s - d + 9) / 9)) == 10 * n + d + j * TWO64
  {
    UnpackWrapped(k * TWO64, s, e, n, d);
    var m := Unpack(90 * n + 10 * d - 9 - k * TWO64).0;
    ScaleIsProduct(m, e);
    j := Scale(m, e) / TWO64;
    assert Scale(m, e) == Scale(m, e) % TWO64 + j * TWO64;
    assert m == 10 * n + (d - s - (s - d + 9) / 9);
  }

  lemma OddIsLost(k: nat, s: nat, e: nat, n: nat, d: nat)
    requires 10 * s == k * TWO64 + e && IsExponent(e) && InRange(k, n, d) && d % 2 == 1
    ensures !ComesBack(k, n, d)
  {
    var j := BackEquation(k, s, e, n, d);
    if ComesBack(k, n, d) {
      Halved(e, d - s - (s - d + 9) / 9, n, d, j);
    }
  }

  lemma HalfRemainder(u: nat, w: int, h: int, n0: nat, t: int)
    requires w == 2 * h && n0 < TWO63 && u * w == 2 * (n0 + t * TWO63)
    ensures u * h % TWO63 == n0
  {
    assert u * (2 * h) == 2 * (u * h);
    Remainder(u * h, n0, t);
  }

  /** Only one amount with a given last digit could come back; `n0` and `t` tell which. */
  lemma OnlyOne(k: nat, s: nat, e: nat, n: nat, d: nat, z: int, n0: nat, t: int)
    requires 10 * s == k * TWO64 + e && IsExponent(e) && InRange(k, n, d)
    requires z == d - s - (s - d + 9) / 9 && n0 < TWO63 && Inverse(e) * (d - Ten(e) * z) == 2 * (n0 + t * TWO63)
    ensures ComesBack(k, n, d) ==> n == n0
  {
    var j := BackEquation(k, s, e, n, d);
    if ComesBack(k, n, d) {
      Halved(e, z, n, d, j);
      var h := (d - Ten(e) * z) / 2;
      Solved(e, n, h, j);
      HalfRemainder(Inverse(e), d - Ten(e) * z, h, n0, t);
    }
  }

  /** It does not come back when that one is out of range. */
  lemma IsLost(k: nat, s: nat, e: nat, n: nat, d: nat, z: int, n0: nat, t: int)
    requires 10 * s == k * TWO64 + e && IsExponent(e) && InRange(k, n, d)
    requires z == d - s - (s - d + 9) / 9 && n0 < TWO63 && Inverse(e) * (d - Ten(e) * z) == 2 * (n0 + t * TWO63)
    requires !InRange(k, n0, d)
    ensures !ComesBack(k, n, d)
  {
    OnlyOne(k, s, e, n, d, z, n0, t);
  }

  // ----- all the ways to wrap around: each line names the only solution for its last digit -----

  lemma LostOnce(n: nat, d: nat)
    requires InRange(1, n, d)
    ensures !ComesBack(1, n, d)
  {
    if d == 2 {
      IsLost(1, 1844674407370955162, 4, n, 2, -2049638230412172401, 8408702848023182971, 7089997711120733973976);
    } else if d == 4 {
      IsLost(1, 1844674407370955162, 4, n, 4, -2049638230412172398, 1528855063276942358, 7089997711120733963600);
    } else if d == 6 {
      IsLost(1, 1844674407370955162, 4, n, 6, -2049638230412172396, 5218203878018852681, 7089997711120733956682);
    } else if d == 8 {
      IsLost(1, 1844674407370955162, 4, n, 8, -2049638230412172394, 8907552692760763004, 7089997711120733949764);
    } else {
      OddIsLost(1, 1844674407370955162, 4, n, d);
    }
  }

  lemma LostTwice(n: nat, d: nat)
    requires InRange(2, n, d)
    ensures !ComesBack(2, n, d)
  {
    if d == 2 {
      IsLost(2, 3689348814741910324, 8, n, 2, -4099276460824344803, 1478102203758023347, 124312307439176579960930319);
    } else if d == 4 {
      IsLost(2, 3689348814741910324, 8, n, 4, -4099276460824344801, 5167451018499933670, 124312307439176579900279466);
    } else if d == 6 {
      IsLost(2, 3689348814741910324, 8, n, 6, -4099276460824344798, 3292761304803938201, 124312307439176579809303187);
    } else if d == 8 {
      IsLost(2, 3689348814741910324, 8, n, 8, -4099276460824344796, 6982110119545848524, 124312307439176579748652334);
    } else {
      OddIsLost(2, 3689348814741910324, 8, n, d);
    }
  }

  lemma LostThrice(n: nat, d: nat)
    requires InRange(3, n, d)
    ensures !ComesBack(3, n, d)
  {
    if d == 2 {
      IsLost(3, 5534023222112865485, 2, n, 2, -6148914691236517204, 5148939675793002791, 268937379929839590842);
    } else if d == 4 {
      IsLost(3, 5534023222112865485, 2, n, 4, -6148914691236517202, 8838288490534913114, 268937379929839590755);
    } else if d == 6 {
      IsLost(3, 5534023222112865485, 2, n, 6, -6148914691236517199, 5726564995272796831, 268937379929839590625);
    } else if d == 8 {
      IsLost(3, 5534023222112865485, 2, n, 8, -6148914691236517197, 192541773159931346, 268937379929839590539);
    } else {
      OddIsLost(3, 5534023222112865485, 2, n, d);
    }
  }

  lemma LostFourTimes(n: nat, d: nat)
    requires InRange(4, n, d)
    ensures !ComesBack(4, n, d)
  {
    if d == 2 {
      IsLost(4, 7378697629483820647, 6, n, 2, -8198552921648689606, 1583391593534596659, 2608210708740682859646522);
    } else if d == 4 {
      IsLost(4, 7378697629483820647, 6, n, 4, -8198552921648689604, 5272740408276506982, 2608210708740682859010261);
    } else if d == 6 {
      IsLost(4, 7378697629483820647, 6, n, 6, -8198552921648689602, 8962089223018417305, 2608210708740682858374000);
    } else if d == 8 {
      IsLost(4, 7378697629483820647, 6, n, 8, -8198552921648689599, 6950189379370626668, 2608210708740682857419609);
    } else {
      OddIsLost(4, 7378697629483820647, 6, n, d);
    }
  }

  lemma LostSixTimes(n: nat, d: nat)
    requires InRange(6, n, d)
    ensures !ComesBack(6, n, d)
  {
    if d == 2 {
      IsLost(6, 11068046444225730970, 4, n, 2, -12297829382473034409, 4137957002286368699, 42539986266724403854235);
    } else if d == 4 {
      IsLost(6, 11068046444225730970, 4, n, 4, -12297829382473034407, 7827305817028279022, 42539986266724403847317);
    } else if d == 6 {
      IsLost(6, 11068046444225730970, 4, n, 6, -12297829382473034405, 2293282594915413537, 42539986266724403840400);
    } else if d == 8 {
      IsLost(6, 11068046444225730970, 4, n, 8, -12297829382473034403, 5982631409657323860, 42539986266724403833482);
    } else {
      OddIsLost(6, 11068046444225730970, 4, n, d);
    }
  }

  lemma LostSevenTimes(n: nat, d: nat)
    requires InRange(7, n, d)
    ensures !ComesBack(7, n, d)
  {
    if d == 2 {
      IsLost(7, 12912720851596686132, 8, n, 2, -14347467612885206812, 4145966937329963059, 435093076037118029908744255);
    } else if d == 4 {
      IsLost(7, 12912720851596686132, 8, n, 4, -14347467612885206809, 2271277223633967590, 435093076037118029817767976);
    } else if d == 6 {
      IsLost(7, 12912720851596686132, 8, n, 6, -14347467612885206807, 5960626038375877913, 435093076037118029757117123);
    } else if d == 8 {
      IsLost(7, 12912720851596686132, 8, n, 8, -14347467612885206805, 426602816263012428, 435093076037118029696466271);
    } else {
      OddIsLost(7, 12912720851596686132, 8, n, d);
    }
  }

  lemma LostEightTimes(n: nat, d: nat)
    requires InRange(8, n, d)
    ensures !ComesBack(8, n, d)
  {
    if d == 2 {
      IsLost(8, 14757395258967641293, 2, n, 2, -16397105843297379213, 3854976146492388901, 717166346479572242347);
    } else if d == 4 {
      IsLost(8, 14757395258967641293, 2, n, 4, -16397105843297379211, 7544324961234299224, 717166346479572242260);
    } else if d == 6 {
      IsLost(8, 14757395258967641293, 2, n, 6, -16397105843297379208, 4432601465972182941, 717166346479572242130);
    } else if d == 8 {
      IsLost(8, 14757395258967641293, 2, n, 8, -16397105843297379206, 8121950280714093264, 717166346479572242043);
    } else {
      OddIsLost(8, 14757395258967641293, 2, n, d);
    }
  }

  /** Five times around, the exponent is zero: nothing is scaled, and the number is too small. */
  lemma LostFiveTimes(n: nat, d: nat)
    requires InRange(5, n, d)
    ensures !ComesBack(5, n, d)
  {
    UnpackWrapped(5 * TWO64, TWO63, 0, n, d);
    SmallMod(Unpack(90 * n + 10 * d - 9 - 5 * TWO64).0);
  }

  lemma WrappedIsLost(k: nat, n: nat, d: nat)
    requires 1 <= k <= 8 && InRange(k, n, d)
    ensures !ComesBack(k, n, d)
  {
    if k == 1 {
      LostOnce(n, d);
    } else if k == 2 {
      LostTwice(n, d);
    } else if k == 3 {
      LostThrice(n, d);
    } else if k == 4 {
      LostFourTimes(n, d);
    } else if k == 5 {
      LostFiveTimes(n, d);
    } else if k == 6 {
      LostSixTimes(n, d);
    } else if k == 7 {
      LostSevenTimes(n, d);
    } else {
      LostEightTimes(n, d);
    }
  }

  /** How often an odd number wraps around. */
  lemma Wraps(c: nat) returns (k: nat)
    requires TWO64 <= c < 9 * TWO64 && c % 2 == 1
    ensures 1 <= k <= 8 && k * TWO64 < c < (k + 1) * TWO64 && c % TWO64 == c - k * TWO64
  {
    k := c / TWO64;
    assert c == k * TWO64 + c % TWO64;
  }

  lemma OverflowIsLost(amount: Uint64, n: nat, d: nat, c: nat)
    requires amount == 10 * n + d && 1 <= d <= 9 && c == 90 * n + 10 * d - 9 >= TWO64
    ensures Decompress(c % TWO64) % TWO64 != amount
  {
    assert c == 2 * (45 * n + 5 * d - 5) + 1;
    var k := Wraps(c);
    WrappedIsLost(k, n, d);
  }

  /** The 64-bit code recovers an amount if and only if its compressed form fits in 64 bits. */
  lemma RecoveredIffFits(amount: Uint64)
    ensures Back(amount) == amount <==> Compress(amount) < TWO64
  {
    ExactIn64Bits(amount);
    if Compress(amount) >= TWO64 {
      OverflowForm(amount);
      OverflowIsLost(amount, amount / 10, amount % 10, Compress(amount));
    }
  }
}
