/**
 The integer square root by Newton's method (btcec/gensecp256k1.go): it ends with the root rounded down exactly
 when the number is not one below a square, in particular for every prime above three.
 */
module Newton {
  import opened Bytes
  import opened Arithmetic

  function BitLength(n: nat): (len: nat) {
    if n == 0 then 0 else 1 + BitLength(n / 2)
  }

  /** One round of the method. */
  function Refined(n: nat, guess: nat): (next: nat)
    requires guess > 0
  {
    (guess + Div(n, guess)) / 2
  }

  /** The root rounded down. */
  ghost predicate IsRoot(n: nat, m: nat) {
    m * m <= n < (m + 1) * (m + 1)
  }

  function Square(s: nat): (r: nat) {
    s * s
  }

  ghost predicate IsBelowSquare(n: nat) {
    exists s :: n + 1 == Square(s)
  }

  lemma {:induction false} RootExists(n: nat) returns (m: nat)
    ensures IsRoot(n, m)
  {
    if n == 0 {
      m := 0;
    } else {
      m := RootExists(n - 1);
      if n == (m + 1) * (m + 1) {
        m := m + 1;
        assert (m + 1) * (m + 1) == m * m + 2 * m + 1;
      }
    }
  }

  lemma Products(g: int, m: int)
    ensures g * (2 * m - g) == m * m - (m - g) * (m - g) <= m * m
  {
  }

  /** A round never falls below the root. */
  lemma NotBelowRoot(n: nat, m: nat, g: nat)
    requires IsRoot(n, m) && g > 0
    ensures Refined(n, g) >= m
  {
    var q := Div(n, g);
    DivBounds(n, g);
    if g + q < 2 * m {
      ProductGrows(g, q + 1, 2 * m - g);
      Products(g, m);
      assert false;
    }
  }

  /** A round from above the root comes down. */
  lemma ComesDown(n: nat, m: nat, g: nat)
    requires IsRoot(n, m) && g > m
    ensures Refined(n, g) < g
  {
    var q := Div(n, g);
    DivBounds(n, g);
    ProductGrows(g, m + 1, g);
    ProductGrows(m + 1, m + 1, g);
    assert g * g > n;
    if q >= g {
      ProductGrows(g, g, q);
      assert false;
    }
  }

  /** A round from the root stays there, unless the number is one below the next square. */
  lemma AtRoot(n: nat, m: nat)
    requires IsRoot(n, m) && m > 0
    ensures Refined(n, m) == if n + 1 == (m + 1) * (m + 1) then m + 1 else m
  {
    var q := Div(n, m);
    DivBounds(n, m);
    assert (m + 1) * (m + 1) == m * m + 2 * m + 1 == m * (m + 2) + 1;
    if q < m {
      ProductGrows(m, q + 1, m);
      assert false;
    }
    if q > m + 2 {
      ProductGrows(m, m + 3, q);
      assert false;
    }
    if q == m + 2 {
      assert m * (m + 2) <= n;
    } else {
      ProductGrows(m, q + 1, m + 2);
    }
  }

  lemma StaysAtRoot(n: nat, m: nat)
    requires IsRoot(n, m) && m > 0 && !IsBelowSquare(n)
    ensures Refined(n, m) == m
  {
    AtRoot(n, m);
    assert n + 1 != Square(m + 1);
  }

  lemma RootIsUnique(n: nat, m: nat, s: nat)
    requires IsRoot(n, m) && n + 1 == Square(s)
    ensures s == m + 1
  {
    if s <= m {
      ProductGrows(s, s, m);
      ProductGrows(m, s, m);
      assert false;
    }
    if s > m + 1 {
      assert (m + 2) * (m + 2) == (m + 1) * (m + 1) + 2 * m + 3;
      ProductGrows(m + 2, m + 2, s);
      ProductGrows(s, m + 2, s);
      assert false;
    }
  }

  /** sqrt, on the numbers it ends for. */
  method Sqrt(n: nat) returns (guess: nat)
    requires n > 0 && !IsBelowSquare(n)
    ensures IsRoot(n, guess)
  {
    ghost var m := RootExists(n);
    assert m > 0 by {
      assert n >= 1;
    }
    guess := Pow2(BitLength(n) / 2);
    var prevGuess := 0;
    while true
      invariant guess > 0
      decreases if guess < m then 1 else 0, guess
    {
      prevGuess := guess;
      guess := (guess + Div(n, guess)) / 2;
      NotBelowRoot(n, m, prevGuess);
      if guess == prevGuess {
        break;
      }
      if prevGuess > m {
        ComesDown(n, m, prevGuess);
      } else if prevGuess == m {
        StaysAtRoot(n, m);
      }
    }
    if guess > m {
      ComesDown(n, m, guess);
    }
  }

  lemma NotRepeated(n: nat, guess: nat)
    requires IsBelowSquare(n) && n > 0 && guess > 0
    ensures Refined(n, guess) != guess
  {
    var m := RootExists(n);
    var s :| n + 1 == Square(s);
    RootIsUnique(n, m, s);
    NotBelowRoot(n, m, guess);
    if guess > m {
      ComesDown(n, m, guess);
    } else if guess == m {
      AtRoot(n, m);
    }
  }

  lemma RefinedIsPositive(n: nat, guess: nat)
    requires n > 0 && guess > 0
    ensures Refined(n, guess) > 0
  {
    var m := RootExists(n);
    NotBelowRoot(n, m, guess);
  }

  /** The guess after a number of rounds. */
  ghost function Guess(n: nat, rounds: nat): (guess: nat)
    requires n > 0
    ensures guess > 0
  {
    if rounds == 0 then
      Pow2(BitLength(n) / 2)
    else
      RefinedIsPositive(n, Guess(n, rounds - 1));
      Refined(n, Guess(n, rounds - 1))
  }

  ghost predicate Repeats(n: nat, rounds: nat)
    requires n > 0
  {
    Guess(n, rounds + 1) == Guess(n, rounds)
  }

  lemma {:induction false} RepeatsFrom(n: nat, m: nat, from: nat) returns (rounds: nat)
    requires IsRoot(n, m) && m > 0 && n > 0 && !IsBelowSquare(n)
    ensures Repeats(n, rounds)
    decreases if Guess(n, from) < m then 1 else 0, Guess(n, from)
  {
    var g := Guess(n, from);
    assert Guess(n, from + 1) == Refined(n, g);
    NotBelowRoot(n, m, g);
    if g > m {
      ComesDown(n, m, g);
    } else if g == m {
      StaysAtRoot(n, m);
    }
    if Repeats(n, from) {
      rounds := from;
    } else {
      rounds := RepeatsFrom(n, m, from + 1);
    }
  }

  /** The loop ends, with a guess repeated, if and only if the number is not one below a square. */
  lemma EndsOrNot(n: nat)
    requires n > 0
    ensures (exists rounds :: Repeats(n, rounds)) <==> !IsBelowSquare(n)
  {
    if IsBelowSquare(n) {
      forall rounds ensures !Repeats(n, rounds) {
        NotRepeated(n, Guess(n, rounds));
      }
    } else {
      var m := RootExists(n);
      var rounds := RepeatsFrom(n, m, 0);
    }
  }

  ghost predicate IsPrime(n: nat) {
    n > 1 && forall a: nat, b: nat :: a > 1 && b > 1 ==> a * b != n
  }

  lemma SquareFactors(n: nat, s: nat) returns (a: nat, b: nat)
    requires n + 1 == Square(s) && n > 3
    ensures a > 1 && b > 1 && n == a * b
  {
    assert s <= 2 ==> Square(s) <= 4;
    a, b := s - 1, s + 1;
    assert a * b == s * s - 1;
  }

  /** A prime above three is not one below a square, since that factors. */
  lemma PrimesEnd(n: nat)
    requires IsPrime(n) && n > 3
    ensures !IsBelowSquare(n)
  {
    if s: nat :| n + 1 == Square(s) {
      var a, b := SquareFactors(n, s);
    }
  }
}
