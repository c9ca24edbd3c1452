/**
 The endomorphism vectors (btcec/gensecp256k1.go, after steps 1 to 3 of algorithm 3.74 of the Guide to Elliptic
 Curve Cryptography): an extended Euclidean algorithm stopped around the square root of N.
 */
module Endomorphism {
  import opened Arithmetic
  import opened Newton

  function Abs(x: int): (r: nat) {
    if x < 0 then -x else x
  }

  // ----- the greatest common divisor -----

  function Gcd(a: nat, b: nat): (g: nat)
    decreases b
  {
    if b == 0 then a else Gcd(b, a % b)
  }

  ghost predicate Divides(d: nat, n: nat) {
    exists k: nat :: n == d * k
  }

  lemma Regrouped(d: nat, q: nat, i: nat, j: nat)
    ensures q * (d * i) + d * j == d * (q * i + j)
  {
    assert q * (d * i) == d * (q * i);
  }

  lemma DividesSum(d: nat, a: nat, b: nat, q: nat)
    requires Divides(d, a) && Divides(d, b)
    ensures Divides(d, q * a + b)
  {
    var i: nat :| a == d * i;
    var j: nat :| b == d * j;
    Regrouped(d, q, i, j);
  }

  lemma DividesRest(d: nat, a: nat, b: nat)
    requires b > 0 && Divides(d, a) && Divides(d, b)
    ensures Divides(d, a % b)
  {
    var i: nat :| a == d * i;
    var j: nat :| b == d * j;
    var q := a / b;
    assert a % b == d * i - q * (d * j);
    RestIsMultiple(d, q, i, j, a % b);
  }

  lemma RestIsMultiple(d: nat, q: nat, i: nat, j: nat, r: nat)
    requires r == d * i - q * (d * j)
    ensures Divides(d, r)
  {
    var k := i - q * j;
    assert r == d * k by {
      assert q * (d * j) == d * (q * j) && d * (i - q * j) == d * i - d * (q * j);
    }
    assert k >= 0 || r == d * 0;
  }

  /** It divides both numbers, and every common divisor divides it. */
  lemma {:induction false} GcdIsGreatest(a: nat, b: nat, d: nat)
    ensures Divides(Gcd(a, b), a) && Divides(Gcd(a, b), b)
    ensures Divides(d, a) && Divides(d, b) ==> Divides(d, Gcd(a, b))
    decreases b
  {
    if b == 0 {
      assert a == a * 1 && b == a * 0;
    } else {
      GcdIsGreatest(b, a % b, d);
      DividesSum(Gcd(a, b), b, a % b, a / b);
      assert a == (a / b) * b + a % b;
      if Divides(d, a) && Divides(d, b) {
        DividesRest(d, a, b);
      }
    }
  }

  lemma {:induction false} GcdBound(a: nat, b: nat)
    requires b > 0
    ensures 0 < Gcd(a, b) <= b
    decreases b
  {
    if a % b > 0 {
      GcdBound(b, a % b);
    }
  }

  // ----- the Euclidean steps -----

  /** Two consecutive equations s N + t lambda = r, for the remainders v and then u. */
  datatype Equations = Equations(u: int, v: int, x1: int, y1: int, x2: int, y2: int)

  /** The equations hold, their determinant is N up to the sign, and the coefficients of lambda alternate. */
  ghost predicate Holds(n: int, lambda: int, e: Equations, sign: int) {
    && e.u >= 0 && e.v >= 0 && (sign == 1 || sign == -1)
    && e.x1 * n + e.y1 * lambda == e.u
    && e.x2 * n + e.y2 * lambda == e.v
    && e.u * e.y2 - e.v * e.y1 == sign * n
    && sign * e.y2 >= 0 && sign * e.y1 <= 0
  }

  function Next(e: Equations): (e': Equations)
    requires e.u != 0
  {
    var q := e.v / e.u;
    Equations(e.v - q * e.u, e.u, e.x2 - q * e.x1, e.y2 - q * e.y1, e.x1, e.y1)
  }

  lemma Combination(n: int, lambda: int, q: int, x1: int, y1: int, x2: int, y2: int, u: int, v: int)
    requires x1 * n + y1 * lambda == u && x2 * n + y2 * lambda == v
    ensures (x2 - q * x1) * n + (y2 - q * y1) * lambda == v - q * u
  {
    calc {
      (x2 - q * x1) * n + (y2 - q * y1) * lambda;
      x2 * n - q * x1 * n + y2 * lambda - q * y1 * lambda;
      { assert q * x1 * n == q * (x1 * n) && q * y1 * lambda == q * (y1 * lambda); }
      (x2 * n + y2 * lambda) - (q * (x1 * n) + q * (y1 * lambda));
      { assert q * (x1 * n) + q * (y1 * lambda) == q * (x1 * n + y1 * lambda); }
      v - q * u;
    }
  }

  lemma Determinant(q: int, u: int, v: int, y1: int, y2: int)
    ensures (v - q * u) * y1 - u * (y2 - q * y1) == -(u * y2 - v * y1)
  {
    assert q * u * y1 == u * (q * y1);
  }

  lemma Alternates(q: nat, y1: int, y2: int, sign: int)
    requires sign == 1 || sign == -1
    requires sign * y2 >= 0 && sign * y1 <= 0
    ensures (-sign) * (y2 - q * y1) <= 0
  {
    if sign == 1 {
      assert q * y1 <= 0;
    } else {
      assert q * y1 >= 0;
    }
  }

  /** A step keeps the equations, turns the sign and leaves the greatest common divisor alone. */
  lemma StepHolds(n: int, lambda: int, e: Equations, sign: int)
    requires Holds(n, lambda, e, sign) && e.u > 0
    ensures Holds(n, lambda, Next(e), -sign)
    ensures Next(e).u < e.u && Next(e).v == e.u && Next(e).u == e.v % e.u
    ensures Gcd(Next(e).v, Next(e).u) == Gcd(e.v, e.u)
  {
    var q := e.v / e.u;
    assert e.v == q * e.u + e.v % e.u;
    Combination(n, lambda, q, e.x1, e.y1, e.x2, e.y2, e.u, e.v);
    Determinant(q, e.u, e.v, e.y1, e.y2);
    Alternates(q, e.y1, e.y2, sign);
  }

  /** The coefficient of the smaller remainder, times the larger remainder, is at most N. */
  lemma CoefficientBound(n: int, lambda: int, e: Equations, sign: int)
    requires Holds(n, lambda, e, sign)
    ensures Abs(e.y1) * e.v <= n
  {
    if sign == 1 {
      assert e.u * e.y2 >= 0;
      assert Abs(e.y1) * e.v == -(e.v * e.y1);
    } else {
      assert e.u * e.y2 <= 0;
      assert Abs(e.y1) * e.v == e.v * e.y1;
    }
  }

  // ----- the vectors -----

  /** a + b lambda is a multiple of N. */
  ghost predicate InLattice(n: int, lambda: int, a: int, b: int) {
    exists k :: a + b * lambda == k * n
  }

  function Det(a1: int, b1: int, a2: int, b2: int): (d: int) {
    a1 * b2 - a2 * b1
  }

  lemma RemainderInLattice(n: int, lambda: int, r: int, s: int, t: int)
    requires s * n + t * lambda == r
    ensures InLattice(n, lambda, r, -t)
  {
    assert r + (-t) * lambda == s * n;
  }

  lemma BoundByRoot(b: int, v: int, nSqrt: int, n: int)
    requires Abs(b) * v <= n && v >= nSqrt
    ensures Abs(b) * nSqrt <= n
  {
    assert Abs(b) * nSqrt <= Abs(b) * v;
  }

  /** The vectors of two consecutive remainders. */
  lemma ConsecutiveDet(n: int, lambda: int, e: Equations, sign: int)
    requires Holds(n, lambda, e, sign)
    ensures Det(e.u, -e.y1, e.v, -e.y2) == -sign * n
    ensures Det(e.v, -e.y2, e.u, -e.y1) == sign * n
  {
  }

  /** The first vector: in the lattice, and short. */
  ghost predicate IsFirst(n: int, lambda: int, nSqrt: int, a: int, b: int) {
    InLattice(n, lambda, a, b) && 0 <= a < nSqrt && Abs(b) * nSqrt <= n
  }

  lemma FirstVector(n: int, lambda: int, nSqrt: int, e: Equations, sign: int)
    requires Holds(n, lambda, e, sign) && 0 < nSqrt <= e.v && e.u < nSqrt
    ensures IsFirst(n, lambda, nSqrt, e.u, -e.y1)
  {
    RemainderInLattice(n, lambda, e.u, e.x1, e.y1);
    CoefficientBound(n, lambda, e, sign);
    BoundByRoot(e.y1, e.v, nSqrt, n);
  }

  /** What the early stop relies on: a remainder at least the root, and one below it that is not zero. */
  ghost predicate Balanced(n: nat, lambda: nat, nSqrt: nat)
    requires n > 0
  {
    Gcd(lambda, n) < nSqrt <= lambda % n
  }

  /** The two vectors span a sublattice of index N. */
  ghost predicate Spanning(n: int, a1: int, b1: int, a2: int, b2: int) {
    Det(a1, b1, a2, b2) == n || Det(a1, b1, a2, b2) == -n
  }

  /** The state of the loop between two rounds. */
  ghost predicate Searching(n: nat, lambda: nat, nSqrt: nat, e: Equations, ri: int, ti: int)
    requires n > 0
  {
    || (e == Equations(n, lambda, 1, 0, 0, 1) && ri == 0 && ti == 0)
    || (e.u >= nSqrt && ri == e.u && ti == e.y1 && lambda % n >= nSqrt)
  }

  ghost predicate OneMore(n: nat, lambda: nat, nSqrt: nat, e: Equations, ri: int, ti: int)
    requires n > 0
  {
    && e.u < nSqrt <= e.v
    && if lambda % n >= nSqrt then ri == e.v && ti == e.y2 else ri == 0 && ti == 0
  }

  lemma SearchingStep(n: nat, lambda: nat, nSqrt: nat, e: Equations, ri: int, ti: int, e': Equations)
    requires 0 < nSqrt <= n && Searching(n, lambda, nSqrt, e, ri, ti) && e.u > 0 && e' == Next(e) && e'.v == e.u
      && e'.u == e.v % e.u
    ensures e'.u < nSqrt ==> OneMore(n, lambda, nSqrt, e', ri, ti)
    ensures e'.u >= nSqrt ==> Searching(n, lambda, nSqrt, e', e'.u, e'.y1)
  {
  }

  /** The vector not chosen would have been at least as long. */
  method Shorter(ri: int, ti: int, r: int, t: int) returns (a: int, b: int)
    ensures (a, b) == (ri, -ti) || (a, b) == (r, -t)
    ensures a * a + b * b <= ri * ri + ti * ti && a * a + b * b <= r * r + t * t
    ensures ri == 0 && ti == 0 ==> a == 0 && b == 0
  {
    if ri * ri + ti * ti <= r * r + t * t {
      a, b := ri, -ti;
    } else {
      a, b := r, -t;
    }
    SquaresAreEqual(ti);
    SquaresAreEqual(t);
  }

  lemma SquaresAreEqual(x: int)
    ensures (-x) * (-x) == x * x && x * x >= 0
  {
  }

  /** The second vector, chosen between the remainders around the first one. */
  lemma SecondVector(n: nat, lambda: nat, nSqrt: nat, e: Equations, sign: int, ri: int, ti: int, a2: int, b2: int)
    requires 0 < nSqrt <= n && Holds(n, lambda, e, sign) && e.u > 0 && OneMore(n, lambda, nSqrt, e, ri, ti)
    requires Gcd(e.v, e.u) == Gcd(lambda, n)
    requires (a2, b2) == (ri, -ti) || (a2, b2) == (Next(e).u, -Next(e).y1)
    requires ri == 0 && ti == 0 ==> a2 == 0 && b2 == 0
    ensures InLattice(n, lambda, a2, b2)
    ensures Spanning(n, e.u, -e.y1, a2, b2) <==> Balanced(n, lambda, nSqrt)
  {
    StepHolds(n, lambda, e, sign);
    var e' := Next(e);
    GcdBound(e.v, e.u);
    RemainderInLattice(n, lambda, e.v, e.x2, e.y2);
    RemainderInLattice(n, lambda, e'.u, e'.x1, e'.y1);
    ConsecutiveDet(n, lambda, e, sign);
    ConsecutiveDet(n, lambda, e', -sign);
    if lambda % n < nSqrt {
      assert 0 + 0 * lambda == 0 * n;
    }
  }

  /** When the remainders end with the first vector there is no second one. */
  lemma NoSecondVector(n: nat, lambda: nat, nSqrt: nat, e: Equations, ri: int, ti: int)
    requires 0 < nSqrt <= n && e.u == 0 && e.v >= 0 && OneMore(n, lambda, nSqrt, e, ri, ti)
      && Gcd(e.v, e.u) == Gcd(lambda, n)
    ensures InLattice(n, lambda, 0, 0)
    ensures !Spanning(n, e.u, -e.y1, 0, 0) && !Balanced(n, lambda, nSqrt)
  {
    assert 0 + 0 * lambda == 0 * n;
  }

  method EndomorphismVectors(n: nat, lambda: nat, nSqrt: nat) returns (a1: int, b1: int, a2: int, b2: int)
    requires 0 < nSqrt <= n
    ensures IsFirst(n, lambda, nSqrt, a1, b1)
    ensures InLattice(n, lambda, a2, b2)
    ensures Spanning(n, a1, b1, a2, b2) <==> Balanced(n, lambda, nSqrt)
  {
    var e := Equations(n, lambda, 1, 0, 0, 1);
    ghost var sign := 1;
    var ri, ti := 0, 0;
    var found, oneMore := false, false;
    a1, b1, a2, b2 := 0, 0, 0, 0;
    while e.u != 0
      invariant Holds(n, lambda, e, sign) && Gcd(e.v, e.u) == Gcd(lambda, n)
      invariant a2 == 0 && b2 == 0 && oneMore == found
      invariant !found ==> Searching(n, lambda, nSqrt, e, ri, ti)
      invariant found ==>
        OneMore(n, lambda, nSqrt, e, ri, ti) && a1 == e.u && b1 == -e.y1 && IsFirst(n, lambda, nSqrt, a1, b1)
      decreases e.u
    {
      ghost var before := e;
      StepHolds(n, lambda, before, sign);
      var q := e.v / e.u;
      var r, s, t := e.v - q * e.u, e.x2 - q * e.x1, e.y2 - q * e.y1;
      e := Equations(r, e.u, s, t, e.x1, e.y1);
      if !found && r < nSqrt {
        SearchingStep(n, lambda, nSqrt, before, ri, ti, e);
        FirstVector(n, lambda, nSqrt, e, -sign);
        a1, b1 := r, -t;
        found, oneMore := true, true;
        sign := -sign;
        continue;
      } else if oneMore {
        a2, b2 := Shorter(ri, ti, r, t);
        SecondVector(n, lambda, nSqrt, before, sign, ri, ti, a2, b2);
        return;
      }
      SearchingStep(n, lambda, nSqrt, before, ri, ti, e);
      ri, ti := r, t;
      sign := -sign;
    }
    NoSecondVector(n, lambda, nSqrt, e, ri, ti);
  }

  // ----- a group of prime order -----

  lemma Multiples(n: nat, k: nat)
    requires n > 0
    ensures (n * k) % n == 0
  {
    var q, r := (n * k) / n, (n * k) % n;
    assert r == n * (k - q) by {
      assert n * k == n * q + r && n * (k - q) == n * k - n * q;
    }
    ProductGrows(n, 1, if k > q then k - q else 1);
    ProductGrows(n, 1, if k < q then q - k else 1);
    assert n * (k - q) == -(n * (q - k));
  }

  /** The greatest common divisor with a prime is one, unless the prime divides the number. */
  lemma GcdWithPrime(lambda: nat, n: nat)
    requires IsPrime(n)
    ensures Gcd(lambda, n) == if lambda % n == 0 then n else 1
  {
    var g := Gcd(lambda, n);
    GcdIsGreatest(lambda, n, n);
    GcdBound(lambda, n);
    var k: nat :| n == g * k;
    assert g == 1 || k == 1 by {
      assert k > 0;
    }
    if lambda % n == 0 {
      assert lambda == n * (lambda / n) && n == n * 1;
      assert Divides(n, lambda) && Divides(n, n);
      var m: nat :| g == n * m;
      assert m > 0;
    } else if g == n {
      var m: nat :| lambda == g * m;
      Multiples(n, m);
    }
  }

  lemma RootOfPrime(n: nat, nSqrt: nat)
    requires n > 3 && IsRoot(n, nSqrt)
    ensures 1 < nSqrt <= n
  {
    assert nSqrt <= 1 ==> (nSqrt + 1) * (nSqrt + 1) <= 4;
    assert nSqrt <= nSqrt * nSqrt;
  }

  /**
   EndomorphismVectors with the root the code computes, for a group of prime order above three: it ends, the vectors
   are in the lattice, the first within its bounds, and they span it exactly if lambda mod N is not below the root.
   */
  method CurveVectors(n: nat, lambda: nat) returns (a1: int, b1: int, a2: int, b2: int, nSqrt: nat)
    requires IsPrime(n) && n > 3
    ensures IsRoot(n, nSqrt) && IsFirst(n, lambda, nSqrt, a1, b1) && InLattice(n, lambda, a2, b2)
    ensures Spanning(n, a1, b1, a2, b2) <==> lambda % n >= nSqrt
  {
    PrimesEnd(n);
    nSqrt := Sqrt(n);
    RootOfPrime(n, nSqrt);
    GcdWithPrime(lambda, n);
    a1, b1, a2, b2 := EndomorphismVectors(n, lambda, nSqrt);
  }
}
