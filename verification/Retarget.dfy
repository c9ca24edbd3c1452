/**
 The required difficulty of the next block (blockchain/difficulty.go, chaincfg/params.go): the average target of
 the last blocks, scaled by how long they took, within fixed bounds and never above the limit.
 */
module Retarget {
  import opened Bytes
  import opened Arithmetic
  import opened Difficulty
  import opened MedianTime

  const SECOND: int := 1_000_000_000
  const MILLISECOND: nat := 1_000_000

  /** Go's integer division, which rounds towards zero. */
  function Quotient(a: int, b: nat): (q: int)
    requires b > 0
  {
    if a < 0 then 0 - Div(0 - a, b) else Div(a, b)
  }

  /** The chain parameters of the rule; durations are in nanoseconds. */
  datatype Params = Params(powLimit: nat, powLimitBits: Uint32, window: nat, windowTimespan: nat, maxAdjustUp: nat,
      maxAdjustDown: nat)
  {
    function MaxActualTimespan(): (d: int) {
      Quotient(windowTimespan * (100 + maxAdjustDown), 100)
    }

    function MinActualTimespan(): (d: int) {
      Quotient(windowTimespan * (100 - maxAdjustUp), 100)
    }

    /** A window of at least a block and a millisecond, and a limit the compact form can hold. */
    predicate Sensible() {
      && window > 0 && windowTimespan >= MILLISECOND && maxAdjustUp <= 100
      && powLimit < Scale(SIGN_BIT, 252) && 0 <= CompactToBig(powLimitBits) <= powLimit
    }
  }

  /** The time the window took, moved to a quarter of its distance from the intended time, within the bounds. */
  function Damped(p: Params, timespan: int): (d: int) {
    var quartered := p.windowTimespan + Quotient(timespan - p.windowTimespan, 4);
    if quartered < p.MinActualTimespan() then p.MinActualTimespan()
    else if quartered > p.MaxActualTimespan() then p.MaxActualTimespan()
    else quartered
  }

  /** Whole milliseconds. */
  function Millis(d: int): (ms: int) {
    Quotient(d, MILLISECOND)
  }

  /** The target for a window that took this long, before it is encoded. */
  function TargetFor(p: Params, average: nat, ms: nat): (target: nat)
    requires p.Sensible()
  {
    var scaled := Scaled(p, average, ms);
    if scaled > p.powLimit then p.powLimit else scaled
  }

  function Scaled(p: Params, average: nat, ms: nat): (target: nat)
    requires p.Sensible()
  {
    Div(average, Millis(p.windowTimespan)) * ms
  }

  lemma QuotientGrows(a: int, b: int, d: nat)
    requires a <= b && d > 0
    ensures Quotient(a, d) <= Quotient(b, d)
  {
    if 0 <= a {
      DivGrows(a, b, d);
    } else if b < 0 {
      DivGrows(0 - b, 0 - a, d);
    }
  }

  lemma DivGrows(a: nat, b: nat, d: nat)
    requires a <= b && d > 0
    ensures Div(a, d) <= Div(b, d)
  {
    DivBounds(a, d);
    QuotientAtLeast(b, d, Div(a, d));
  }

  lemma BoundsAreOrdered(p: Params)
    requires p.Sensible()
    ensures 0 <= p.MinActualTimespan() <= p.MaxActualTimespan()
  {
    var low, high := p.windowTimespan * (100 - p.maxAdjustUp), p.windowTimespan * (100 + p.maxAdjustDown);
    ProductGrows(p.windowTimespan, 0, 100 - p.maxAdjustUp);
    ProductGrows(p.windowTimespan, 100 - p.maxAdjustUp, 100 + p.maxAdjustDown);
    QuotientGrows(0, low, 100);
    QuotientGrows(low, high, 100);
  }

  lemma DampedIsBounded(p: Params, timespan: int)
    requires p.Sensible()
    ensures 0 <= Millis(p.MinActualTimespan()) <= Millis(Damped(p, timespan)) <= Millis(p.MaxActualTimespan())
  {
    BoundsAreOrdered(p);
    QuotientGrows(0, p.MinActualTimespan(), MILLISECOND);
    QuotientGrows(p.MinActualTimespan(), Damped(p, timespan), MILLISECOND);
    QuotientGrows(Damped(p, timespan), p.MaxActualTimespan(), MILLISECOND);
  }

  lemma TargetGrows(p: Params, average: nat, a: nat, b: nat)
    requires p.Sensible() && a <= b
    ensures TargetFor(p, average, a) <= TargetFor(p, average, b) <= p.powLimit
  {
    var t := Div(average, Millis(p.windowTimespan));
    ProductGrows(t, a, b);
  }

  /** nextRequiredDifficulty, from the two median times in seconds. */
  function NextRequiredDifficulty(p: Params, firstTime: int, lastTime: int, average: nat): (bits: nat)
    requires p.Sensible()
  {
    DampedIsBounded(p, (lastTime - firstTime) * SECOND);
    BigToCompact(TargetFor(p, average, Millis(Damped(p, (lastTime - firstTime) * SECOND))))
  }

  /** The required target stays between those of the shortest and the longest time allowed, and under the limit. */
  lemma RequiredTargetIsBounded(p: Params, firstTime: int, lastTime: int, average: nat)
    requires p.Sensible()
    ensures 0 <= Millis(p.MinActualTimespan()) && 0 <= Millis(p.MaxActualTimespan())
    ensures var target := CompactToBig(NextRequiredDifficulty(p, firstTime, lastTime, average));
      && Rounded(TargetFor(p, average, Millis(p.MinActualTimespan()))) <= target
      && target <= Rounded(TargetFor(p, average, Millis(p.MaxActualTimespan())))
      && target <= p.powLimit
  {
    var d := Damped(p, (lastTime - firstTime) * SECOND);
    DampedIsBounded(p, (lastTime - firstTime) * SECOND);
    TargetGrows(p, average, Millis(p.MinActualTimespan()), Millis(d));
    TargetGrows(p, average, Millis(d), Millis(p.MaxActualTimespan()));
    CompactRoundTrip(TargetFor(p, average, Millis(d)));
    RoundedIsMonotone(TargetFor(p, average, Millis(p.MinActualTimespan())), TargetFor(p, average, Millis(d)));
    RoundedIsMonotone(TargetFor(p, average, Millis(d)), TargetFor(p, average, Millis(p.MaxActualTimespan())));
    RoundedIsBelow(TargetFor(p, average, Millis(d)));
  }

  /** Bits that decode to a target that is neither negative nor above the limit. */
  predicate WithinLimit(p: Params, bits: nat) {
    0 <= CompactToBig(bits) <= p.powLimit
  }

  lemma NextIsWithinLimit(p: Params, firstTime: int, lastTime: int, average: nat)
    requires p.Sensible()
    ensures WithinLimit(p, NextRequiredDifficulty(p, firstTime, lastTime, average))
  {
    RequiredTargetIsBounded(p, firstTime, lastTime, average);
  }

  // ----- which way the rule moves -----

  /** On the same side of the intended time, at a quarter of the distance rounded towards zero. */
  predicate Quartered(intended: int, timespan: int, q: int) {
    if timespan >= intended then 0 <= 4 * (q - intended) <= timespan - intended < 4 * (q - intended) + 4
    else 0 <= 4 * (intended - q) <= intended - timespan < 4 * (intended - q) + 4
  }

  /** The nearest to `q` within the bounds. */
  predicate Clamped(low: int, high: int, q: int, d: int) {
    low <= d <= high && (d < q ==> d == high) && (d > q ==> d == low)
  }

  lemma DampedIsQuartered(p: Params, timespan: int) returns (q: int)
    requires p.Sensible()
    ensures Quartered(p.windowTimespan, timespan, q)
    ensures Clamped(p.MinActualTimespan(), p.MaxActualTimespan(), q, Damped(p, timespan))
  {
    var off := timespan - p.windowTimespan;
    DivBounds(if off < 0 then 0 - off else off, 4);
    BoundsAreOrdered(p);
    q := p.windowTimespan + Quotient(off, 4);
  }

  lemma DampedGrows(p: Params, a: int, b: int)
    requires p.Sensible() && a <= b
    ensures Damped(p, a) <= Damped(p, b)
  {
    QuotientGrows(a - p.windowTimespan, b - p.windowTimespan, 4);
    BoundsAreOrdered(p);
  }

  /** The bounds lie around the intended time, so that it is kept. */
  lemma IntendedIsKept(p: Params)
    requires p.Sensible()
    ensures p.MinActualTimespan() <= p.windowTimespan <= p.MaxActualTimespan()
    ensures Damped(p, p.windowTimespan) == p.windowTimespan
  {
    var w := p.windowTimespan;
    ProductGrows(w, 100 - p.maxAdjustUp, 100);
    ProductGrows(w, 100, 100 + p.maxAdjustDown);
    assert Quotient(w * 100, 100) == w;
    QuotientGrows(w * (100 - p.maxAdjustUp), w * 100, 100);
    QuotientGrows(w * 100, w * (100 + p.maxAdjustDown), 100);
  }

  /** The target a requirement stands for. */
  function TargetOf(p: Params, firstTime: int, lastTime: int, average: nat): (target: int)
    requires p.Sensible()
  {
    CompactToBig(NextRequiredDifficulty(p, firstTime, lastTime, average))
  }

  lemma TargetIsRounded(p: Params, firstTime: int, lastTime: int, average: nat)
    requires p.Sensible()
    ensures var ms := Millis(Damped(p, (lastTime - firstTime) * SECOND));
      0 <= ms && TargetOf(p, firstTime, lastTime, average) == Rounded(TargetFor(p, average, ms))
  {
    DampedIsBounded(p, (lastTime - firstTime) * SECOND);
    var ms := Millis(Damped(p, (lastTime - firstTime) * SECOND));
    TargetGrows(p, average, ms, ms);
    CompactRoundTrip(TargetFor(p, average, ms));
  }

  /** A target that follows from the time the window took and the average target in it. */
  ghost predicate Retargeted(p: Params, timespan: int, average: nat, target: int)
    requires p.Sensible()
  {
    exists q, d {:trigger Quartered(p.windowTimespan, timespan, q), Millis(d)} ::
      && Quartered(p.windowTimespan, timespan, q)
      && Clamped(p.MinActualTimespan(), p.MaxActualTimespan(), q, d) && Millis(d) >= 0
      && target == Rounded(TargetFor(p, average, Millis(d)))
  }

  lemma RetargetedTarget(p: Params, firstTime: int, lastTime: int, average: nat)
    requires p.Sensible()
    ensures Retargeted(p, (lastTime - firstTime) * SECOND, average, TargetOf(p, firstTime, lastTime, average))
  {
    var q := DampedIsQuartered(p, (lastTime - firstTime) * SECOND);
    TargetIsRounded(p, firstTime, lastTime, average);
    assert Quartered(p.windowTimespan, (lastTime - firstTime) * SECOND, q);
  }

  lemma ScaledGrows(p: Params, a: nat, b: nat, m: nat, n: nat)
    requires p.Sensible() && a <= b && m <= n
    ensures Scaled(p, a, m) <= Scaled(p, b, n)
  {
    var ms := Millis(p.windowTimespan);
    DivGrows(a, b, ms);
    ProductGrows(m, Div(a, ms), Div(b, ms));
    ProductGrows(Div(b, ms), m, n);
  }

  /**
   A window that ends later or begins earlier, or held easier targets, asks for a target at least as easy.
   */
  lemma SlowerIsEasier(p: Params, first: int, last: int, average: nat, first': int, last': int, average': nat)
    requires p.Sensible() && first' <= first && last <= last' && average <= average'
    ensures TargetOf(p, first, last, average) <= TargetOf(p, first', last', average')
  {
    var d, d' := Damped(p, (last - first) * SECOND), Damped(p, (last' - first') * SECOND);
    DampedGrows(p, (last - first) * SECOND, (last' - first') * SECOND);
    TargetIsRounded(p, first, last, average);
    TargetIsRounded(p, first', last', average');
    QuotientGrows(d, d', MILLISECOND);
    ScaledGrows(p, average, average', Millis(d), Millis(d'));
    TargetGrows(p, average, Millis(d), Millis(d));
    TargetGrows(p, average', Millis(d'), Millis(d'));
    RoundedIsMonotone(TargetFor(p, average, Millis(d)), TargetFor(p, average', Millis(d')));
  }

  /** A window that took the intended time keeps the average, up to the rounding and the limit. */
  lemma IntendedTimeKeepsAverage(p: Params, firstTime: int, lastTime: int, average: nat)
    requires p.Sensible() && (lastTime - firstTime) * SECOND == p.windowTimespan
    ensures var kept := Kept(average, Millis(p.windowTimespan));
      TargetOf(p, firstTime, lastTime, average) == Rounded(if kept > p.powLimit then p.powLimit else kept)
  {
    IntendedIsKept(p);
    TargetIsRounded(p, firstTime, lastTime, average);
  }

  /** A number rounded down to a multiple. */
  function Kept(n: nat, ms: nat): (kept: nat)
    requires ms > 0
    ensures kept <= n < kept + ms
  {
    DivBounds(n, ms);
    Div(n, ms) * ms
  }

  // ----- over a chain -----

  datatype Header = Header(bits: Uint32, timestamp: int)

  /** Headers whose bits encode no negative target. */
  predicate Targets(chain: seq<Header>) {
    forall i :: 0 <= i < |chain| ==> CompactToBig(chain[i].bits) >= 0
  }

  function Times(chain: seq<Header>): (times: seq<int>)
    ensures |times| == |chain|
  {
    seq(|chain|, i requires 0 <= i < |chain| => chain[i].timestamp)
  }

  /** The sum of the last `w` targets. */
  function TargetSum(chain: seq<Header>, w: nat): (sum: nat)
    requires w <= |chain| && Targets(chain)
    decreases w
  {
    if w == 0 then 0 else CompactToBig(chain[|chain| - 1].bits) + TargetSum(chain[..|chain| - 1], w - 1)
  }

  /** The sum of the targets from block `i` on. */
  function TargetsFrom(chain: seq<Header>, i: nat): (sum: nat)
    requires Targets(chain)
    decreases |chain| - i
  {
    if i >= |chain| then 0 else CompactToBig(chain[i].bits) + TargetsFrom(chain, i + 1)
  }

  function Average(chain: seq<Header>, w: nat): (average: nat)
    requires 0 < w <= |chain| && Targets(chain)
  {
    Div(TargetSum(chain, w), w)
  }

  /** What the rule looks at: the median times before and at the end of the window, and the average target in it. */
  datatype Window = Window(firstTime: int, lastTime: int, average: nat)

  function LastWindow(chain: seq<Header>, w: nat): (window: Window)
    requires 0 < w < |chain| && Targets(chain)
  {
    Window(MedianOf(Times(chain[..|chain| - w])), MedianOf(Times(chain)), Average(chain, w))
  }

  function RequiredFor(p: Params, window: Option<Window>): (bits: nat)
    requires p.Sensible()
  {
    match window
    case None => p.powLimitBits
    case Some(w) => NextRequiredDifficulty(p, w.firstTime, w.lastTime, w.average)
  }

  lemma RequiredForIsWithinLimit(p: Params, window: Option<Window>)
    requires p.Sensible()
    ensures WithinLimit(p, RequiredFor(p, window))
  {
    if window.Some? {
      NextIsWithinLimit(p, window.value.firstTime, window.value.lastTime, window.value.average);
    }
  }

  /** What the rule asks of the block after a chain: the limit while there are no more blocks than in a window. */
  function RequiredAfter(p: Params, chain: seq<Header>): (bits: nat)
    requires p.Sensible() && Targets(chain)
  {
    RequiredFor(p, if |chain| <= p.window then None else Some(LastWindow(chain, p.window)))
  }

  lemma {:induction false} TargetSumStep(chain: seq<Header>, i: nat)
    requires i < |chain| && Targets(chain)
    ensures TargetSum(chain, i + 1) == TargetSum(chain, i) + CompactToBig(chain[|chain| - 1 - i].bits)
    decreases i
  {
    if i > 0 {
      TargetSumStep(chain[..|chain| - 1], i - 1);
    }
  }

  lemma {:induction false} TargetSumIs(chain: seq<Header>, w: nat)
    requires w <= |chain| && Targets(chain)
    ensures TargetSum(chain, w) == TargetsFrom(chain, |chain| - w)
  {
    if w > 0 {
      TargetSumStep(chain, w - 1);
      TargetSumIs(chain, w - 1);
    }
  }

  lemma {:induction false} SumIsBetween(chain: seq<Header>, i: nat, low: nat, high: nat)
    requires i <= |chain| && Targets(chain)
    requires forall k :: i <= k < |chain| ==> low <= CompactToBig(chain[k].bits) <= high
    ensures low * (|chain| - i) <= TargetsFrom(chain, i) <= high * (|chain| - i)
    decreases |chain| - i
  {
    if i < |chain| {
      SumIsBetween(chain, i + 1, low, high);
      assert low * (|chain| - i) == low + low * (|chain| - (i + 1));
      assert high * (|chain| - i) == high + high * (|chain| - (i + 1));
    }
  }

  /** The average lies between the hardest and the easiest target of the window. */
  lemma AverageIsBetween(chain: seq<Header>, w: nat, low: nat, high: nat)
    requires 0 < w <= |chain| && Targets(chain)
    requires forall k :: |chain| - w <= k < |chain| ==> low <= CompactToBig(chain[k].bits) <= high
    ensures low <= Average(chain, w) <= high
  {
    TargetSumIs(chain, w);
    SumIsBetween(chain, |chain| - w, low, high);
    QuotientBetween(TargetSum(chain, w), w, low, high);
  }

  lemma QuotientBetween(n: nat, d: nat, low: nat, high: nat)
    requires d > 0 && low * d <= n <= high * d
    ensures low <= Div(n, d) <= high
  {
    DivGrows(low * d, n, d);
    DivGrows(n, high * d, d);
    DivExact(low, d);
    DivExact(high, d);
  }

  lemma DivExact(q: nat, d: nat)
    requires d > 0
    ensures Div(q * d, d) == q
  {
    DivBounds(q * d, d);
    var r := Div(q * d, d);
    ProductGrows(d, r + 1, q);
    ProductGrows(d, q + 1, r);
  }

  /** The required target never decodes to a number above the limit. */
  lemma RequiredIsWithinLimit(p: Params, chain: seq<Header>)
    requires p.Sensible() && Targets(chain)
    ensures WithinLimit(p, RequiredAfter(p, chain))
  {
    RequiredForIsWithinLimit(p, if |chain| <= p.window then None else Some(LastWindow(chain, p.window)));
  }

  /** The averaging loop: sums the targets of the last blocks, as many as there are. */
  method SumWindow(chain: seq<Header>, window: nat) returns (sum: int, firstNode: nat)
    requires Targets(chain)
    ensures firstNode == if |chain| <= window then 0 else |chain| - window
    ensures sum == TargetSum(chain, |chain| - firstNode) == TargetsFrom(chain, firstNode)
  {
    var i := 0;
    firstNode, sum := |chain|, 0;
    while firstNode > 0 && i < window
      invariant 0 <= i <= window && firstNode == |chain| - i && i <= |chain|
      invariant sum == TargetSum(chain, i)
    {
      TargetSumStep(chain, i);
      sum := sum + CompactToBig(chain[firstNode - 1].bits);
      firstNode := firstNode - 1;
      i := i + 1;
    }
    TargetSumIs(chain, i);
  }

  /** The limit for a short chain; otherwise what follows from the last window's targets and the two median times. */
  ghost predicate FollowsRule(p: Params, chain: seq<Header>, bits: nat)
    requires p.Sensible() && Targets(chain)
  {
    if |chain| <= p.window then
      bits == p.powLimitBits
    else
      var first := |chain| - p.window;
      var timespan := (MedianOf(Times(chain)) - MedianOf(Times(chain[..first]))) * SECOND;
      Retargeted(p, timespan, Div(TargetsFrom(chain, first), p.window), CompactToBig(bits))
  }

  lemma RuleIsFollowed(p: Params, chain: seq<Header>)
    requires p.Sensible() && Targets(chain)
    ensures FollowsRule(p, chain, RequiredAfter(p, chain))
  {
    if |chain| > p.window {
      TargetSumIs(chain, p.window);
      var w := LastWindow(chain, p.window);
      RetargetedTarget(p, w.firstTime, w.lastTime, w.average);
    }
  }

  /** calcNextRequiredDifficulty. */
  method CalcNextRequiredDifficulty(p: Params, chain: seq<Header>, genesisTime: int) returns (bits: nat)
    requires p.Sensible() && Targets(chain)
    ensures bits == RequiredAfter(p, chain)
    ensures FollowsRule(p, chain, bits)
  {
    RuleIsFollowed(p, chain);
    var sum, firstNode := SumWindow(chain, p.window);
    if firstNode == 0 {
      return p.powLimitBits;
    }
    var firstTime := CalcPastMedianTime(Times(chain[..firstNode]), genesisTime);
    var lastTime := CalcPastMedianTime(Times(chain), genesisTime);
    bits := NextRequiredDifficulty(p, firstTime, lastTime, Div(sum, p.window));
  }
}
