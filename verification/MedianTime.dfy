/**
 Median time past (blockchain/chain.go, blockchain/validate.go; BIP 113): the median of the last eleven block
 times, fewer near the genesis block, and why it never runs backwards.
 */
module MedianTime {
  import opened Sorting

  const MEDIAN_TIME_BLOCKS: nat := 11

  /** The last eleven timestamps of a chain, newest first. */
  function Window(chain: seq<int>): (w: seq<int>)
    ensures |w| == if |chain| < MEDIAN_TIME_BLOCKS then |chain| else MEDIAN_TIME_BLOCKS
    ensures forall i {:trigger w[i]} :: 0 <= i < |w| ==> w[i] == chain[|chain| - 1 - i]
  {
    seq(if |chain| < MEDIAN_TIME_BLOCKS then |chain| else MEDIAN_TIME_BLOCKS,
        i requires 0 <= i < |chain| => chain[|chain| - 1 - i])
  }

  /** The element in the middle of the sorted window, the upper one of two. */
  function MedianOf(chain: seq<int>): (m: int)
    requires chain != []
  {
    Sort(Window(chain))[|Window(chain)| / 2]
  }

  /** calcPastMedianTime, for the block that ends `chain`. */
  method CalcPastMedianTime(chain: seq<int>, genesisTime: int) returns (median: int)
    ensures median == if chain == [] then genesisTime else MedianOf(chain)
  {
    if chain == [] {
      return genesisTime;
    }
    var timestamps := new int[MEDIAN_TIME_BLOCKS];
    var numNodes, iterNode := 0, |chain|;
    while numNodes < MEDIAN_TIME_BLOCKS && iterNode > 0
      invariant 0 <= numNodes <= MEDIAN_TIME_BLOCKS && iterNode == |chain| - numNodes >= 0
      invariant forall i :: 0 <= i < numNodes ==> timestamps[i] == Window(chain)[i]
    {
      timestamps[numNodes] := chain[iterNode - 1];
      numNodes := numNodes + 1;
      iterNode := iterNode - 1;
    }
    assert timestamps[..numNodes] == Window(chain);
    var sorted := Sort(timestamps[..numNodes]);
    median := sorted[numNodes / 2];
  }

  // ----- order statistics by counting -----

  function CountLess(s: seq<int>, x: int): (n: nat)
    ensures n <= |s|
  {
    if s == [] then 0 else CountLess(s[..|s| - 1], x) + if s[|s| - 1] < x then 1 else 0
  }

  lemma {:induction false} CountLessInsert(s: seq<int>, y: int, x: int)
    ensures CountLess(Insert(s, y), x) == CountLess(s, x) + if y < x then 1 else 0
  {
    if s == [] {
      assert Insert(s, y)[..0] == [];
    } else if s[|s| - 1] <= y {
      assert (s + [y])[..|s|] == s;
    } else {
      var init, last := s[..|s| - 1], s[|s| - 1];
      CountLessInsert(init, y, x);
      assert (Insert(init, y) + [last])[..|s|] == Insert(init, y);
    }
  }

  lemma {:induction false} CountLessSort(s: seq<int>, x: int)
    ensures CountLess(Sort(s), x) == CountLess(s, x)
  {
    if s != [] {
      CountLessSort(s[..|s| - 1], x);
      CountLessInsert(Sort(s[..|s| - 1]), s[|s| - 1], x);
    }
  }

  /** The j-th smallest element is at least x exactly when at most j elements are below x. */
  lemma {:induction false} NthSmallest(s: seq<int>, j: nat, x: int)
    requires IsSorted(s) && j < |s|
    ensures s[j] >= x <==> CountLess(s, x) <= j
  {
    var init, last := s[..|s| - 1], |s| - 1;
    if j < last {
      NthSmallest(init, j, x);
    } else if last > 0 {
      NthSmallest(init, last - 1, x);
    }
  }

  lemma MedianByCounting(chain: seq<int>, x: int)
    requires chain != []
    ensures MedianOf(chain) >= x <==> CountLess(Window(chain), x) <= |Window(chain)| / 2
  {
    var w := Window(chain);
    SortIsSorted(w);
    NthSmallest(Sort(w), |w| / 2, x);
    CountLessSort(w, x);
  }

  // ----- monotonicity -----

  lemma {:induction false} CountLessFront(t: int, s: seq<int>, x: int)
    ensures CountLess([t] + s, x) == CountLess(s, x) + if t < x then 1 else 0
  {
    if s == [] {
      assert ([t] + s)[..0] == [];
    } else {
      assert ([t] + s)[..|s|] == [t] + s[..|s| - 1];
      CountLessFront(t, s[..|s| - 1], x);
    }
  }

  lemma WindowExtended(chain: seq<int>, t: int)
    ensures var w := Window(chain);
      Window(chain + [t]) == [t] + if |w| < MEDIAN_TIME_BLOCKS then w else w[..|w| - 1]
  {
  }

  /** A block later than the median time of its parent does not take the median time back. */
  lemma MedianGrows(chain: seq<int>, t: int)
    requires chain != [] && t > MedianOf(chain)
    ensures MedianOf(chain + [t]) >= MedianOf(chain)
  {
    var w, m := Window(chain), MedianOf(chain);
    WindowExtended(chain, t);
    CountLessFront(t, if |w| < MEDIAN_TIME_BLOCKS then w else w[..|w| - 1], m);
    MedianByCounting(chain, m);
    MedianByCounting(chain + [t], m);
  }

  /** The median time of the first `k` blocks. */
  function MedianAt(chain: seq<int>, k: nat): (m: int)
    requires 0 < k <= |chain|
  {
    MedianOf(chain[..k])
  }

  /** Every block after the genesis block is strictly later than the median time of its parent. */
  ghost predicate Timely(chain: seq<int>) {
    forall k :: 0 < k < |chain| ==> LaterThanMedian(chain, k)
  }

  ghost predicate LaterThanMedian(chain: seq<int>, k: nat)
    requires 0 < k < |chain|
  {
    chain[k] > MedianAt(chain, k)
  }

  lemma MedianStep(chain: seq<int>, k: nat)
    requires 0 < k < |chain| && LaterThanMedian(chain, k)
    ensures MedianAt(chain, k) <= MedianAt(chain, k + 1)
  {
    var parent, all := chain[..k], chain[..k + 1];
    assert all == parent + [chain[k]];
    MedianGrows(parent, chain[k]);
  }

  /** Along every such chain the median time never decreases. */
  lemma {:induction false} MedianNeverDecreases(chain: seq<int>, i: nat, j: nat)
    requires Timely(chain) && 0 < i <= j <= |chain|
    ensures MedianAt(chain, i) <= MedianAt(chain, j)
    decreases j
  {
    if i < j {
      MedianNeverDecreases(chain, i, j - 1);
      MedianStep(chain, j - 1);
    }
  }
}
