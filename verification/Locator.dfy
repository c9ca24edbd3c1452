/**
 Block locators (blockchain/blocklocator.go) and the search they are made for (server.go, blockchain/chainio.go):
 which heights of the main chain a locator names, and where a peer that shares part of it resumes.
 */
module Locator {
  import opened Bytes

  const MAX_BLOCK_LOCATORS_PER_MSG: nat := 500
  const MAX_BLOCK_HEADERS_PER_MSG: nat := 2000
  const MAX_INT32: int := 0x7fff_ffff

  lemma {:induction false} Pow2Grows(i: nat, j: nat)
    requires i <= j
    ensures Pow2(i) <= Pow2(j)
  {
    if i < j {
      Pow2Grows(i, j - 1);
    }
  }

  // ----- the heights of a locator -----

  /** The height of entry `j` before the genesis block: eleven in a row, then ever larger gaps. */
  function EntryAt(h: nat, j: nat): (height: int) {
    if j <= 10 then h - j else h - 8 - Pow2(j - 9)
  }

  /** The distance from entry `j` to the one before it. */
  function Gap(j: nat): (gap: nat)
    requires j > 0
  {
    if j <= 10 then 1 else Pow2(j - 10)
  }

  lemma GapIsDistance(h: nat, j: nat)
    requires j > 0
    ensures EntryAt(h, j - 1) - EntryAt(h, j) == Gap(j) > 0
  {
    if j == 11 {
      assert Pow2(2) == 2 * Pow2(1) && Pow2(1) == 2 * Pow2(0);
    }
  }

  /** How many entries from `j` on lie above the genesis block, after the first `j`. */
  function EntriesFrom(h: nat, j: nat): (n: nat)
    ensures n >= j && EntryAt(h, n) < 1
    ensures forall i :: j <= i < n ==> EntryAt(h, i) >= 1
    decreases EntryAt(h, j)
  {
    if EntryAt(h, j) < 1 then j
    else
      GapIsDistance(h, j + 1);
      EntriesFrom(h, j + 1)
  }

  /** The heights a locator for the main-chain block at height `h` names. */
  function Heights(h: nat): (heights: seq<nat>)
    ensures |heights| == EntriesFrom(h, 0) + 1
    ensures forall j {:trigger heights[j]} :: 0 <= j < |heights| - 1 ==> heights[j] == EntryAt(h, j) >= 1
    ensures heights[|heights| - 1] == 0
  {
    var n := EntriesFrom(h, 0);
    seq(n, j requires 0 <= j < n => EntryAt(h, j) as nat) + [0]
  }

  /** From the block itself strictly down to the genesis block. */
  lemma HeightsDescend(h: nat)
    ensures Heights(h)[0] == h
    ensures forall i :: 0 < i < |Heights(h)| ==> Heights(h)[i] < Heights(h)[i - 1]
    ensures Heights(h)[|Heights(h)| - 1] == 0
  {
    forall i | 0 < i < |Heights(h)| ensures Heights(h)[i] < Heights(h)[i - 1] {
      GapIsDistance(h, i);
    }
  }

  /** Logarithmically many: each entry past the twelfth doubles the height that is needed. */
  lemma HeightsAreFew(h: nat)
    ensures |Heights(h)| >= 13 ==> Pow2(|Heights(h)| - 11) + 9 <= h
    ensures h < TWO32 ==> |Heights(h)| <= 42
  {
    var n := |Heights(h)| - 1;
    if n >= 12 {
      assert EntryAt(h, n - 1) >= 1;
      if n > 41 {
        Pow2Grows(32, n - 10);
        PowersOfTwo();
      }
    }
  }

  lemma PowersOfTwo()
    ensures Pow2(31) == 0x8000_0000 && Pow2(32) == TWO32
  {
    assert Pow2(8) == 256 by {
      assert Pow2(4) == 16;
    }
    assert Pow2(12) == 0x1000;
    assert Pow2(16) == 0x1_0000;
    assert Pow2(20) == 0x10_0000;
    assert Pow2(24) == 0x100_0000;
    assert Pow2(28) == 0x1000_0000;
    assert Pow2(31) == 0x8000_0000;
  }

  // ----- where a peer resumes -----

  /** The first entry a peer knows that shares the blocks up to height `f`. */
  ghost predicate FirstShared(h: nat, f: nat, i: nat) {
    && i < |Heights(h)| && Heights(h)[i] <= f
    && forall k :: 0 <= k < i ==> Heights(h)[k] > f
  }

  lemma GapIsSmall(h: nat, i: nat)
    requires i > 0
    ensures Gap(i) <= 1 || Gap(i) + 8 <= h - EntryAt(h, i - 1)
  {
    if i == 11 {
      assert Pow2(1) == 2 * Pow2(0);
    }
  }

  /** A peer never has to go back further below the shared part than the locator's block is above it. */
  lemma SyncDistance(h: nat, f: nat, i: nat)
    requires f <= h && FirstShared(h, f, i)
    ensures Heights(h)[i] <= f && f - Heights(h)[i] <= h - f
  {
    HeightsDescend(h);
    if i > 0 {
      var p := EntryAt(h, i - 1);
      assert Heights(h)[i - 1] == p > f;
      GapIsDistance(h, i);
      GapIsSmall(h, i);
    }
  }

  // ----- building a locator -----

  function HashesAt(main: seq<Hash>, heights: seq<nat>): (hashes: seq<Hash>)
    requires forall i :: 0 <= i < |heights| ==> heights[i] < |main|
    ensures |hashes| == |heights|
    ensures forall i {:trigger hashes[i]} :: 0 <= i < |hashes| ==> hashes[i] == main[heights[i]]
  {
    seq(|heights|, i requires 0 <= i < |heights| => main[heights[i]])
  }

  lemma HeightsInChain(h: nat, size: nat)
    requires h < size
    ensures forall i :: 0 <= i < |Heights(h)| ==> Heights(h)[i] < size
  {
    forall i | 0 <= i < |Heights(h)| ensures Heights(h)[i] < size {
      if i < |Heights(h)| - 1 {
        EntryIsBelow(h, i);
      }
    }
  }

  lemma EntryIsBelow(h: nat, j: nat)
    ensures EntryAt(h, j) <= h
  {
  }

  /** No entry of a chain with 32-bit heights needs an increment beyond 2^30. */
  lemma IncrementFits(h: nat, j: nat)
    requires h <= MAX_INT32 && j > 0 && EntryAt(h, j - 1) >= 1
    ensures Gap(j) <= 0x4000_0000 && j <= 41
  {
    if j >= 12 {
      assert Pow2(j - 10) + 9 <= h;
      if j > 40 {
        Pow2Grows(31, j - 10);
        PowersOfTwo();
      }
      Pow2Grows(j - 10, 30);
      assert Pow2(31) == 2 * Pow2(30);
      PowersOfTwo();
    } else {
      assert Pow2(1) == 2 * Pow2(0);
    }
  }

  /** The first `n` entries of a locator. */
  ghost predicate Listed(main: seq<Hash>, h: nat, locator: seq<Hash>, n: nat) {
    && |locator| == n <= EntriesFrom(h, 0)
    && forall i :: 0 <= i < n ==> 0 <= EntryAt(h, i) < |main| && locator[i] == main[EntryAt(h, i)]
  }

  lemma ListedNext(main: seq<Hash>, h: nat, locator: seq<Hash>)
    requires Listed(main, h, locator, |locator|) && 1 <= EntryAt(h, |locator|) < |main|
    ensures Listed(main, h, locator + [main[EntryAt(h, |locator|)]], |locator| + 1)
  {
    EntryAtOrBefore(h, |locator|);
  }

  /** An entry above the genesis block is one of those counted. */
  lemma EntryAtOrBefore(h: nat, j: nat)
    requires EntryAt(h, j) >= 1
    ensures j < EntriesFrom(h, 0)
  {
    var n := EntriesFrom(h, 0);
    if n <= j {
      EntriesDescend(h, n, j);
    }
  }

  lemma {:induction false} EntriesDescend(h: nat, i: nat, j: nat)
    requires i <= j
    ensures EntryAt(h, j) <= EntryAt(h, i)
  {
    if i < j {
      GapIsDistance(h, j);
      EntriesDescend(h, i, j - 1);
    }
  }

  lemma ListedAll(main: seq<Hash>, h: nat, locator: seq<Hash>)
    requires h < |main| && Listed(main, h, locator, |locator|) && EntryAt(h, |locator|) < 1
    ensures forall i :: 0 <= i < |Heights(h)| ==> Heights(h)[i] < |main|
    ensures locator + [main[0]] == HashesAt(main, Heights(h))
  {
    HeightsInChain(h, |main|);
    var n := EntriesFrom(h, 0);
    assert |locator| == n;
    assert forall i :: 0 <= i < n ==> Heights(h)[i] == EntryAt(h, i);
  }

  /** blockLocatorFromHash, for the main-chain block at height `h`. */
  method BlockLocatorFromHash(main: seq<Hash>, h: nat) returns (locator: seq<Hash>)
    requires h < |main| && h <= MAX_INT32
    ensures (forall i :: 0 <= i < |Heights(h)| ==> Heights(h)[i] < |main|) && locator == HashesAt(main, Heights(h))
  {
    locator := [main[h]];
    if h == 0 {
      ListedAll(main, h, []);
      return;
    }
    EntryAtOrBefore(h, 0);
    var blockHeight: Int32, increment: Int32 := h, 1;
    while |locator| < MAX_BLOCK_LOCATORS_PER_MSG - 1
      invariant 1 <= |locator| && Listed(main, h, locator, |locator|)
      invariant blockHeight == EntryAt(h, |locator| - 1) >= 1
      invariant increment == if |locator| <= 11 then 1 else Gap(|locator| - 1)
      decreases blockHeight
    {
      ghost var j := |locator|;
      IncrementFits(h, j);
      GapIsDistance(h, j);
      if |locator| > 10 {
        increment := increment * 2;
      }
      blockHeight := blockHeight - increment;
      if blockHeight < 1 {
        break;
      }
      EntryIsBelow(h, j);
      ListedNext(main, h, locator);
      locator := locator + [main[blockHeight]];
    }
    assert EntryAt(h, |locator|) < 1 by {
      if EntryAt(h, |locator|) >= 1 {
        IncrementFits(h, |locator| + 1);
      }
    }
    ListedAll(main, h, locator);
    locator := locator + [main[0]];
  }

  // ----- answering a locator -----

  /** BlockHeightByHash. */
  function HeightOf(chain: seq<Hash>, h: Hash): (height: Option<nat>)
    ensures height.Some? ==> height.value < |chain| && chain[height.value] == h
    ensures height.None? ==> h !in chain
  {
    if chain == [] then None
    else if chain[|chain| - 1] == h then Some(|chain| - 1)
    else HeightOf(chain[..|chain| - 1], h)
  }

  /** The height after the first known block of a locator, or after the genesis block. */
  function StartOf(chain: seq<Hash>, locators: seq<Hash>): (start: nat) {
    if locators == [] then 1
    else if HeightOf(chain, locators[0]).Some? then HeightOf(chain, locators[0]).value + 1
    else StartOf(chain, locators[1..])
  }

  /** The height before which the answer ends: after the stop hash if that is within a message, else a full message. */
  function EndOf(chain: seq<Hash>, stop: Hash, start: nat): (end: nat) {
    var after := if HeightOf(chain, stop).Some? then HeightOf(chain, stop).value + 1 else TWO32 - 1;
    if start <= after <= start + MAX_BLOCK_HEADERS_PER_MSG then after else start + MAX_BLOCK_HEADERS_PER_MSG
  }

  /** HeightRange; an end before the start is an error. */
  method HeightRange(chain: seq<Hash>, start: nat, end: nat) returns (range: Option<seq<Hash>>)
    ensures range.None? <==> end < start
    ensures range.Some? ==>
      range.value == if start < |chain| then chain[start..if end < |chain| then end else |chain|] else []
  {
    if end < start {
      return None;
    }
    if start == end || start >= |chain| {
      return Some([]);
    }
    var last := if end > |chain| then |chain| else end;
    var hashes := [];
    for i := start to last
      invariant hashes == chain[start..i]
    {
      hashes := hashes + [chain[i]];
    }
    range := Some(hashes);
  }

  /**
   locateBlocks. Without locators the stop hash is sent back, known or not, unless it is at the one height tested for.
   */
  method LocateBlocks(chain: seq<Hash>, locators: seq<Hash>, stop: Hash) returns (hashes: seq<Hash>)
    requires |chain| <= MAX_INT32
    ensures locators == [] ==> hashes == if HeightOf(chain, stop) == Some(MAX_INT32 - 1) then [] else [stop]
    ensures locators != [] ==> var s, e := StartOf(chain, locators), EndOf(chain, stop, StartOf(chain, locators));
      hashes == if s < |chain| then chain[s..if e < |chain| then e else |chain|] else []
    ensures locators != [] ==> |hashes| <= MAX_BLOCK_HEADERS_PER_MSG
  {
    var endIdx: Uint32 := TWO32 - 1;
    var height := HeightOf(chain, stop);
    if height.Some? {
      endIdx := height.value + 1;
    }
    if |locators| == 0 {
      if endIdx == MAX_INT32 {
        return [];
      }
      return [stop];
    }
    var startIdx: Uint32 := 1;
    var i := 0;
    while i < |locators|
      invariant 0 <= i <= |locators| && startIdx == 1
      invariant StartOf(chain, locators) == StartOf(chain, locators[i..])
    {
      height := HeightOf(chain, locators[i]);
      if height.Some? {
        startIdx := height.value + 1;
        break;
      }
      i := i + 1;
    }
    assert startIdx == StartOf(chain, locators);
    WrappedDistance(endIdx, startIdx);
    if (endIdx - startIdx) % TWO32 > MAX_BLOCK_HEADERS_PER_MSG {
      endIdx := startIdx + MAX_BLOCK_HEADERS_PER_MSG;
    }
    var range := HeightRange(chain, startIdx, endIdx);
    hashes := range.value;
  }

  /** The 32-bit difference is small exactly when the end is not before the start and close to it. */
  lemma WrappedDistance(end: Uint32, start: Uint32)
    requires start <= 0x8000_0000
    ensures (end - start) % TWO32 > MAX_BLOCK_HEADERS_PER_MSG <==> !(start <= end <= start + MAX_BLOCK_HEADERS_PER_MSG)
  {
    if end >= start {
      SmallMod32(end - start);
    } else {
      SmallMod32(end - start + TWO32);
      assert (end - start) % TWO32 == (end - start + TWO32) % TWO32;
    }
  }

  lemma {:induction false} StartAtFirst(chain: seq<Hash>, locators: seq<Hash>, i: nat, k: nat)
    requires NoRepeats(chain) && i < |locators| && k < |chain| && chain[k] == locators[i]
    requires forall j :: 0 <= j < i ==> locators[j] !in chain
    ensures StartOf(chain, locators) == k + 1
    decreases i
  {
    if i > 0 {
      assert locators[0] !in chain;
      StartAtFirst(chain, locators[1..], i - 1, k);
    }
  }

  /** Two chains share their blocks exactly up to height `f`. */
  ghost predicate SharedUpTo(main: seq<Hash>, peer: seq<Hash>, f: nat) {
    && f < |main| && f < |peer| && main[..f + 1] == peer[..f + 1]
    && forall k :: f < k < |main| ==> main[k] !in peer
  }

  lemma {:induction false} FirstSharedExists(h: nat, f: nat, i: nat) returns (first: nat)
    requires i < |Heights(h)| && Heights(h)[i] <= f
    ensures FirstShared(h, f, first)
    decreases i
  {
    if k :| 0 <= k < i && Heights(h)[k] <= f {
      first := FirstSharedExists(h, f, k);
    } else {
      first := i;
    }
  }

  /**
   A peer answers a locator from a shared block that is no further below the last shared one than the locator's block
   is above it.
   */
  lemma LocatorSync(main: seq<Hash>, h: nat, peer: seq<Hash>, f: nat)
    requires h < |main| && f <= h && SharedUpTo(main, peer, f) && NoRepeats(peer)
    requires forall i :: 0 <= i < |Heights(h)| ==> Heights(h)[i] < |main|
    ensures var s := StartOf(peer, HashesAt(main, Heights(h)));
      0 <= s - 1 <= f && f - (s - 1) <= h - f && peer[s - 1] == main[s - 1]
  {
    var heights := Heights(h);
    var locators := HashesAt(main, heights);
    var i := FirstSharedExists(h, f, |heights| - 1);
    SyncDistance(h, f, i);
    var k := heights[i];
    assert main[..f + 1][k] == peer[..f + 1][k];
    forall j | 0 <= j < i ensures locators[j] !in peer {
      assert heights[j] > f;
    }
    StartAtFirst(peer, locators, i, k);
  }
}
