/**
 The Merkle tree store (blockchain/merkle.go): one linear array over the transaction hashes and the hashes with
 signatures, proved to hold the two level-by-level Merkle roots. The hash of two nodes is a parameter.
 */
module Merkle {
  import opened Bytes

  type Cell = Option<Hash>

  type Hasher = (Hash, Hash) -> Hash

  // ----- the level-by-level root -----

  /** One level up: pairs are hashed, and a last node without a partner is hashed with itself. */
  function Pairs(h: Hasher, level: seq<Hash>): (up: seq<Hash>)
    ensures |up| == (|level| + 1) / 2
    ensures forall i {:trigger up[i]} :: 0 <= i < |up| ==>
      up[i] == h(level[2 * i], level[if 2 * i + 1 < |level| then 2 * i + 1 else 2 * i])
  {
    seq((|level| + 1) / 2, i requires 0 <= i < (|level| + 1) / 2 =>
      h(level[2 * i], level[if 2 * i + 1 < |level| then 2 * i + 1 else 2 * i]))
  }

  function Root(h: Hasher, level: seq<Hash>): (root: Hash)
    requires level != []
    decreases |level|
  {
    if |level| == 1 then level[0] else Root(h, Pairs(h, level))
  }

  // ----- powers of two -----

  predicate IsPowerOfTwo(n: nat) {
    n == 1 || (n > 1 && n % 2 == 0 && IsPowerOfTwo(n / 2))
  }

  /** The largest power of two that is at most `n`. */
  function Floor2(n: nat): (r: nat)
    requires n > 0
    ensures IsPowerOfTwo(r) && r <= n < 2 * r
  {
    if n == 1 then 1 else 2 * Floor2(n / 2)
  }

  function NextPowerOfTwo(n: nat): (r: nat)
    requires n > 0
    ensures IsPowerOfTwo(r) && n <= r < 2 * n
  {
    if IsPowerOfTwo(n) then n
    else
      FloorIsBelow(n);
      2 * Floor2(n)
  }

  lemma FloorIsBelow(n: nat)
    requires n > 0 && !IsPowerOfTwo(n)
    ensures Floor2(n) < n && IsPowerOfTwo(2 * Floor2(n))
  {
    var r := Floor2(n);
    assert r != n;
    assert 2 * r / 2 == r && 2 * r % 2 == 0;
  }

  lemma TwiceIsPowerOfTwo(n: nat)
    requires IsPowerOfTwo(n)
    ensures IsPowerOfTwo(2 * n)
  {
    assert 2 * n / 2 == n && 2 * n % 2 == 0;
  }

  // ----- levels with empty cells -----

  /** The parent of two cells: empty without a left child, and the left child twice without a right one. */
  function Combine(h: Hasher, left: Cell, right: Cell): (up: Cell) {
    if left.None? then None
    else if right.None? then Some(h(left.value, left.value))
    else Some(h(left.value, right.value))
  }

  function Up(h: Hasher, level: seq<Cell>): (up: seq<Cell>)
    ensures |up| == |level| / 2
    ensures forall i {:trigger up[i]} :: 0 <= i < |up| ==> up[i] == Combine(h, level[2 * i], level[2 * i + 1])
  {
    seq(|level| / 2, i requires 0 <= i < |level| / 2 => Combine(h, level[2 * i], level[2 * i + 1]))
  }

  /** Hashes, and empty cells up to the given width. */
  function Padded(hashes: seq<Hash>, width: nat): (level: seq<Cell>)
    requires |hashes| <= width
    ensures |level| == width
    ensures forall i {:trigger level[i]} :: 0 <= i < width ==>
      level[i] == if i < |hashes| then Some(hashes[i]) else None
  {
    seq(width, i => if 0 <= i < |hashes| then Some(hashes[i]) else None)
  }

  /** Two lists of hashes side by side, both padded. */
  function Halves(a: seq<Hash>, b: seq<Hash>, width: nat): (level: seq<Cell>)
    requires |a| <= width && |b| <= width
  {
    Padded(a, width) + Padded(b, width)
  }

  /** All levels from this one up to the top, one after the other. */
  function Levels(h: Hasher, level: seq<Cell>): (cells: seq<Cell>)
    decreases |level|
  {
    if |level| <= 1 then level else level + Levels(h, Up(h, level))
  }

  /** Cell `j` behind the leaves is the parent of cells 2j and 2j + 1. */
  ghost predicate ParentAt(h: Hasher, cells: seq<Cell>, leaves: nat, j: nat)
    requires leaves + j < |cells| && 2 * j + 1 < |cells|
  {
    cells[leaves + j] == Combine(h, cells[2 * j], cells[2 * j + 1])
  }

  ghost predicate Parented(h: Hasher, cells: seq<Cell>, leaves: nat) {
    && |cells| == 2 * leaves - 1
    && forall j {:trigger ParentAt(h, cells, leaves, j)} :: 0 <= j < leaves - 1 ==> ParentAt(h, cells, leaves, j)
  }

  lemma ParentedRest(h: Hasher, cells: seq<Cell>, half: nat, rest: seq<Cell>)
    requires half > 0 && Parented(h, cells, 2 * half) && rest == cells[2 * half..]
    ensures Parented(h, rest, half)
  {
    forall j | 0 <= j < half - 1 ensures ParentAt(h, rest, half, j) {
      assert ParentAt(h, cells, 2 * half, half + j);
      assert rest[half + j] == cells[2 * half + (half + j)];
      assert rest[2 * j] == cells[2 * (half + j)] && rest[2 * j + 1] == cells[2 * (half + j) + 1];
    }
  }

  lemma FirstLevel(h: Hasher, cells: seq<Cell>, half: nat, leaves: seq<Cell>)
    requires half > 0 && Parented(h, cells, 2 * half) && cells[..2 * half] == leaves
    ensures cells[2 * half..][..half] == Up(h, leaves)
  {
    var rest, up := cells[2 * half..], Up(h, leaves);
    forall j | 0 <= j < half ensures rest[j] == up[j] {
      assert ParentAt(h, cells, 2 * half, j);
      assert rest[j] == cells[2 * half + j];
      assert cells[2 * j] == leaves[2 * j] && cells[2 * j + 1] == leaves[2 * j + 1];
    }
  }

  /** The cells of an array whose parents lie behind the leaves in order are its levels. */
  lemma {:induction false} StoreIsLevels(h: Hasher, cells: seq<Cell>, leaves: seq<Cell>)
    requires IsPowerOfTwo(|leaves|) && Parented(h, cells, |leaves|) && cells[..|leaves|] == leaves
    ensures cells == Levels(h, leaves)
    decreases |leaves|
  {
    var n := |leaves|;
    if n == 1 {
      assert cells == leaves;
    } else {
      FirstLevel(h, cells, n / 2, leaves);
      ParentedRest(h, cells, n / 2, cells[n..]);
      StoreIsLevels(h, cells[n..], Up(h, leaves));
      assert cells == cells[..n] + cells[n..];
    }
  }

  /** Going up keeps the padding, and hashes as the reference does. */
  lemma PaddedUp(h: Hasher, hashes: seq<Hash>, width: nat)
    requires |hashes| <= width && width % 2 == 0
    ensures Up(h, Padded(hashes, width)) == Padded(Pairs(h, hashes), width / 2)
  {
    var up, pairs := Up(h, Padded(hashes, width)), Pairs(h, hashes);
    forall i | 0 <= i < width / 2 ensures up[i] == Padded(pairs, width / 2)[i] {
    }
  }

  lemma UpInTwo(h: Hasher, a: seq<Cell>, b: seq<Cell>)
    requires |a| % 2 == 0
    ensures Up(h, a + b) == Up(h, a) + Up(h, b)
  {
    var both := a + b;
    var up := Up(h, both);
    forall i | 0 <= i < |up| ensures up[i] == (Up(h, a) + Up(h, b))[i] {
      if i < |a| / 2 {
        assert both[2 * i] == a[2 * i] && both[2 * i + 1] == a[2 * i + 1];
      } else {
        var k := i - |a| / 2;
        assert both[2 * i] == b[2 * k] && both[2 * i + 1] == b[2 * k + 1];
      }
    }
  }

  /** The width is the least power of two for these hashes. */
  predicate Tight(n: nat, width: nat) {
    IsPowerOfTwo(width) && n <= width < 2 * n
  }

  ghost predicate IsHalves(level: seq<Cell>, a: seq<Hash>, b: seq<Hash>, width: nat) {
    |a| <= width && |b| <= width && level == Halves(a, b, width)
  }

  lemma UpOfHalves(h: Hasher, level: seq<Cell>, a: seq<Hash>, b: seq<Hash>, half: nat)
    requires IsHalves(level, a, b, 2 * half)
    ensures IsHalves(Up(h, level), Pairs(h, a), Pairs(h, b), half)
  {
    UpInTwo(h, Padded(a, 2 * half), Padded(b, 2 * half));
    PaddedUp(h, a, 2 * half);
    PaddedUp(h, b, 2 * half);
  }

  lemma TopOfTwo(h: Hasher, level: seq<Cell>, a: seq<Hash>, b: seq<Hash>)
    requires IsHalves(level, a, b, 1) && |a| == |b| == 1
    ensures Levels(h, level) == level + [Some(h(a[0], b[0]))]
  {
    assert level == [Some(a[0]), Some(b[0])];
    assert Up(h, level) == [Some(h(a[0], b[0]))];
  }

  lemma TightHalf(n: nat, width: nat) returns (half: nat)
    requires Tight(n, width) && width != 1
    ensures n > 1 && width == 2 * half && Tight((n + 1) / 2, half)
  {
    half := width / 2;
  }

  lemma LevelsEnd(h: Hasher, level: seq<Cell>, hash: Hash)
    requires |level| > 1 && EndsWith(Levels(h, Up(h, level)), hash)
    ensures EndsWith(Levels(h, level), hash)
  {
  }

  ghost predicate EndsWith(cells: seq<Cell>, hash: Hash) {
    cells != [] && cells[|cells| - 1] == Some(hash)
  }

  /** The last cell over two padded halves is the hash of their two roots. */
  lemma {:induction false} RootOfHalves(h: Hasher, level: seq<Cell>, a: seq<Hash>, b: seq<Hash>, width: nat)
    requires IsHalves(level, a, b, width) && Tight(|a|, width) && |b| == |a|
    ensures EndsWith(Levels(h, level), h(Root(h, a), Root(h, b)))
    decreases width
  {
    if width == 1 {
      TopOfTwo(h, level, a, b);
    } else {
      var half := TightHalf(|a|, width);
      UpOfHalves(h, level, a, b, half);
      RootOfHalves(h, Up(h, level), Pairs(h, a), Pairs(h, b), half);
      LevelsEnd(h, level, h(Root(h, a), Root(h, b)));
    }
  }

  // ----- which cells are empty -----

  /** `n` doubled `k` times: the first leaf below node `n`, `k` levels up. */
  function Doubled(n: nat, k: nat): (r: nat)
    ensures r >= n
  {
    if k == 0 then n else 2 * Doubled(n, k - 1)
  }

  lemma {:induction false} DoubledTwice(n: nat, k: nat)
    ensures Doubled(2 * n, k) == 2 * Doubled(n, k)
  {
    if k > 0 {
      DoubledTwice(n, k - 1);
    }
  }

  /** The hashes `k` levels up. */
  function Reduced(h: Hasher, hashes: seq<Hash>, k: nat): (r: seq<Hash>)
    decreases k
  {
    if k == 0 then hashes else Reduced(h, Pairs(h, hashes), k - 1)
  }

  /** The `k`-th level of a tree of cells, and where it starts in the array. */
  function LevelAt(h: Hasher, level: seq<Cell>, k: nat): (r: seq<Cell>)
    decreases k
  {
    if k == 0 then level else LevelAt(h, Up(h, level), k - 1)
  }

  function Offset(width: nat, k: nat): (o: nat) {
    if k == 0 then 0 else width + Offset(width / 2, k - 1)
  }

  /** How many nodes there are `k` levels up. */
  function SizeAt(n: nat, k: nat): (size: nat)
    decreases k
  {
    if k == 0 then n else SizeAt((n + 1) / 2, k - 1)
  }

  lemma {:induction false} ReducedSize(h: Hasher, hashes: seq<Hash>, k: nat)
    ensures |Reduced(h, hashes, k)| == SizeAt(|hashes|, k)
    decreases k
  {
    if k > 0 {
      ReducedSize(h, Pairs(h, hashes), k - 1);
    }
  }

  /** A node `k` levels up exists exactly when a leaf below it does. */
  lemma {:induction false} NodeExists(n: nat, k: nat, c: nat)
    ensures c < SizeAt(n, k) <==> Doubled(c, k) < n
    decreases k
  {
    if k > 0 {
      NodeExists((n + 1) / 2, k - 1, c);
    }
  }

  /** Each level is the two reduced halves, padded. */
  lemma {:induction false} LevelOfHalves(h: Hasher, level: seq<Cell>, a: seq<Hash>, b: seq<Hash>, k: nat, top: nat)
    requires IsHalves(level, a, b, Doubled(top, k))
    ensures IsHalves(LevelAt(h, level, k), Reduced(h, a, k), Reduced(h, b, k), top)
    decreases k
  {
    if k > 0 {
      UpOfHalves(h, level, a, b, Doubled(top, k - 1));
      LevelOfHalves(h, Up(h, level), Pairs(h, a), Pairs(h, b), k - 1, top);
    }
  }

  /** Two lists agree in a cell of each. */
  ghost predicate SameCell(cells: seq<Cell>, at: nat, level: seq<Cell>, c: nat) {
    at < |cells| && c < |level| && cells[at] == level[c]
  }

  lemma LaterCell(level: seq<Cell>, rest: seq<Cell>, i: nat, up: seq<Cell>, c: nat)
    requires SameCell(rest, i, up, c)
    ensures SameCell(level + rest, |level| + i, up, c)
  {
    assert (level + rest)[|level| + i] == rest[i];
  }

  lemma FirstCell(level: seq<Cell>, rest: seq<Cell>, c: nat)
    requires c < |level|
    ensures SameCell(level, c, level, c) && SameCell(level + rest, c, level, c)
  {
  }

  lemma OffsetNext(half: nat, k: nat)
    requires k > 0
    ensures Offset(2 * half, k) == 2 * half + Offset(half, k - 1)
  {
  }

  lemma StoreNext(h: Hasher, level: seq<Cell>, half: nat, k: nat, c: nat, r: seq<Cell>)
    requires k > 0 && half > 0 && |level| == 2 * half
    requires SameCell(Levels(h, Up(h, level)), Offset(half, k - 1) + c, r, c)
    ensures SameCell(Levels(h, level), Offset(2 * half, k) + c, r, c)
  {
    OffsetNext(half, k);
    LaterCell(level, Levels(h, Up(h, level)), Offset(half, k - 1) + c, r, c);
  }

  /** Each cell of a level lies behind the levels below it. */
  lemma {:induction false} LevelInStore(h: Hasher, level: seq<Cell>, n: nat, k: nat, top: nat, c: nat)
    requires |level| == n == Doubled(top, k) && c < top
    ensures SameCell(Levels(h, level), Offset(n, k) + c, LevelAt(h, level, k), c)
    decreases k
  {
    if k == 0 {
      FirstCell(level, Levels(h, Up(h, level)), c);
    } else {
      var half, up := Doubled(top, k - 1), Up(h, level);
      LevelInStore(h, up, half, k - 1, top, c);
      StoreNext(h, level, half, k, c, LevelAt(h, up, k - 1));
    }
  }

  /** The store over two lists of hashes. */
  function Store(h: Hasher, a: seq<Hash>, b: seq<Hash>, width: nat): (cells: seq<Cell>)
    requires |a| <= width && |b| <= width
  {
    Levels(h, Halves(a, b, width))
  }

  /** Whether cell `c` of a level, with `top` cells for each half, covers no hash of its half. */
  predicate CoversNothing(a: seq<Hash>, b: seq<Hash>, k: nat, top: nat, c: nat) {
    if c < top then |a| <= Doubled(c, k) else |b| <= Doubled(c - top, k)
  }

  lemma HalvesAt(a: seq<Hash>, b: seq<Hash>, width: nat, c: nat)
    requires |a| <= width && |b| <= width && c < 2 * width
    ensures |Halves(a, b, width)| == 2 * width
    ensures Halves(a, b, width)[c].None? <==> if c < width then |a| <= c else |b| <= c - width
  {
  }

  /** `k` levels up each half has `top` cells; one of them is empty exactly when it covers no hash. */
  lemma EmptyCells(h: Hasher, a: seq<Hash>, b: seq<Hash>, width: nat, k: nat, top: nat, c: nat)
    requires width == Doubled(top, k) && |a| <= width && |b| <= width && c < 2 * top
    ensures |LevelAt(h, Halves(a, b, width), k)| == 2 * top
    ensures LevelAt(h, Halves(a, b, width), k)[c].None? <==> CoversNothing(a, b, k, top, c)
  {
    LevelOfHalves(h, Halves(a, b, width), a, b, k, top);
    HalvesAt(Reduced(h, a, k), Reduced(h, b, k), top, c);
    ReducedSize(h, a, k);
    ReducedSize(h, b, k);
    NodeExists(if c < top then |a| else |b|, k, if c < top then c else c - top);
  }

  /** Whether a cell is empty. */
  ghost predicate EmptyAt(cells: seq<Cell>, at: nat, empty: bool) {
    at < |cells| && (cells[at].None? <==> empty)
  }

  lemma SameIsEmpty(cells: seq<Cell>, at: nat, level: seq<Cell>, c: nat, empty: bool)
    requires SameCell(cells, at, level, c) && EmptyAt(level, c, empty)
    ensures EmptyAt(cells, at, empty)
  {
  }

  lemma CellInStore(h: Hasher, level: seq<Cell>, k: nat, top: nat, c: nat, width: nat)
    requires |level| == 2 * width && width == Doubled(top, k) && c < 2 * top
    ensures SameCell(Levels(h, level), Offset(2 * width, k) + c, LevelAt(h, level, k), c)
  {
    DoubledTwice(top, k);
    LevelInStore(h, level, |level|, k, 2 * top, c);
  }

  lemma EmptyInLevel(h: Hasher, a: seq<Hash>, b: seq<Hash>, width: nat, k: nat, top: nat, c: nat)
    requires width == Doubled(top, k) && |a| <= width && |b| <= width && c < 2 * top
    ensures |Halves(a, b, width)| == 2 * width
    ensures EmptyAt(LevelAt(h, Halves(a, b, width), k), c, CoversNothing(a, b, k, top, c))
  {
    EmptyCells(h, a, b, width, k, top, c);
  }

  /** So it is in the array, where its level comes after those below it. */
  lemma EmptyInStore(h: Hasher, a: seq<Hash>, b: seq<Hash>, width: nat, k: nat, top: nat, c: nat)
    requires width == Doubled(top, k) && |a| <= width && |b| <= width && c < 2 * top
    ensures EmptyAt(Store(h, a, b, width), Offset(2 * width, k) + c, CoversNothing(a, b, k, top, c))
  {
    var level := Halves(a, b, width);
    EmptyInLevel(h, a, b, width, k, top, c);
    CellInStore(h, level, k, top, c, width);
    SameIsEmpty(Levels(h, level), Offset(2 * width, k) + c, LevelAt(h, level, k), c, CoversNothing(a, b, k, top, c));
  }

  // ----- the array -----

  /** The first `n` parents are in place. */
  ghost predicate ParentedUpTo(h: Hasher, cells: seq<Cell>, leaves: nat, n: nat) {
    && |cells| == 2 * leaves - 1 && n <= leaves - 1
    && forall j {:trigger ParentAt(h, cells, leaves, j)} :: 0 <= j < n ==> ParentAt(h, cells, leaves, j)
  }

  lemma NextParent(h: Hasher, cells: seq<Cell>, leaves: nat, n: nat, cells': seq<Cell>)
    requires ParentedUpTo(h, cells, leaves, n) && n < leaves - 1
    requires cells' == cells[leaves + n := Combine(h, cells[2 * n], cells[2 * n + 1])]
    ensures ParentedUpTo(h, cells', leaves, n + 1)
    ensures cells'[..leaves] == cells[..leaves]
  {
    forall j | 0 <= j < n + 1 ensures ParentAt(h, cells', leaves, j) {
      if j < n {
        assert ParentAt(h, cells, leaves, j);
      }
    }
  }

  /** The two hashes of each transaction, in the two halves of the leaves. */
  method FillLeaves(merkles: array<Cell>, txs: seq<Hash>, signed: seq<Hash>, nextPoT: nat)
    requires |txs| == |signed| <= nextPoT && 2 * nextPoT <= merkles.Length
    requires forall i :: 0 <= i < merkles.Length ==> merkles[i] == None
    modifies merkles
    ensures merkles[..2 * nextPoT] == Halves(txs, signed, nextPoT)
  {
    for i := 0 to |txs|
      invariant forall k :: 0 <= k < nextPoT ==> merkles[k] == if k < i then Some(txs[k]) else None
      invariant forall k :: nextPoT <= k < 2 * nextPoT ==>
        merkles[k] == if k - nextPoT < i then Some(signed[k - nextPoT]) else None
    {
      merkles[i] := Some(txs[i]);
      merkles[i + nextPoT] := Some(signed[i]);
    }
  }

  /** The loop that moves up the array, writing each parent behind the last one. */
  method FillParents(h: Hasher, merkles: array<Cell>, leaves: nat)
    requires leaves > 0 && merkles.Length == 2 * leaves - 1
    modifies merkles
    ensures Parented(h, merkles[..], leaves)
    ensures merkles[..][..leaves] == old(merkles[..])[..leaves]
  {
    var offset, i := leaves, 0;
    while i < merkles.Length - 1
      invariant 0 <= i <= merkles.Length - 1 && i % 2 == 0 && offset == leaves + i / 2
      invariant merkles[..][..leaves] == old(merkles[..])[..leaves]
      invariant ParentedUpTo(h, merkles[..], leaves, i / 2)
    {
      ghost var before := merkles[..];
      merkles[offset] := Combine(h, merkles[i], merkles[i + 1]);
      NextParent(h, before, leaves, i / 2, merkles[..]);
      i := i + 2;
      offset := offset + 1;
    }
  }

  lemma LevelsAreStored(h: Hasher, cells: seq<Cell>, txs: seq<Hash>, signed: seq<Hash>, width: nat)
    requires IsPowerOfTwo(width) && |txs| <= width && |signed| <= width
    requires Parented(h, cells, 2 * width) && cells[..2 * width] == Halves(txs, signed, width)
    ensures cells == Store(h, txs, signed, width)
  {
    TwiceIsPowerOfTwo(width);
    StoreIsLevels(h, cells, Halves(txs, signed, width));
  }

  lemma RootsAreOnTop(h: Hasher, cells: seq<Cell>, txs: seq<Hash>, signed: seq<Hash>, width: nat)
    requires Tight(|txs|, width) && |signed| == |txs| && cells == Store(h, txs, signed, width)
    ensures cells != [] && cells[|cells| - 1] == Some(h(Root(h, txs), Root(h, signed)))
  {
    RootOfHalves(h, Halves(txs, signed, width), txs, signed, width);
  }

  /** The array holds the levels over both lists of hashes, and on top the hash of the two roots. */
  ghost predicate HoldsTree(h: Hasher, cells: seq<Cell>, txs: seq<Hash>, signed: seq<Hash>)
    requires txs != [] && |signed| == |txs|
  {
    && cells == Store(h, txs, signed, NextPowerOfTwo(|txs|))
    && |cells| == 4 * NextPowerOfTwo(|txs|) - 1
    && cells[|cells| - 1] == Some(h(Root(h, txs), Root(h, signed)))
  }

  lemma TreeIsBuilt(h: Hasher, cells: seq<Cell>, txs: seq<Hash>, signed: seq<Hash>)
    requires txs != [] && |signed| == |txs|
    requires var width := NextPowerOfTwo(|txs|);
      Parented(h, cells, 2 * width) && cells[..2 * width] == Halves(txs, signed, width)
    ensures HoldsTree(h, cells, txs, signed)
  {
    LevelsAreStored(h, cells, txs, signed, NextPowerOfTwo(|txs|));
    RootsAreOnTop(h, cells, txs, signed, NextPowerOfTwo(|txs|));
  }

  /** BuildMerkleTreeStore, from the two hashes of each transaction. */
  method BuildMerkleTreeStore(h: Hasher, txs: seq<Hash>, signed: seq<Hash>) returns (merkles: array<Cell>)
    requires txs != [] && |signed| == |txs|
    ensures HoldsTree(h, merkles[..], txs, signed)
  {
    var nextPoT := NextPowerOfTwo(|txs|);
    var arraySize := nextPoT * 2 * 2 - 1;
    merkles := new Cell[arraySize](_ => None);
    FillLeaves(merkles, txs, signed, nextPoT);
    assert merkles[..][..2 * nextPoT] == merkles[..2 * nextPoT];
    FillParents(h, merkles, 2 * nextPoT);
    TreeIsBuilt(h, merkles[..], txs, signed);
  }
}
