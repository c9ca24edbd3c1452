/**
 The orphan pool (blockchain/chain.go): blocks whose parent is not known yet, indexed by their own hash and by
 that of the parent, with a reference to the oldest that may outlive its orphan.
 */
module OrphanPool {
  import opened Bytes
  import opened BlockTree

  const MAX_ORPHAN_BLOCKS: nat := 1000

  datatype Orphan = Orphan(block: Block, expiration: int)

  type Waiting = map<Hash, seq<Orphan>>

  datatype Pool = Pool(orphans: map<Hash, Orphan>, prevOrphans: Waiting, oldest: Option<Orphan>)

  function ListOf(prevOrphans: Waiting, h: Hash): (list: seq<Orphan>) {
    if h in prevOrphans then prevOrphans[h] else []
  }

  // ----- the invariant -----

  /** An orphan is indexed under its own hash and waits for its parent. */
  ghost predicate Listed(orphans: map<Hash, Orphan>, prevOrphans: Waiting, h: Hash)
    requires h in orphans
  {
    orphans[h].block.hash == h && orphans[h] in ListOf(prevOrphans, orphans[h].block.prev)
  }

  /** Those waiting for a block are orphans with that parent, at least one, and none twice. */
  ghost predicate ListOk(orphans: map<Hash, Orphan>, prevOrphans: Waiting, q: Hash)
    requires q in prevOrphans
  {
    var list := prevOrphans[q];
    && list != []
    && (forall i :: 0 <= i < |list| ==>
      list[i].block.prev == q && list[i].block.hash in orphans && orphans[list[i].block.hash] == list[i])
    && NoRepeats(list)
  }

  /** Both indexes hold the same orphans, once each. */
  ghost predicate Indexed(p: Pool) {
    && (forall h {:trigger Listed(p.orphans, p.prevOrphans, h)} :: h in p.orphans ==>
      Listed(p.orphans, p.prevOrphans, h))
    && (forall q {:trigger ListOk(p.orphans, p.prevOrphans, q)} :: q in p.prevOrphans ==>
      ListOk(p.orphans, p.prevOrphans, q))
  }

  /** One more than the limit at most, and then there is no reference to the oldest. */
  ghost predicate Sized(p: Pool) {
    && |p.orphans| <= MAX_ORPHAN_BLOCKS + 1
    && (|p.orphans| == MAX_ORPHAN_BLOCKS + 1 ==> p.oldest.None?)
  }

  /** Every block in the pool, and the one the oldest reference remembers, is the block its hash names. */
  ghost predicate Named(named: Hash -> Block, p: Pool) {
    && (forall h :: h in p.orphans ==> p.orphans[h].block == named(h))
    && (p.oldest.Some? ==> p.oldest.value.block == named(p.oldest.value.block.hash))
  }

  // ----- removing -----

  function Without(list: seq<Orphan>, h: Hash): (r: seq<Orphan>)
    ensures forall o :: o in r <==> o in list && o.block.hash != h
  {
    if list == [] then []
    else if list[|list| - 1].block.hash == h then Without(list[..|list| - 1], h)
    else Without(list[..|list| - 1], h) + [list[|list| - 1]]
  }

  lemma {:induction false} WithoutKeepsOnce(list: seq<Orphan>, h: Hash)
    requires NoRepeats(list)
    ensures NoRepeats(Without(list, h))
  {
    if list != [] {
      var init, last := list[..|list| - 1], list[|list| - 1];
      assert NoRepeats(init);
      WithoutKeepsOnce(init, h);
      var r := Without(init, h);
      assert last !in init;
      assert forall i :: 0 <= i < |r| ==> r[i] in r;
      assert NoRepeats(r + [last]);
    }
  }

  /** removeOrphanBlock's effect; the orphan may have left the pool before. */
  function Removed(p: Pool, block: Block): (p': Pool) {
    var list := Without(ListOf(p.prevOrphans, block.prev), block.hash);
    p.(orphans := p.orphans - {block.hash},
       prevOrphans := if list == [] then p.prevOrphans - {block.prev} else p.prevOrphans[block.prev := list])
  }

  /** The inner loop of removeOrphanBlock, which shifts the rest of the list down. */
  method Drop(list: seq<Orphan>, h: Hash) returns (rest: seq<Orphan>)
    ensures rest == Without(list, h)
  {
    rest := list;
    var i := 0;
    ghost var k := 0;
    while i < |rest|
      invariant 0 <= i <= |rest| && 0 <= k <= |list|
      invariant rest[..i] == Without(list[..k], h) && rest[i..] == list[k..]
      decreases |rest| - i
    {
      assert list[..k + 1][..k] == list[..k];
      assert rest[i] == rest[i..][0] == list[k];
      if rest[i].block.hash == h {
        rest := rest[..i] + rest[i + 1..];
        assert rest[i..] == list[k..][1..];
      } else {
        assert rest[..i + 1] == rest[..i] + [rest[i]];
        assert rest[i + 1..] == list[k..][1..];
        i := i + 1;
      }
      k := k + 1;
    }
    assert rest[..i] == rest && list[..k] == list;
  }

  /** A hash names one block: whatever is in the pool under this hash is this block. */
  ghost predicate Names(p: Pool, block: Block) {
    block.hash in p.orphans ==> p.orphans[block.hash].block == block
  }

  lemma RemovedIsIndexed(p: Pool, block: Block)
    requires Indexed(p) && Names(p, block)
    ensures Indexed(Removed(p, block))
  {
    var p' := Removed(p, block);
    var list := ListOf(p.prevOrphans, block.prev);
    if block.prev in p.prevOrphans {
      assert ListOk(p.orphans, p.prevOrphans, block.prev);
      WithoutKeepsOnce(list, block.hash);
    }
    forall h | h in p'.orphans ensures Listed(p'.orphans, p'.prevOrphans, h) {
      assert Listed(p.orphans, p.prevOrphans, h);
    }
    forall q | q in p'.prevOrphans ensures ListOk(p'.orphans, p'.prevOrphans, q) {
      assert q in p.prevOrphans && ListOk(p.orphans, p.prevOrphans, q);
      RemovedList(p, block, q);
    }
  }

  lemma RemovedList(p: Pool, block: Block, q: Hash)
    requires Indexed(p) && Names(p, block) && q in p.prevOrphans && q in Removed(p, block).prevOrphans
    ensures ListOk(Removed(p, block).orphans, Removed(p, block).prevOrphans, q)
  {
    var p' := Removed(p, block);
    var list, list' := p.prevOrphans[q], p'.prevOrphans[q];
    assert ListOk(p.orphans, p.prevOrphans, q);
    WithoutKeepsOnce(list, block.hash);
    assert list' == if q == block.prev then Without(list, block.hash) else list;
    forall i | 0 <= i < |list'|
      ensures list'[i].block.prev == q && list'[i].block.hash in p'.orphans
        && p'.orphans[list'[i].block.hash] == list'[i]
    {
      assert list'[i] in list';
      assert list'[i] in list;
      var k :| 0 <= k < |list| && list[k] == list'[i];
    }
  }

  /** Removing an orphan adds none to any list. */
  lemma RemovedShrinks(p: Pool, block: Block, q: Hash)
    ensures ListOf(p.prevOrphans, q) == [] ==> ListOf(Removed(p, block).prevOrphans, q) == []
    ensures Removed(p, block).orphans.Keys == p.orphans.Keys - {block.hash}
  {
  }

  // ----- adding -----

  function Added(p: Pool, o: Orphan): (p': Pool) {
    p.(orphans := p.orphans[o.block.hash := o],
       prevOrphans := p.prevOrphans[o.block.prev := ListOf(p.prevOrphans, o.block.prev) + [o]])
  }

  lemma AddedIsIndexed(p: Pool, o: Orphan)
    requires Indexed(p) && o.block.hash !in p.orphans
    ensures Indexed(Added(p, o))
  {
    var p' := Added(p, o);
    forall h | h in p'.orphans ensures Listed(p'.orphans, p'.prevOrphans, h) {
      if h != o.block.hash {
        assert Listed(p.orphans, p.prevOrphans, h);
      }
    }
    forall q | q in p'.prevOrphans ensures ListOk(p'.orphans, p'.prevOrphans, q) {
      if q in p.prevOrphans {
        assert ListOk(p.orphans, p.prevOrphans, q);
      }
    }
  }

  /** Nothing waits for a block that no list is kept for. */
  lemma NobodyWaits(p: Pool, q: Hash)
    requires Indexed(p) && ListOf(p.prevOrphans, q) == []
    ensures forall h :: h in p.orphans ==> p.orphans[h].block.prev != q
  {
    forall h | h in p.orphans ensures p.orphans[h].block.prev != q {
      assert Listed(p.orphans, p.prevOrphans, h);
    }
  }

  /** The head of a list is an orphan with that parent. */
  lemma HeadIsOrphan(p: Pool, q: Hash)
    requires Indexed(p) && ListOf(p.prevOrphans, q) != []
    ensures var o := ListOf(p.prevOrphans, q)[0];
      o.block.prev == q && o.block.hash in p.orphans && p.orphans[o.block.hash] == o
  {
    assert ListOk(p.orphans, p.prevOrphans, q);
  }
}
