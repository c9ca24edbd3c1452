/**
 Expiry and eviction in the orphan pool (blockchain/chain.go): what adding an orphan drops, why the reference to
 the oldest orphan may name one that has left, and when that lets the pool outgrow its limit.
 */
module OrphanExpiry {
  import opened Bytes
  import opened BlockTree
  import opened OrphanPool

  function Unexpired(p: Pool, expired: Orphan -> bool): (keys: set<Hash>) {
    set h | h in p.orphans && !expired(p.orphans[h])
  }

  // ----- the expiry loop -----

  /** Nothing in the pool outside `left` expires before `time`. */
  ghost predicate Earliest(p: Pool, left: set<Hash>, time: int) {
    forall h :: h in p.orphans && h !in left ==> time <= p.orphans[h].expiration
  }

  /** The reference of before, unless an orphan met since expires strictly earlier; then the earliest of those. */
  ghost predicate OldestKept(p0: Pool, p: Pool, left: set<Hash>) {
    match p.oldest
    case None => p0.oldest.None? && p.orphans.Keys <= left
    case Some(o) =>
      && Earliest(p, left, o.expiration)
      && (p0.oldest == Some(o) || (
            && o.block.hash in p.orphans && o.block.hash !in left && p.orphans[o.block.hash] == o
            && (p0.oldest.Some? ==> o.expiration < p0.oldest.value.expiration)))
  }

  /** What the loop leaves: the orphans that have not expired, and those in `left` it has still to meet. */
  ghost predicate Expiring(p0: Pool, p: Pool, left: set<Hash>, expired: Orphan -> bool) {
    && left <= p0.orphans.Keys
    && (forall h :: h in p.orphans <==> h in p0.orphans && (h in left || !expired(p0.orphans[h])))
    && (forall h :: h in p.orphans ==> p.orphans[h] == p0.orphans[h])
    && OldestKept(p0, p, left)
  }

  lemma ExpireRemoved(p0: Pool, p: Pool, left: set<Hash>, expired: Orphan -> bool, h: Hash)
    requires Expiring(p0, p, left, expired) && h in left && h in p.orphans
    requires expired(p.orphans[h]) && p.orphans[h].block.hash == h
    ensures Expiring(p0, Removed(p, p.orphans[h].block), left - {h}, expired)
  {
  }

  lemma ExpireKept(p0: Pool, p: Pool, left: set<Hash>, expired: Orphan -> bool, h: Hash)
    requires Expiring(p0, p, left, expired) && h in left && h in p.orphans
    requires !expired(p.orphans[h]) && p.orphans[h].block.hash == h
    ensures Expiring(p0, p.(oldest := Older(p.oldest, p.orphans[h])), left - {h}, expired)
  {
  }

  /** The reference after meeting an orphan that has not expired. */
  function Older(oldest: Option<Orphan>, o: Orphan): (r: Option<Orphan>) {
    if oldest.None? || o.expiration < oldest.value.expiration then Some(o) else oldest
  }

  // ----- making room -----

  /** The reference names no orphan that will be left, and none that will be left expires before it. */
  ghost predicate Stale(p: Pool, expired: Orphan -> bool) {
    && p.oldest.Some? && p.oldest.value.block.hash !in Unexpired(p, expired)
    && forall h :: h in Unexpired(p, expired) ==> p.oldest.value.expiration <= p.orphans[h].expiration
  }

  /** An orphan that no other one left expires before, going by the reference if that names it. */
  ghost predicate Victim(p: Pool, expired: Orphan -> bool, h: Hash) {
    && h in Unexpired(p, expired)
    && (|| NoneBefore(p, expired, p.orphans[h])
        || (p.oldest.Some? && p.oldest.value.block.hash == h && NoneBefore(p, expired, p.oldest.value)))
  }

  ghost predicate NoneBefore(p: Pool, expired: Orphan -> bool, o: Orphan) {
    forall g :: g in Unexpired(p, expired) ==> o.expiration <= p.orphans[g].expiration
  }

  /** Whether an orphan that has not expired must go. */
  ghost predicate Evicts(p: Pool, expired: Orphan -> bool) {
    |Unexpired(p, expired)| >= MAX_ORPHAN_BLOCKS && !Stale(p, expired)
  }

  /** What is left before an orphan is added. */
  ghost predicate RoomMade(p0: Pool, p: Pool, expired: Orphan -> bool) {
    && (if Evicts(p0, expired)
        then exists h :: Victim(p0, expired, h) && p.orphans.Keys == Unexpired(p0, expired) - {h}
        else p.orphans.Keys == Unexpired(p0, expired))
    && (forall h :: h in p.orphans ==> h in p0.orphans && p.orphans[h] == p0.orphans[h])
    && ReferenceLeft(p0, expired, p.oldest)
  }

  /** The reference after room was made: none in a full pool, or else the one of before or an earliest one left. */
  ghost predicate ReferenceLeft(p0: Pool, expired: Orphan -> bool, oldest: Option<Orphan>) {
    if |Unexpired(p0, expired)| >= MAX_ORPHAN_BLOCKS then
      oldest.None?
    else
      match oldest
      case None => p0.oldest.None? && Unexpired(p0, expired) == {}
      case Some(o) =>
        && NoneBefore(p0, expired, o)
        && (p0.oldest == Some(o) || (
              && o.block.hash in Unexpired(p0, expired) && p0.orphans[o.block.hash] == o
              && (p0.oldest.Some? ==> o.expiration < p0.oldest.value.expiration)))
  }

  lemma SparseHasRoom(p0: Pool, p: Pool, expired: Orphan -> bool)
    requires Expiring(p0, p, {}, expired) && |p.orphans| < MAX_ORPHAN_BLOCKS
    ensures RoomMade(p0, p, expired)
  {
    ExpiredKeys(p0, p, expired);
    assert |p.orphans| == |p.orphans.Keys|;
    if p.oldest.Some? {
      assert NoneBefore(p0, expired, p.oldest.value);
    }
  }

  lemma ExpiredKeys(p0: Pool, p: Pool, expired: Orphan -> bool)
    requires Expiring(p0, p, {}, expired)
    ensures p.orphans.Keys == Unexpired(p0, expired)
    ensures |p.orphans| > 0 ==> p.oldest.Some?
  {
    assert p.orphans.Keys == Unexpired(p0, expired);
    assert |p.orphans| == |p.orphans.Keys|;
  }

  /** The reference names a victim, unless it is stale. */
  lemma OldestIsVictim(p0: Pool, p: Pool, expired: Orphan -> bool)
    requires Expiring(p0, p, {}, expired) && p.oldest.Some?
    ensures if Stale(p0, expired) then p.oldest.value.block.hash !in p.orphans
            else Victim(p0, expired, p.oldest.value.block.hash)
  {
    ExpiredKeys(p0, p, expired);
    var o := p.oldest.value;
    assert NoneBefore(p0, expired, o);
  }

  /** Removing what the reference names makes room in a full pool. */
  lemma FullMakesRoom(p0: Pool, p: Pool, expired: Orphan -> bool)
    requires Expiring(p0, p, {}, expired) && p.oldest.Some? && |p.orphans| >= MAX_ORPHAN_BLOCKS
    ensures RoomMade(p0, Removed(p, p.oldest.value.block).(oldest := None), expired)
  {
    ExpiredKeys(p0, p, expired);
    OldestIsVictim(p0, p, expired);
    var h := p.oldest.value.block.hash;
    assert Removed(p, p.oldest.value.block).orphans.Keys == p.orphans.Keys - {h};
  }

  // ----- how many there are -----

  /** The pool outgrows its limit, by one, exactly when it had before or the reference is stale. */
  ghost predicate Outgrows(p: Pool, expired: Orphan -> bool) {
    || |Unexpired(p, expired)| == MAX_ORPHAN_BLOCKS + 1
    || (|Unexpired(p, expired)| == MAX_ORPHAN_BLOCKS && Stale(p, expired))
  }

  /** A pool over its limit has no reference, so that it is not stale. */
  lemma UnexpiredSize(p: Pool, expired: Orphan -> bool)
    requires Sized(p)
    ensures |Unexpired(p, expired)| <= MAX_ORPHAN_BLOCKS + 1
    ensures |Unexpired(p, expired)| == MAX_ORPHAN_BLOCKS + 1 ==> !Stale(p, expired)
  {
    SubsetSize(Unexpired(p, expired), p.orphans.Keys);
  }

  lemma RoomSize(p0: Pool, p: Pool, expired: Orphan -> bool)
    requires RoomMade(p0, p, expired)
    ensures |p.orphans| == |Unexpired(p0, expired)| - if Evicts(p0, expired) then 1 else 0
  {
    assert |p.orphans| == |p.orphans.Keys|;
  }

  /** Of the orphans that have not expired, all stay or all but a victim. */
  ghost predicate Contents(p0: Pool, keys: set<Hash>, expired: Orphan -> bool, added: Hash) {
    if Evicts(p0, expired)
    then exists h :: Victim(p0, expired, h) && keys == Unexpired(p0, expired) - {h} + {added}
    else keys == Unexpired(p0, expired) + {added}
  }

  lemma RoomContents(p0: Pool, p: Pool, expired: Orphan -> bool, added: Hash, keys: set<Hash>)
    requires RoomMade(p0, p, expired) && keys == p.orphans.Keys + {added}
    ensures Contents(p0, keys, expired, added)
  {
    if Evicts(p0, expired) {
      var h :| Victim(p0, expired, h) && p.orphans.Keys == Unexpired(p0, expired) - {h};
      assert keys == Unexpired(p0, expired) - {h} + {added};
    }
  }

  /** What adding an orphan leaves. */
  ghost predicate Admitted(p0: Pool, p: Pool, expired: Orphan -> bool, o: Orphan) {
    && o.block.hash in p.orphans && p.orphans[o.block.hash] == o
    && Contents(p0, p.orphans.Keys, expired, o.block.hash)
    && (forall h :: h in p.orphans && h != o.block.hash ==> h in p0.orphans && p.orphans[h] == p0.orphans[h])
    && ReferenceLeft(p0, expired, p.oldest)
    && (|p.orphans| == MAX_ORPHAN_BLOCKS + 1 <==> Outgrows(p0, expired))
  }

  lemma AddedSize(p0: Pool, p: Pool, expired: Orphan -> bool, o: Orphan)
    requires Sized(p0) && RoomMade(p0, p, expired) && o.block.hash !in p.orphans
    ensures Sized(Added(p, o)) && Added(p, o).orphans.Keys == p.orphans.Keys + {o.block.hash}
    ensures |Added(p, o).orphans| == MAX_ORPHAN_BLOCKS + 1 <==> Outgrows(p0, expired)
  {
    RoomSize(p0, p, expired);
    UnexpiredSize(p0, expired);
    var p' := Added(p, o);
    assert p'.orphans.Keys == p.orphans.Keys + {o.block.hash};
    assert |p'.orphans| == |p'.orphans.Keys| == |p.orphans.Keys| + 1;
  }

  lemma RoomAdmits(p0: Pool, p: Pool, expired: Orphan -> bool, o: Orphan, p': Pool)
    requires Sized(p0) && RoomMade(p0, p, expired) && o.block.hash !in p.orphans && p' == Added(p, o)
    ensures Sized(p') && Admitted(p0, p', expired, o) && p'.orphans.Keys - {o.block.hash} <= p0.orphans.Keys
  {
    AddedSize(p0, p, expired, o);
    RoomContents(p0, p, expired, o.block.hash, p'.orphans.Keys);
  }

  lemma RoomIsSmaller(p0: Pool, p: Pool, expired: Orphan -> bool)
    requires RoomMade(p0, p, expired)
    ensures p.orphans.Keys <= p0.orphans.Keys
  {
  }

  lemma AddedIsNamed(named: Hash -> Block, p: Pool, o: Orphan)
    requires Named(named, p) && o.block == named(o.block.hash)
    ensures Named(named, Added(p, o))
  {
  }

  lemma AddKeepsOrder(named: Hash -> Block, p0: Pool, p: Pool, expired: Orphan -> bool, o: Orphan, p': Pool)
    requires Sized(p0) && RoomMade(p0, p, expired) && Indexed(p) && Named(named, p)
    requires o.block == named(o.block.hash) && o.block.hash !in p0.orphans && p' == Added(p, o)
    ensures Indexed(p') && Named(named, p') && Sized(p')
    ensures Admitted(p0, p', expired, o) && p'.orphans.Keys - {o.block.hash} <= p0.orphans.Keys
  {
    RoomIsSmaller(p0, p, expired);
    RoomAdmits(p0, p, expired, o, p');
    AddedIsIndexed(p, o);
    AddedIsNamed(named, p, o);
  }

  /** The reference is set to an orphan in the pool, or not set. */
  ghost predicate Live(p: Pool) {
    p.oldest.Some? ==>
      p.oldest.value.block.hash in p.orphans && p.orphans[p.oldest.value.block.hash] == p.oldest.value
  }

  /** While the reference is live, the orphan that goes is one that no other unexpired one expires before. */
  lemma LiveVictim(p: Pool, expired: Orphan -> bool, h: Hash)
    requires Live(p) && Victim(p, expired, h)
    ensures forall g :: g in Unexpired(p, expired) ==> p.orphans[h].expiration <= p.orphans[g].expiration
  {
    assert NoneBefore(p, expired, p.orphans[h]);
  }

  // ----- a pool that outgrows its limit -----

  function Numbered(h: Hash): (block: Block) {
    Block(h, Hash(h.bits + 1_000_000), 0, 0, 0)
  }

  predicate Never(o: Orphan) {
    false
  }

  /** There are `n` orphans with hashes from 1 to `n`, which expire in that order, after the stale reference. */
  ghost predicate IsFilled(p: Pool, n: nat) {
    && p.oldest == Some(Orphan(Numbered(Hash(0)), 0)) && |p.orphans.Keys| == n
    && forall h :: h in p.orphans ==> 1 <= h.bits <= n && p.orphans[h] == Orphan(Numbered(h), h.bits)
  }

  lemma UnexpiredIsAll(p: Pool)
    ensures Unexpired(p, Never) == p.orphans.Keys && |Unexpired(p, Never)| == |p.orphans|
  {
    assert Unexpired(p, Never) == p.orphans.Keys;
    assert |p.orphans| == |p.orphans.Keys|;
  }

  lemma FilledKeys(p: Pool, n: nat, p': Pool)
    requires IsFilled(p, n) && n < MAX_ORPHAN_BLOCKS
    requires Admitted(p, p', Never, Orphan(Numbered(Hash(n + 1)), n + 1))
    ensures p'.orphans.Keys == p.orphans.Keys + {Hash(n + 1)} && |p'.orphans.Keys| == n + 1
  {
    UnexpiredIsAll(p);
    assert !Evicts(p, Never);
    assert Hash(n + 1) !in p.orphans.Keys;
  }

  lemma FilledReference(p: Pool, n: nat, oldest: Option<Orphan>)
    requires IsFilled(p, n) && n < MAX_ORPHAN_BLOCKS && ReferenceLeft(p, Never, oldest)
    ensures oldest == p.oldest
  {
    UnexpiredIsAll(p);
  }

  /** Adding the next orphan keeps the reference while there is room. */
  lemma FilledStep(p: Pool, n: nat, p': Pool)
    requires IsFilled(p, n) && n < MAX_ORPHAN_BLOCKS
    requires Admitted(p, p', Never, Orphan(Numbered(Hash(n + 1)), n + 1))
    ensures IsFilled(p', n + 1)
  {
    FilledKeys(p, n, p');
    FilledReference(p, n, p'.oldest);
    forall h | h in p'.orphans ensures 1 <= h.bits <= n + 1 && p'.orphans[h] == Orphan(Numbered(h), h.bits) {
      if h != Hash(n + 1) {
        assert h in p.orphans;
      }
    }
  }

  lemma FilledOutgrows(p: Pool)
    requires IsFilled(p, MAX_ORPHAN_BLOCKS)
    ensures Outgrows(p, Never)
  {
    UnexpiredIsAll(p);
    assert Stale(p, Never);
  }

  /** An orphan added to an empty pool is not named by the reference yet. */
  lemma FirstAdded(p0: Pool, p1: Pool, o: Orphan)
    requires p0.orphans == map[] && p0.oldest.None? && Admitted(p0, p1, Never, o)
    ensures p1.orphans == map[o.block.hash := o] && p1.oldest.None?
  {
    UnexpiredIsAll(p0);
    assert !Evicts(p0, Never);
    assert p1.orphans.Keys == {o.block.hash};
  }

  /** The next add makes the reference name it. */
  lemma SecondAdded(p1: Pool, p2: Pool, o: Orphan, o': Orphan)
    requires p1.orphans == map[o.block.hash := o] && p1.oldest.None? && o'.block.hash != o.block.hash
    requires Admitted(p1, p2, Never, o')
    ensures p2.orphans.Keys == {o.block.hash, o'.block.hash} && p2.orphans[o'.block.hash] == o'
    ensures p2.oldest == Some(o)
  {
    UnexpiredIsAll(p1);
    assert p1.orphans.Keys == {o.block.hash};
    assert !Evicts(p1, Never);
  }

  lemma FirstLeft(p2: Pool, p3: Pool)
    requires p2.orphans.Keys == {Hash(0), Hash(1)} && p2.orphans[Hash(1)] == Orphan(Numbered(Hash(1)), 1)
    requires p2.oldest == Some(Orphan(Numbered(Hash(0)), 0)) && p3 == Removed(p2, Numbered(Hash(0)))
    ensures IsFilled(p3, 1)
  {
    assert p3.orphans.Keys == {Hash(1)};
  }
}
