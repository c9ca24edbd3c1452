/**
 Handing blocks to the chain (blockchain/process.go, blockchain/chain.go): duplicates, orphans, and the worklist
 that accepts the orphans of every accepted block.
 */
module Process {
  import opened Bytes
  import opened BlockTree
  import opened Chain
  import opened OrphanPool
  import opened OrphanExpiry
  import opened OrphanDrain

  lemma RemovedIsNamed(named: Hash -> Block, p: Pool, block: Block)
    requires Indexed(p) && Named(named, p) && block == named(block.hash)
    ensures Indexed(Removed(p, block)) && Named(named, Removed(p, block))
  {
    RemovedIsIndexed(p, block);
  }

  /** Nobody waits for any of these blocks. */
  ghost predicate Drained(p: Pool, done: set<Hash>) {
    forall q {:trigger NoWaiter(p, q)} :: q in done ==> NoWaiter(p, q)
  }

  ghost predicate NoWaiter(p: Pool, q: Hash) {
    ListOf(p.prevOrphans, q) == []
  }

  /** Every orphan that left the pool was indexed and is on the worklist. */
  ghost predicate Draining(orphans0: set<Hash>, indexed0: set<Hash>, work0: seq<Hash>, orphans: set<Hash>,
      indexed: set<Hash>, work: seq<Hash>) {
    && orphans <= orphans0
    && indexed == indexed0 + (orphans0 - orphans)
    && (forall q :: q in work <==> q in work0 || q in orphans0 - orphans)
    && (orphans0 == orphans ==> work == work0)
  }

  lemma DrainStep(orphans0: set<Hash>, indexed0: set<Hash>, work0: seq<Hash>, orphans: set<Hash>, indexed: set<Hash>,
      work: seq<Hash>, h: Hash)
    requires Draining(orphans0, indexed0, work0, orphans, indexed, work) && h in orphans
    ensures Draining(orphans0, indexed0, work0, orphans - {h}, indexed + {h}, work + [h])
  {
    assert orphans0 - (orphans - {h}) == (orphans0 - orphans) + {h};
  }

  lemma StillDrained(p: Pool, block: Block, done: set<Hash>)
    requires Drained(p, done) && block.hash in p.orphans
    ensures Drained(Removed(p, block), done)
    ensures Removed(p, block).orphans.Keys == p.orphans.Keys - {block.hash}
    ensures |Removed(p, block).orphans| < |p.orphans|
  {
    var p' := Removed(p, block);
    assert p'.orphans.Keys == p.orphans.Keys - {block.hash};
    assert |p'.orphans.Keys| == |p.orphans.Keys| - 1;
    forall q | q in done ensures NoWaiter(p', q) {
      assert NoWaiter(p, q);
      RemovedShrinks(p, block, q);
    }
  }

  /** Inside the inner loop of processOrphans: what left the pool was offered, and all of it went. */
  ghost predicate Round(rules: Rules, fastAdd: bool, h: Hash, p0: Pool, indexed0: set<Hash>, s0: State,
      work0: seq<Hash>, p: Pool, indexed: set<Hash>, s: State, work: seq<Hash>, offered: seq<Block>) {
    && Draining(p0.orphans.Keys, indexed0, work0, p.orphans.Keys, indexed, work)
    && Left(p0.orphans.Keys, p.orphans.Keys, offered)
    && Offering(p0, [h] + work0, offered, p, [h] + work)
    && Drains(rules, s0, offered, fastAdd, true, s)
  }

  lemma RoundBegins(rules: Rules, fastAdd: bool, h: Hash, p: Pool, indexed: set<Hash>, s: State, work: seq<Hash>)
    ensures Round(rules, fastAdd, h, p, indexed, s, work, p, indexed, s, work, [])
  {
    LeftNone(p.orphans.Keys);
    DrainsNone(rules, s, fastAdd);
    OfferingNone(p, [h] + work);
  }

  /** The next orphan is offered. */
  lemma RoundNext(rules: Rules, fastAdd: bool, h: Hash, p0: Pool, indexed0: set<Hash>, s0: State, work0: seq<Hash>,
      p: Pool, indexed: set<Hash>, s: State, work: seq<Hash>, offered: seq<Block>, b: Block, ok: bool, p': Pool,
      indexed': set<Hash>, s': State)
    requires Round(rules, fastAdd, h, p0, indexed0, s0, work0, p, indexed, s, work, offered) && Indexed(p)
    requires ListOf(p.prevOrphans, h) != [] && b == ListOf(p.prevOrphans, h)[0].block && p' == Removed(p, b)
    requires Drains(rules, s, [b], fastAdd, ok, s') && (ok ==> indexed' == indexed + {b.hash})
    ensures !ok ==>
      RoundDone(rules, fastAdd, p0, indexed0, s0, [h] + work0, offered + [b], false, p', indexed', s', work)
    ensures ok ==>
      Round(rules, fastAdd, h, p0, indexed0, s0, work0, p', indexed', s', work + [b.hash], offered + [b])
  {
    HeadIsOrphan(p, h);
    assert p'.orphans.Keys == p.orphans.Keys - {b.hash};
    LeftOne(p.orphans.Keys, b);
    LeftMore(p0.orphans.Keys, offered, p.orphans.Keys, [b], p'.orphans.Keys);
    OfferingNext(p0, [h] + work0, offered, p, h, work);
    DrainStep(p0.orphans.Keys, indexed0, work0, p.orphans.Keys, indexed, work, b.hash);
    DrainsMore(rules, s0, offered, s, [b], fastAdd, ok, s');
  }

  lemma RoundEnds(rules: Rules, fastAdd: bool, h: Hash, p0: Pool, indexed0: set<Hash>, s0: State, work0: seq<Hash>,
      p: Pool, indexed: set<Hash>, s: State, work: seq<Hash>, offered: seq<Block>, done: set<Hash>)
    requires Round(rules, fastAdd, h, p0, indexed0, s0, work0, p, indexed, s, work, offered)
    requires ListOf(p.prevOrphans, h) == [] && Drained(p, done)
    ensures RoundDone(rules, fastAdd, p0, indexed0, s0, [h] + work0, offered, true, p, indexed, s, work)
    ensures Drained(p, done + {h})
  {
    OfferingSkips(p0, [h] + work0, offered, p, h, work);
    assert ([h] + work0)[1..] == work0;
    assert NoWaiter(p, h);
  }

  /** Between two rounds of processOrphans: whatever was accepted has been drained or is still to be. */
  ghost predicate Pending(orphans0: set<Hash>, indexed0: set<Hash>, start: Hash, orphans: set<Hash>,
      indexed: set<Hash>, work: seq<Hash>, done: set<Hash>) {
    && orphans <= orphans0
    && indexed == indexed0 + (orphans0 - orphans)
    && Scheduled(start, orphans0 - orphans, work, done)
  }

  ghost predicate Scheduled(start: Hash, accepted: set<Hash>, work: seq<Hash>, done: set<Hash>) {
    forall q :: q in accepted + {start} ==> q in done || q in work
  }

  lemma Rescheduled(start: Hash, accepted: set<Hash>, work: seq<Hash>, done: set<Hash>, more: set<Hash>,
      work': seq<Hash>)
    requires Scheduled(start, accepted, work, done) && work != []
    requires forall q :: q in work' <==> q in work[1..] || q in more
    ensures Scheduled(start, accepted + more, work', done + {work[0]})
  {
    assert work == [work[0]] + work[1..];
  }

  lemma PendingStep(orphans0: set<Hash>, indexed0: set<Hash>, start: Hash, orphans: set<Hash>, indexed: set<Hash>,
      work: seq<Hash>, done: set<Hash>, orphans': set<Hash>, indexed': set<Hash>, work': seq<Hash>)
    requires Pending(orphans0, indexed0, start, orphans, indexed, work, done) && work != []
    requires Draining(orphans, indexed, work[1..], orphans', indexed', work')
    ensures Pending(orphans0, indexed0, start, orphans', indexed', work', done + {work[0]})
    ensures |orphans'| < |orphans| || (|orphans'| == |orphans| && |work'| < |work|)
  {
    Rescheduled(start, orphans0 - orphans, work, done, orphans - orphans', work');
    assert orphans0 - orphans' == (orphans0 - orphans) + (orphans - orphans');
    SubsetSize(orphans', orphans);
  }

  lemma PendingDone(p: Pool, orphans0: set<Hash>, indexed0: set<Hash>, start: Hash, indexed: set<Hash>, done: set<Hash>)
    requires Pending(orphans0, indexed0, start, p.orphans.Keys, indexed, [], done) && Drained(p, done)
    ensures indexed == indexed0 + (orphans0 - p.orphans.Keys)
    ensures Drained(p, {start} + (orphans0 - p.orphans.Keys))
  {
    forall q | q in {start} + (orphans0 - p.orphans.Keys) ensures NoWaiter(p, q) {
      assert q in done;
    }
  }

  /** Between two rounds: what was offered went, and the rest of it is on the worklist. */
  ghost predicate Between(rules: Rules, fastAdd: bool, hash: Hash, p0: Pool, indexed0: set<Hash>, s0: State, p: Pool,
      indexed: set<Hash>, s: State, work: seq<Hash>, done: set<Hash>, offered: seq<Block>) {
    && Pending(p0.orphans.Keys, indexed0, hash, p.orphans.Keys, indexed, work, done)
    && Left(p0.orphans.Keys, p.orphans.Keys, offered)
    && Offering(p0, [hash], offered, p, work)
    && Drains(rules, s0, offered, fastAdd, true, s)
  }

  lemma BetweenBegins(rules: Rules, fastAdd: bool, hash: Hash, p: Pool, indexed: set<Hash>, s: State)
    ensures Between(rules, fastAdd, hash, p, indexed, s, p, indexed, s, [hash], {}, [])
  {
    LeftNone(p.orphans.Keys);
    DrainsNone(rules, s, fastAdd);
    OfferingNone(p, [hash]);
  }

  /** What a round over the first hash of the worklist does. */
  ghost predicate RoundDone(rules: Rules, fastAdd: bool, p: Pool, indexed: set<Hash>, s: State, work: seq<Hash>,
      offered: seq<Block>, ok: bool, p': Pool, indexed': set<Hash>, s': State, work': seq<Hash>)
    requires work != []
  {
    && Left(p.orphans.Keys, p'.orphans.Keys, offered)
    && Drains(rules, s, offered, fastAdd, ok, s')
    && (!ok ==> OffersFirst(p, work, offered))
    && (ok ==> Offering(p, work, offered, p', work'))
    && (ok ==> Draining(p.orphans.Keys, indexed, work[1..], p'.orphans.Keys, indexed', work'))
  }

  lemma BetweenNext(rules: Rules, fastAdd: bool, hash: Hash, p0: Pool, indexed0: set<Hash>, s0: State, p: Pool,
      indexed: set<Hash>, s: State, work: seq<Hash>, done: set<Hash>, first: seq<Block>, offered: seq<Block>, ok: bool,
      p': Pool, indexed': set<Hash>, s': State, work': seq<Hash>)
    requires Between(rules, fastAdd, hash, p0, indexed0, s0, p, indexed, s, work, done, first) && work != []
    requires Indexed(p) && RoundDone(rules, fastAdd, p, indexed, s, work, offered, ok, p', indexed', s', work')
    ensures !ok ==> DrainEnds(rules, fastAdd, hash, p0, indexed0, s0, first + offered, false, p', indexed', s')
    ensures ok ==>
      && Between(rules, fastAdd, hash, p0, indexed0, s0, p', indexed', s', work', done + {work[0]}, first + offered)
      && (|p'.orphans.Keys| < |p.orphans.Keys| || (|p'.orphans.Keys| == |p.orphans.Keys| && |work'| < |work|))
  {
    DrainsMore(rules, s0, first, s, offered, fastAdd, ok, s');
    LeftMore(p0.orphans.Keys, first, p.orphans.Keys, offered, p'.orphans.Keys);
    OfferingMore(p0, [hash], first, p, work, offered, p', work');
    if ok {
      PendingStep(p0.orphans.Keys, indexed0, hash, p.orphans.Keys, indexed, work, done, p'.orphans.Keys, indexed',
        work');
    }
  }

  /** What processOrphans does: orphans are offered in their order, up to the first that does not go. */
  ghost predicate DrainEnds(rules: Rules, fastAdd: bool, hash: Hash, p: Pool, indexed: set<Hash>, s: State,
      offered: seq<Block>, ok: bool, p': Pool, indexed': set<Hash>, s': State) {
    && Left(p.orphans.Keys, p'.orphans.Keys, offered)
    && Drains(rules, s, offered, fastAdd, ok, s')
    && (if ok then Offers(p, hash, offered) else OffersFirst(p, [hash], offered))
    && (ok ==> indexed' == indexed + (p.orphans.Keys - p'.orphans.Keys))
    && (ok ==> Drained(p', {hash} + (p.orphans.Keys - p'.orphans.Keys)))
  }

  lemma BetweenEnds(rules: Rules, fastAdd: bool, hash: Hash, p0: Pool, indexed0: set<Hash>, s0: State, p: Pool,
      indexed: set<Hash>, s: State, done: set<Hash>, offered: seq<Block>)
    requires Between(rules, fastAdd, hash, p0, indexed0, s0, p, indexed, s, [], done, offered)
    requires Indexed(p) && Drained(p, done)
    ensures DrainEnds(rules, fastAdd, hash, p0, indexed0, s0, offered, true, p, indexed, s)
  {
    PendingDone(p, p0.orphans.Keys, indexed0, hash, indexed, done);
    if Indexed(p0) {
      OfferingDone(p0, [hash], offered, p);
    }
  }

  /** What ProcessBlock answers. */
  datatype Answer = Duplicate | Insane | Orphaned | Refused | Accepted(onMain: bool)

  /** No orphan in the pool could be offered to the chain. */
  ghost predicate NoneReady(p: Pool, indexed: set<Hash>) {
    forall h :: h in p.orphans ==> p.orphans[h].block.prev !in indexed
  }

  lemma DrainedIsNotReady(named: Hash -> Block, p0: Pool, indexed0: set<Hash>, p: Pool, start: Hash)
    requires Named(named, p0) && Named(named, p) && Indexed(p) && p.orphans.Keys <= p0.orphans.Keys
    requires Drained(p, {start} + (p0.orphans.Keys - p.orphans.Keys))
    ensures NoneReady(p0, indexed0) ==> NoneReady(p, indexed0 + {start} + (p0.orphans.Keys - p.orphans.Keys))
  {
    forall h | h in p.orphans && NoneReady(p0, indexed0)
      ensures p.orphans[h].block.prev !in indexed0 + {start} + (p0.orphans.Keys - p.orphans.Keys)
    {
      var q := p.orphans[h].block.prev;
      assert p.orphans[h].block == p0.orphans[h].block;
      if q in {start} + (p0.orphans.Keys - p.orphans.Keys) {
        assert NoWaiter(p, q);
        NobodyWaits(p, q);
      }
    }
  }

  /** A block that goes and the orphans drained after it. */
  lemma DrainHandles(rules: Rules, named: Hash -> Block, s: State, p: Pool, indexed: set<Hash>, b: Block, fastAdd: bool,
      s1: State, ok: bool, onMain: bool, offered: seq<Block>, s': State, p': Pool, indexed': set<Hash>)
    requires s.best in s.tree && Goes(rules, s, b, fastAdd) && s1 == Step(rules, s, Event(b, fastAdd, false))
    requires DrainEnds(rules, fastAdd, b.hash, p, indexed + {b.hash}, s1, offered, ok, p', indexed', s')
    requires onMain <==> s1.best == b.hash
    requires Named(named, p) && Named(named, p') && Indexed(p')
    ensures Handled(rules, s, p, b, fastAdd, ok, ok && onMain, offered, s', p')
    ensures ok && NoneReady(p, indexed) ==> NoneReady(p', indexed')
  {
    HandledWith(rules, s, p, b, fastAdd, s1, ok, ok && onMain, offered, s', p');
    if ok {
      DrainedIsNotReady(named, p, indexed, p', b.hash);
    }
  }

  lemma AddedIsNotReady(named: Hash -> Block, p0: Pool, p: Pool, indexed: set<Hash>, block: Block)
    requires Named(named, p0) && Named(named, p) && NoneReady(p0, indexed)
    requires block == named(block.hash) && block.prev !in indexed && p.orphans.Keys - {block.hash} <= p0.orphans.Keys
    ensures NoneReady(p, indexed)
  {
    forall h | h in p.orphans ensures p.orphans[h].block.prev !in indexed {
      assert h == block.hash || h in p0.orphans;
    }
  }

  class Processor {
    const chain: BlockChain
    ghost const named: Hash -> Block
    var pool: Pool

    ghost predicate PoolOk()
      reads this
    {
      Indexed(pool) && Sized(pool) && Named(named, pool)
    }

    /** Pool and chain are in order, and no orphan is indexed. */
    ghost predicate Valid()
      reads this, chain
    {
      && PoolOk() && chain.Valid()
      && (forall h :: h in pool.orphans ==> h !in chain.state.index && h != chain.rules.genesis.prev)
    }

    constructor (chain: BlockChain, ghost named: Hash -> Block)
      requires chain.Valid()
      ensures Valid() && pool.orphans == map[] && this.chain == chain && this.named == named
    {
      this.chain := chain;
      this.named := named;
      pool := Pool(map[], map[], None);
    }

    /** removeOrphanBlock. */
    method RemoveOrphanBlock(block: Block)
      requires Indexed(pool) && Named(named, pool) && block == named(block.hash)
      modifies this`pool
      ensures pool == Removed(old(pool), block)
      ensures Indexed(pool) && Named(named, pool)
    {
      RemovedIsNamed(named, pool, block);
      var list := if block.prev in pool.prevOrphans then pool.prevOrphans[block.prev] else [];
      list := Drop(list, block.hash);
      pool := pool.(orphans := pool.orphans - {block.hash},
                    prevOrphans := if list == [] then pool.prevOrphans - {block.prev}
                                   else pool.prevOrphans[block.prev := list]);
    }

    /** The expiry loop of addOrphanBlock. */
    method Expire(expired: Orphan -> bool)
      requires Indexed(pool) && Named(named, pool)
      modifies this`pool
      ensures Indexed(pool) && Named(named, pool) && Expiring(old(pool), pool, {}, expired)
    {
      ghost var p0 := pool;
      var left := pool.orphans.Keys;
      while left != {}
        invariant Indexed(pool) && Named(named, pool) && Expiring(p0, pool, left, expired)
        decreases left
      {
        var h :| h in left;
        var o := pool.orphans[h];
        assert Listed(pool.orphans, pool.prevOrphans, h);
        if expired(o) {
          ExpireRemoved(p0, pool, left, expired, h);
          RemoveOrphanBlock(o.block);
        } else {
          ExpireKept(p0, pool, left, expired, h);
          if pool.oldest.None? || o.expiration < pool.oldest.value.expiration {
            pool := pool.(oldest := Some(o));
          }
        }
        left := left - {h};
      }
    }

    /** The first half of addOrphanBlock: drops what has expired, and of a full pool what the reference names. */
    method MakeRoom(expired: Orphan -> bool)
      requires PoolOk()
      modifies this`pool
      ensures Indexed(pool) && Named(named, pool) && RoomMade(old(pool), pool, expired)
    {
      ghost var p0 := pool;
      Expire(expired);
      ExpiredKeys(p0, pool, expired);
      if |pool.orphans| + 1 > MAX_ORPHAN_BLOCKS {
        FullMakesRoom(p0, pool, expired);
        RemoveOrphanBlock(pool.oldest.value.block);
        pool := pool.(oldest := None);
      } else {
        SparseHasRoom(p0, pool, expired);
      }
    }

    /**
     addOrphanBlock: of the orphans that have not expired, all stay or all but one that none of them expires
     before; the pool outgrows its limit exactly when it had before or the reference to the oldest is stale.
     */
    method AddOrphanBlock(block: Block, expired: Orphan -> bool, expiration: int)
      requires PoolOk() && block == named(block.hash) && block.hash !in pool.orphans
      modifies this`pool
      ensures PoolOk() && Admitted(old(pool), pool, expired, Orphan(block, expiration))
      ensures pool.orphans.Keys - {block.hash} <= old(pool).orphans.Keys
    {
      MakeRoom(expired);
      var o := Orphan(block, expiration);
      AddKeepsOrder(named, old(pool), pool, expired, o, Added(pool, o));
      pool := Added(pool, o);
    }

    /**
     maybeAcceptBlock: the step of the block tree for this block, without an error exactly when it goes, and on the
     main chain exactly when it is the new tip.
     */
    method Offer(block: Block, fastAdd: bool) returns (onMain: bool, ok: bool)
      requires chain.Valid() && block.hash !in chain.state.index && block.hash != chain.rules.genesis.prev
      modifies chain
      ensures chain.Valid()
      ensures chain.state.Abstract() == Step(chain.rules, old(chain.state.Abstract()), Event(block, fastAdd, false))
      ensures ok <==> Goes(chain.rules, old(chain.state.Abstract()), block, fastAdd)
      ensures ok ==> (onMain <==> chain.state.Abstract().best == block.hash)
      ensures old(chain.state).index.Keys <= chain.state.index.Keys <= old(chain.state).index.Keys + {block.hash}
      ensures ok ==> chain.state.index.Keys == old(chain.state).index.Keys + {block.hash}
    {
      ghost var s := chain.state.Abstract();
      StepIndexes(chain.rules, s, Event(block, fastAdd, false));
      onMain, ok := chain.MaybeAcceptBlock(block, fastAdd, false);
      assert chain.state.index.Keys == chain.state.Abstract().tree.Keys;
      if ok {
        StepShowsTip(chain.rules, s, block, fastAdd);
      }
    }

    /** Takes an orphan out of the pool and offers it to the chain. */
    method AcceptOrphan(block: Block, fastAdd: bool) returns (ok: bool)
      requires Valid() && block.hash in pool.orphans && pool.orphans[block.hash].block == block
      modifies this`pool, chain
      ensures Valid() && pool == Removed(old(pool), block)
      ensures old(chain.state).index.Keys <= chain.state.index.Keys <= old(chain.state).index.Keys + {block.hash}
      ensures ok ==> chain.state.index.Keys == old(chain.state).index.Keys + {block.hash}
      ensures Drains(chain.rules, old(chain.state.Abstract()), [block], fastAdd, ok, chain.state.Abstract())
    {
      ghost var s := chain.state.Abstract();
      RemovedShrinks(pool, block, block.prev);
      RemoveOrphanBlock(block);
      var onMain;
      onMain, ok := Offer(block, fastAdd);
      DrainsOne(chain.rules, s, block, fastAdd, ok);
    }

    /** The inner loop of processOrphans: every orphan that waits for a block, in the order they came. */
    method AcceptChildren(work: seq<Hash>, fastAdd: bool, ghost done: set<Hash>)
        returns (ok: bool, work': seq<Hash>, ghost offered: seq<Block>)
      requires Valid() && Drained(pool, done) && work != []
      modifies this`pool, chain
      ensures Valid() && old(chain.state).index.Keys <= chain.state.index.Keys
      ensures RoundDone(chain.rules, fastAdd, old(pool), old(chain.state).index.Keys, old(chain.state.Abstract()),
        work, offered, ok, pool, chain.state.index.Keys, chain.state.Abstract(), work')
      ensures ok ==> Drained(pool, done + {work[0]})
    {
      ghost var p0, indexed0, s0 := pool, chain.state.index.Keys, chain.state.Abstract();
      var h, rest := work[0], work[1..];
      assert [h] + rest == work;
      work', offered := rest, [];
      RoundBegins(chain.rules, fastAdd, h, p0, indexed0, s0, rest);
      while h in pool.prevOrphans && |pool.prevOrphans[h]| > 0
        invariant Valid() && Drained(pool, done)
        invariant Round(chain.rules, fastAdd, h, p0, indexed0, s0, rest, pool, chain.state.index.Keys,
          chain.state.Abstract(), work', offered)
        decreases |pool.orphans|
      {
        ghost var p, indexed, s := pool, chain.state.index.Keys, chain.state.Abstract();
        HeadIsOrphan(pool, h);
        var block := pool.prevOrphans[h][0].block;
        StillDrained(pool, block, done);
        ok := AcceptOrphan(block, fastAdd);
        RoundNext(chain.rules, fastAdd, h, p0, indexed0, s0, rest, p, indexed, s, work', offered, block, ok, pool,
          chain.state.index.Keys, chain.state.Abstract());
        offered := offered + [block];
        if !ok {
          return;
        }
        work' := work' + [block.hash];
      }
      ok := true;
      RoundEnds(chain.rules, fastAdd, h, p0, indexed0, s0, rest, pool, chain.state.index.Keys, chain.state.Abstract(),
        work', offered, done);
    }

    /** processOrphans: drains the orphans of a block and of every orphan it accepts on the way. */
    method ProcessOrphans(hash: Hash, fastAdd: bool) returns (ok: bool, ghost offered: seq<Block>)
      requires Valid()
      modifies this`pool, chain
      ensures Valid() && old(chain.state).index.Keys <= chain.state.index.Keys
      ensures DrainEnds(chain.rules, fastAdd, hash, old(pool), old(chain.state).index.Keys,
        old(chain.state.Abstract()), offered, ok, pool, chain.state.index.Keys, chain.state.Abstract())
    {
      ghost var p0, indexed0, s0 := pool, chain.state.index.Keys, chain.state.Abstract();
      ghost var done: set<Hash> := {};
      var work := [hash];
      offered := [];
      BetweenBegins(chain.rules, fastAdd, hash, p0, indexed0, s0);
      while |work| > 0
        invariant Valid() && Drained(pool, done) && indexed0 <= chain.state.index.Keys
        invariant Between(chain.rules, fastAdd, hash, p0, indexed0, s0, pool, chain.state.index.Keys,
          chain.state.Abstract(), work, done, offered)
        decreases |pool.orphans.Keys|, |work|
      {
        ghost var p, indexed, s := pool, chain.state.index.Keys, chain.state.Abstract();
        var work';
        ghost var more;
        ok, work', more := AcceptChildren(work, fastAdd, done);
        BetweenNext(chain.rules, fastAdd, hash, p0, indexed0, s0, p, indexed, s, work, done, offered, more, ok, pool,
          chain.state.index.Keys, chain.state.Abstract(), work');
        offered := offered + more;
        if !ok {
          return;
        }
        done := done + {work[0]};
        work := work';
      }
      BetweenEnds(chain.rules, fastAdd, hash, p0, indexed0, s0, pool, chain.state.index.Keys, chain.state.Abstract(),
        done, offered);
      ok := true;
    }

    /** Offers a block to the chain and drains the orphans it frees. */
    method AcceptAndDrain(block: Block, fastAdd: bool) returns (r: Answer, ghost offered: seq<Block>)
      requires Valid() && block.hash !in chain.state.index && block.hash !in pool.orphans
        && block.hash != chain.rules.genesis.prev
      modifies this`pool, chain
      ensures Valid() && (r.Refused? || r.Accepted?)
      ensures Handled(chain.rules, old(chain.state.Abstract()), old(pool), block, fastAdd, r.Accepted?,
        r == Accepted(true), offered, chain.state.Abstract(), pool)
      ensures r.Accepted? && NoneReady(old(pool), old(chain.state).index.Keys) ==>
        NoneReady(pool, chain.state.index.Keys)
    {
      ghost var p0, indexed0, s0 := pool, chain.state.index.Keys, chain.state.Abstract();
      var onMain, ok := Offer(block, fastAdd);
      offered := [];
      if !ok {
        HandledAlone(chain.rules, s0, pool, block, fastAdd);
        return Refused, [];
      }
      ghost var s1 := chain.state.Abstract();
      ok, offered := ProcessOrphans(block.hash, fastAdd);
      DrainHandles(chain.rules, named, s0, p0, indexed0, block, fastAdd, s1, ok, onMain, offered,
        chain.state.Abstract(), pool, chain.state.index.Keys);
      r := if ok then Accepted(onMain) else Refused;
    }

    /** A dry run of a block with a known parent. */
    method TryBlock(block: Block, fastAdd: bool) returns (r: Answer)
      requires chain.Valid() && block.hash !in chain.state.index && block.hash != chain.rules.genesis.prev
      modifies chain
      ensures chain.Valid() && chain.state == old(chain.state) && (r.Refused? || r.Accepted?)
      ensures DryRun(chain.rules, old(chain.state.Abstract()), block, fastAdd, r.Accepted?, r == Accepted(true))
    {
      ghost var s := chain.state.Abstract();
      var onMain, ok := chain.MaybeAcceptBlock(block, fastAdd, true);
      if ok {
        StepShowsTip(chain.rules, s, block, fastAdd);
      }
      r := if ok then Accepted(onMain) else Refused;
    }

    /**
     ProcessBlock; the sanity and checkpoint checks are given by their result. A block with a known parent is
     handled with the orphans to offer after it; a dry run answers as the block alone would be.
     */
    method ProcessBlock(block: Block, sane: bool, fastAdd: bool, dryRun: bool, expired: Orphan -> bool, expiration: int)
      returns (r: Answer, ghost offered: seq<Block>)
      requires Valid() && block == named(block.hash) && block.hash != chain.rules.genesis.prev
      modifies this`pool, chain
      ensures Valid()
      ensures r.Duplicate? <==> block.hash in old(chain.state).index || block.hash in old(pool).orphans
      ensures r.Insane? <==> !sane && !r.Duplicate?
      ensures r.Orphaned? <==> sane && !r.Duplicate? && block.prev !in old(chain.state).index
      ensures r.Duplicate? || r.Insane? || dryRun ==> pool == old(pool) && chain.state == old(chain.state)
      ensures r.Orphaned? && !dryRun ==>
        && chain.state == old(chain.state) && block.hash in pool.orphans
        && Admitted(old(pool), pool, expired, Orphan(block, expiration))
      ensures (r.Refused? || r.Accepted?) && !dryRun ==>
        Handled(chain.rules, old(chain.state.Abstract()), old(pool), block, fastAdd, r.Accepted?, r == Accepted(true),
          offered, chain.state.Abstract(), pool)
      ensures (r.Refused? || r.Accepted?) && dryRun ==>
        DryRun(chain.rules, old(chain.state.Abstract()), block, fastAdd, r.Accepted?, r == Accepted(true))
      ensures r.Accepted? && !dryRun ==> block.hash in chain.state.index
      ensures !r.Refused? && NoneReady(old(pool), old(chain.state).index.Keys) ==>
        NoneReady(pool, chain.state.index.Keys)
      ensures Moves(chain.rules, old(chain.state.Abstract()), chain.state.Abstract(), fastAdd)
      ensures !fastAdd && MostWork(chain.rules, old(chain.state.Abstract())) ==>
        MostWork(chain.rules, chain.state.Abstract())
    {
      offered := [];
      NoMove(chain.rules, chain.state.Abstract(), fastAdd);
      if block.hash in chain.state.index || block.hash in pool.orphans {
        return Duplicate, [];
      }
      if !sane {
        return Insane, [];
      }
      if block.prev !in chain.state.index {
        if !dryRun {
          ghost var p0 := pool;
          AddOrphanBlock(block, expired, expiration);
          if NoneReady(p0, chain.state.index.Keys) {
            AddedIsNotReady(named, p0, pool, chain.state.index.Keys, block);
          }
        }
        return Orphaned, [];
      }
      if dryRun {
        r := TryBlock(block, fastAdd);
        return;
      }
      ghost var s0, p0 := chain.state.Abstract(), pool;
      r, offered := AcceptAndDrain(block, fastAdd);
      HandledMoves(chain.rules, s0, p0, block, fastAdd, r.Accepted?, r == Accepted(true), offered,
        chain.state.Abstract(), pool);
      HandledIndexes(chain.rules, s0, p0, block, fastAdd, r.Accepted?, r == Accepted(true), offered,
        chain.state.Abstract(), pool);
      if !fastAdd && MostWork(chain.rules, s0) {
        MovesKeepMostWork(chain.rules, s0, chain.state.Abstract());
      }
    }

    /** From an empty pool: the first orphan leaves while the reference names it, and the limit is outgrown. */
    method Outgrow()
      requires PoolOk() && pool.orphans == map[] && pool.oldest.None? && named == Numbered
      modifies this`pool
      ensures PoolOk() && |pool.orphans| == MAX_ORPHAN_BLOCKS + 1
    {
      ghost var p0 := pool;
      AddOrphanBlock(Numbered(Hash(0)), Never, 0);
      ghost var p1, first := pool, Orphan(Numbered(Hash(0)), 0);
      FirstAdded(p0, p1, first);
      AddOrphanBlock(Numbered(Hash(1)), Never, 1);
      SecondAdded(p1, pool, first, Orphan(Numbered(Hash(1)), 1));
      FirstLeft(pool, Removed(pool, Numbered(Hash(0))));
      RemoveOrphanBlock(Numbered(Hash(0)));
      for n := 1 to MAX_ORPHAN_BLOCKS
        invariant PoolOk() && IsFilled(pool, n)
      {
        ghost var p := pool;
        AddOrphanBlock(Numbered(Hash(n + 1)), Never, n + 1);
        FilledStep(p, n, pool);
      }
      FilledOutgrows(pool);
      AddOrphanBlock(Numbered(Hash(MAX_ORPHAN_BLOCKS + 1)), Never, MAX_ORPHAN_BLOCKS + 1);
    }
  }
}
