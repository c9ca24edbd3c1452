/**
 Offering orphans to the chain (blockchain/process.go): which orphans are offered after a block, in which order, what
 they do to the block tree, and when that stops with an error.
 */
module OrphanDrain {
  import opened Bytes
  import opened BlockTree
  import opened OrphanPool

  // ----- what is offered -----

  /**
   The orphans offered for a worklist, if none fails: those waiting for its first hash in the order they came, each
   putting its own hash at the end of the list, and so on.
   */
  ghost function Order(p: Pool, work: seq<Hash>): (blocks: seq<Block>)
    requires Indexed(p)
    decreases |p.orphans|, |work|
  {
    if work == [] then
      []
    else if ListOf(p.prevOrphans, work[0]) == [] then
      Order(p, work[1..])
    else
      var b := ListOf(p.prevOrphans, work[0])[0].block;
      HeadLeaves(p, work[0]);
      [b] + Order(Removed(p, b), work + [b.hash])
  }

  lemma HeadLeaves(p: Pool, q: Hash)
    requires Indexed(p) && ListOf(p.prevOrphans, q) != []
    ensures var b := ListOf(p.prevOrphans, q)[0].block;
      Indexed(Removed(p, b)) && |Removed(p, b).orphans| < |p.orphans|
  {
    HeadIsOrphan(p, q);
    var b := ListOf(p.prevOrphans, q)[0].block;
    RemovedIsIndexed(p, b);
    RemovedShrinks(p, b, q);
    assert Removed(p, b).orphans.Keys == p.orphans.Keys - {b.hash};
    assert |Removed(p, b).orphans| == |p.orphans.Keys - {b.hash}| && |p.orphans| == |p.orphans.Keys|;
  }

  /** Taking the next orphan. */
  lemma OrderTakes(p: Pool, h: Hash, work: seq<Hash>)
    requires Indexed(p) && ListOf(p.prevOrphans, h) != []
    ensures var b := ListOf(p.prevOrphans, h)[0].block;
      && Indexed(Removed(p, b))
      && Order(p, [h] + work) == [b] + Order(Removed(p, b), [h] + (work + [b.hash]))
  {
    HeadLeaves(p, h);
    var b := ListOf(p.prevOrphans, h)[0].block;
    assert [h] + work + [b.hash] == [h] + (work + [b.hash]);
  }

  lemma OrderSkips(p: Pool, h: Hash, work: seq<Hash>)
    requires Indexed(p) && ListOf(p.prevOrphans, h) == []
    ensures Order(p, [h] + work) == Order(p, work)
  {
    assert ([h] + work)[1..] == work;
  }

  /** Of the blocks to offer for one worklist these have been, and those for another remain. */
  ghost predicate Offering(p0: Pool, work0: seq<Hash>, offered: seq<Block>, p: Pool, work: seq<Hash>) {
    Indexed(p0) && Indexed(p) ==> Order(p0, work0) == offered + Order(p, work)
  }

  /** These are the first to offer. */
  ghost predicate OffersFirst(p0: Pool, work0: seq<Hash>, offered: seq<Block>) {
    Indexed(p0) ==> offered <= Order(p0, work0)
  }

  lemma OfferingNone(p: Pool, work: seq<Hash>)
    ensures Offering(p, work, [], p, work)
  {
  }

  lemma OfferingNext(p0: Pool, work0: seq<Hash>, offered: seq<Block>, p: Pool, h: Hash, work: seq<Hash>)
    requires Indexed(p) && ListOf(p.prevOrphans, h) != [] && Offering(p0, work0, offered, p, [h] + work)
    ensures var b := ListOf(p.prevOrphans, h)[0].block;
      && Offering(p0, work0, offered + [b], Removed(p, b), [h] + (work + [b.hash]))
      && OffersFirst(p0, work0, offered + [b])
  {
    if Indexed(p0) {
      OrderTakes(p, h, work);
      var b := ListOf(p.prevOrphans, h)[0].block;
      Associative(offered, [b], Order(Removed(p, b), [h] + (work + [b.hash])));
    }
  }

  lemma OfferingSkips(p0: Pool, work0: seq<Hash>, offered: seq<Block>, p: Pool, h: Hash, work: seq<Hash>)
    requires Offering(p0, work0, offered, p, [h] + work) && ListOf(p.prevOrphans, h) == []
    ensures Offering(p0, work0, offered, p, work)
  {
    if Indexed(p) {
      OrderSkips(p, h, work);
    }
  }

  lemma OfferingMore(p0: Pool, work0: seq<Hash>, first: seq<Block>, p: Pool, work: seq<Hash>, offered: seq<Block>,
      p': Pool, work': seq<Hash>)
    requires Indexed(p) && Offering(p0, work0, first, p, work)
    ensures OffersFirst(p, work, offered) ==> OffersFirst(p0, work0, first + offered)
    ensures Offering(p, work, offered, p', work') ==> Offering(p0, work0, first + offered, p', work')
  {
    if Indexed(p0) && OffersFirst(p, work, offered) {
      var rest := Order(p, work)[|offered|..];
      Associative(first, offered, rest);
    }
    if Indexed(p0) && Indexed(p') && Offering(p, work, offered, p', work') {
      Associative(first, offered, Order(p', work'));
    }
  }

  /** No more work: all have been offered. */
  lemma OfferingDone(p0: Pool, work0: seq<Hash>, offered: seq<Block>, p: Pool)
    requires Indexed(p0) && Indexed(p) && Offering(p0, work0, offered, p, [])
    ensures offered == Order(p0, work0)
  {
  }

  // ----- who left the pool -----

  ghost function Hashes(blocks: seq<Block>): (hashes: set<Hash>) {
    set b | b in blocks :: b.hash
  }

  /** The orphans that left are those offered, once each. */
  ghost predicate Left(orphans0: set<Hash>, orphans: set<Hash>, offered: seq<Block>) {
    && orphans <= orphans0 && Hashes(offered) == orphans0 - orphans
    && |orphans| + |offered| == |orphans0|
  }

  lemma HashesOfBoth(a: seq<Block>, b: seq<Block>)
    ensures Hashes(a + b) == Hashes(a) + Hashes(b)
  {
    forall h | h in Hashes(a) + Hashes(b) ensures h in Hashes(a + b) {
      if h in Hashes(a) {
        var x :| x in a && x.hash == h;
        assert x in a + b;
      } else {
        var x :| x in b && x.hash == h;
        assert x in a + b;
      }
    }
  }

  lemma LeftMore(orphans0: set<Hash>, first: seq<Block>, orphans: set<Hash>, offered: seq<Block>, orphans': set<Hash>)
    requires Left(orphans0, orphans, first) && Left(orphans, orphans', offered)
    ensures Left(orphans0, orphans', first + offered)
  {
    HashesOfBoth(first, offered);
    assert orphans0 - orphans' == (orphans0 - orphans) + (orphans - orphans');
  }

  lemma LeftNone(orphans: set<Hash>)
    ensures Left(orphans, orphans, [])
  {
    assert Hashes([]) == {};
  }

  lemma LeftOne(orphans: set<Hash>, b: Block)
    requires b.hash in orphans
    ensures Left(orphans, orphans - {b.hash}, [b])
  {
    assert b in [b];
    assert Hashes([b]) == {b.hash} == orphans - (orphans - {b.hash});
  }

  // ----- what the chain does -----

  /** The block fits the tree, and its step reports no error. */
  ghost predicate Goes(rules: Rules, s: State, b: Block, fastAdd: bool) {
    s.best in s.tree && Linked(rules, s, b) && Verdict(rules, s, b, fastAdd).0
  }

  function Events(blocks: seq<Block>, fastAdd: bool): (events: seq<Event>)
    ensures |events| == |blocks|
    ensures forall i {:trigger events[i]} :: 0 <= i < |blocks| ==> events[i] == Event(blocks[i], fastAdd, false)
  {
    seq(|blocks|, i requires 0 <= i < |blocks| => Event(blocks[i], fastAdd, false))
  }

  lemma EventsOfBoth(a: seq<Block>, b: seq<Block>, fastAdd: bool)
    ensures Events(a + b, fastAdd) == Events(a, fastAdd) + Events(b, fastAdd)
  {
  }

  /** The state after offering blocks one after the other. */
  ghost function After(rules: Rules, s: State, blocks: seq<Block>, fastAdd: bool): (s': State)
    requires Structure(rules, s)
    ensures Structure(rules, s')
  {
    Run(rules, s, Events(blocks, fastAdd))
  }

  lemma AfterBoth(rules: Rules, s: State, a: seq<Block>, b: seq<Block>, fastAdd: bool)
    requires Structure(rules, s)
    ensures After(rules, s, a + b, fastAdd) == After(rules, After(rules, s, a, fastAdd), b, fastAdd)
  {
    EventsOfBoth(a, b, fastAdd);
    RunInTwo(rules, s, Events(a, fastAdd), Events(b, fastAdd));
  }

  lemma AfterOne(rules: Rules, s: State, b: Block, fastAdd: bool)
    requires Structure(rules, s)
    ensures After(rules, s, [b], fastAdd) == Step(rules, s, Event(b, fastAdd, false))
    ensures After(rules, s, [], fastAdd) == s
  {
    var e := Event(b, fastAdd, false);
    assert Events([b], fastAdd) == [e] && [e][..0] == [];
    assert Run(rules, s, [e]) == Step(rules, s, e);
    assert Events([], fastAdd) == [];
  }

  /** Offered block `i` goes, after those before it. */
  ghost predicate GoesAt(rules: Rules, s: State, offered: seq<Block>, fastAdd: bool, i: nat)
    requires Structure(rules, s) && i < |offered|
  {
    Goes(rules, After(rules, s, offered[..i], fastAdd), offered[i], fastAdd)
  }

  /** Every one of them goes. */
  ghost predicate AllGo(rules: Rules, s: State, offered: seq<Block>, fastAdd: bool)
    requires Structure(rules, s)
  {
    forall i {:trigger GoesAt(rules, s, offered, fastAdd, i)} :: 0 <= i < |offered| ==>
      GoesAt(rules, s, offered, fastAdd, i)
  }

  /** All go and there is no error, or the last one is the first that does not go. */
  ghost predicate Ended(rules: Rules, s: State, offered: seq<Block>, fastAdd: bool, ok: bool)
    requires Structure(rules, s)
  {
    if ok then AllGo(rules, s, offered, fastAdd)
    else
      && offered != [] && AllGo(rules, s, offered[..|offered| - 1], fastAdd)
      && !GoesAt(rules, s, offered, fastAdd, |offered| - 1)
  }

  /** Offering these blocks leads from one state to another, with or without an error. */
  ghost predicate Drains(rules: Rules, s: State, offered: seq<Block>, fastAdd: bool, ok: bool, s': State) {
    Structure(rules, s) ==> s' == After(rules, s, offered, fastAdd) && Ended(rules, s, offered, fastAdd, ok)
  }

  lemma DrainsNone(rules: Rules, s: State, fastAdd: bool)
    ensures Drains(rules, s, [], fastAdd, true, s)
  {
    if Structure(rules, s) {
      AfterOne(rules, s, rules.genesis, fastAdd);
    }
  }

  lemma DrainsOne(rules: Rules, s: State, b: Block, fastAdd: bool, ok: bool)
    requires Structure(rules, s) && (ok <==> Goes(rules, s, b, fastAdd))
    ensures Drains(rules, s, [b], fastAdd, ok, Step(rules, s, Event(b, fastAdd, false)))
  {
    AfterOne(rules, s, b, fastAdd);
    assert [b][..0] == [];
    assert GoesAt(rules, s, [b], fastAdd, 0) == ok;
  }

  lemma GoesAtBoth(rules: Rules, s: State, a: seq<Block>, b: seq<Block>, fastAdd: bool, i: nat)
    requires Structure(rules, s) && i < |a + b|
    ensures GoesAt(rules, s, a + b, fastAdd, i) ==
      if i < |a| then GoesAt(rules, s, a, fastAdd, i)
      else GoesAt(rules, After(rules, s, a, fastAdd), b, fastAdd, i - |a|)
  {
    if i < |a| {
      assert (a + b)[..i] == a[..i];
    } else {
      assert (a + b)[..i] == a + b[..i - |a|];
      AfterBoth(rules, s, a, b[..i - |a|], fastAdd);
    }
  }

  lemma AllGoBoth(rules: Rules, s: State, a: seq<Block>, b: seq<Block>, fastAdd: bool)
    requires Structure(rules, s) && AllGo(rules, s, a, fastAdd) && AllGo(rules, After(rules, s, a, fastAdd), b, fastAdd)
    ensures AllGo(rules, s, a + b, fastAdd)
  {
    forall i | 0 <= i < |a + b| ensures GoesAt(rules, s, a + b, fastAdd, i) {
      GoesAtBoth(rules, s, a, b, fastAdd, i);
      assert i < |a| ==> GoesAt(rules, s, a, fastAdd, i);
      assert i >= |a| ==> GoesAt(rules, After(rules, s, a, fastAdd), b, fastAdd, i - |a|);
    }
  }

  lemma EndedBoth(rules: Rules, s: State, a: seq<Block>, b: seq<Block>, fastAdd: bool, ok: bool)
    requires Structure(rules, s) && AllGo(rules, s, a, fastAdd)
    requires Ended(rules, After(rules, s, a, fastAdd), b, fastAdd, ok)
    ensures Ended(rules, s, a + b, fastAdd, ok)
  {
    if ok {
      AllGoBoth(rules, s, a, b, fastAdd);
    } else {
      var init := b[..|b| - 1];
      AllGoBoth(rules, s, a, init, fastAdd);
      assert (a + b)[..|a + b| - 1] == a + init;
      GoesAtBoth(rules, s, a, b, fastAdd, |a + b| - 1);
    }
  }

  lemma DrainsMore(rules: Rules, s: State, first: seq<Block>, s': State, offered: seq<Block>, fastAdd: bool, ok: bool,
      s'': State)
    requires Drains(rules, s, first, fastAdd, true, s') && Drains(rules, s', offered, fastAdd, ok, s'')
    ensures Drains(rules, s, first + offered, fastAdd, ok, s'')
  {
    if Structure(rules, s) {
      AfterBoth(rules, s, first, offered, fastAdd);
      EndedBoth(rules, s, first, offered, fastAdd, ok);
    }
  }

  /** It is a move by steps. */
  lemma DrainsMove(rules: Rules, s: State, offered: seq<Block>, fastAdd: bool, ok: bool, s': State)
    requires Drains(rules, s, offered, fastAdd, ok, s')
    ensures Moves(rules, s, s', fastAdd)
  {
    if Structure(rules, s) {
      assert Run(rules, s, Events(offered, fastAdd)) == s';
    }
  }

  // ----- a block with its orphans -----

  /**
   How a block with a known parent is handled: refused if it does not go, with its own step made; and otherwise
   followed by the orphans to offer, accepted if they all go, on the main chain if its own step made it the tip.
   */
  ghost predicate Handled(rules: Rules, s: State, p: Pool, b: Block, fastAdd: bool, accepted: bool, onMain: bool,
      offered: seq<Block>, s': State, p': Pool)
    requires s.best in s.tree
  {
    var s1 := Step(rules, s, Event(b, fastAdd, false));
    if Goes(rules, s, b, fastAdd) then
      && Drains(rules, s1, offered, fastAdd, accepted, s')
      && Left(p.orphans.Keys, p'.orphans.Keys, offered)
      && (if accepted then Offers(p, b.hash, offered) else OffersFirst(p, [b.hash], offered))
      && (accepted ==> (onMain <==> s1.best == b.hash))
    else
      !accepted && offered == [] && s' == s1 && p' == p
  }

  /** All orphans to offer after a block have been. */
  ghost predicate Offers(p: Pool, hash: Hash, offered: seq<Block>) {
    Indexed(p) ==> offered == Order(p, [hash])
  }

  lemma HandledAlone(rules: Rules, s: State, p: Pool, b: Block, fastAdd: bool)
    requires s.best in s.tree && !Goes(rules, s, b, fastAdd)
    ensures Handled(rules, s, p, b, fastAdd, false, false, [], Step(rules, s, Event(b, fastAdd, false)), p)
  {
  }

  lemma HandledWith(rules: Rules, s: State, p: Pool, b: Block, fastAdd: bool, s1: State, accepted: bool, onMain: bool,
      offered: seq<Block>, s': State, p': Pool)
    requires s.best in s.tree && Goes(rules, s, b, fastAdd) && s1 == Step(rules, s, Event(b, fastAdd, false))
    requires Drains(rules, s1, offered, fastAdd, accepted, s') && Left(p.orphans.Keys, p'.orphans.Keys, offered)
    requires if accepted then Offers(p, b.hash, offered) else OffersFirst(p, [b.hash], offered)
    requires accepted ==> (onMain <==> s1.best == b.hash)
    ensures Handled(rules, s, p, b, fastAdd, accepted, onMain, offered, s', p')
  {
  }

  /** What a dry run answers: whether the block alone would be accepted, and become the tip. */
  ghost predicate DryRun(rules: Rules, s: State, b: Block, fastAdd: bool, accepted: bool, onMain: bool)
    requires s.best in s.tree
  {
    && (accepted <==> Goes(rules, s, b, fastAdd))
    && (accepted ==> (onMain <==> Step(rules, s, Event(b, fastAdd, false)).best == b.hash))
  }

  lemma StepShowsTip(rules: Rules, s: State, b: Block, fastAdd: bool)
    requires Structure(rules, s) && Goes(rules, s, b, fastAdd)
    ensures Verdict(rules, s, b, fastAdd).1 <==> Step(rules, s, Event(b, fastAdd, false)).best == b.hash
  {
    VerdictIsRight(rules, s, b, fastAdd);
  }

  lemma {:induction false} RunGrows(rules: Rules, s: State, events: seq<Event>)
    requires Structure(rules, s)
    ensures s.tree.Keys <= Run(rules, s, events).tree.Keys
  {
    if events != [] {
      RunGrows(rules, s, events[..|events| - 1]);
      StepIndexes(rules, Run(rules, s, events[..|events| - 1]), events[|events| - 1]);
    }
  }

  /** The handling is a move by steps. */
  lemma HandledMoves(rules: Rules, s: State, p: Pool, b: Block, fastAdd: bool, accepted: bool, onMain: bool,
      offered: seq<Block>, s': State, p': Pool)
    requires Structure(rules, s) && Handled(rules, s, p, b, fastAdd, accepted, onMain, offered, s', p')
    ensures Moves(rules, s, s', fastAdd)
  {
    var e := Event(b, fastAdd, false);
    StepMoves(rules, s, e);
    if Goes(rules, s, b, fastAdd) {
      DrainsMove(rules, Step(rules, s, e), offered, fastAdd, accepted, s');
      MovesTwice(rules, s, Step(rules, s, e), s', fastAdd);
    }
  }

  /**
   A block that goes is indexed whatever becomes of the orphans, and one that fits on the tip and passes its check
   goes.
   */
  lemma HandledIndexes(rules: Rules, s: State, p: Pool, b: Block, fastAdd: bool, accepted: bool, onMain: bool,
      offered: seq<Block>, s': State, p': Pool)
    requires Structure(rules, s) && Handled(rules, s, p, b, fastAdd, accepted, onMain, offered, s', p')
    ensures Linked(rules, s, b) && b.prev == s.best && rules.connects(PathTo(s, b)) ==> Goes(rules, s, b, fastAdd)
    ensures Goes(rules, s, b, fastAdd) ==> b.hash in s'.tree
  {
    var e := Event(b, fastAdd, false);
    StepIndexes(rules, s, e);
    StepKeepsStructure(rules, s, e);
    RunGrows(rules, Step(rules, s, e), Events(offered, fastAdd));
  }
}
