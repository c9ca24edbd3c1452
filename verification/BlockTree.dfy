/**
 The block tree and the choice of the best chain (blockchain/chain.go, blockchain/accept.go), as a state
 machine: every accepted block is a step, and the claims are about every run from the genesis block.
 */
module BlockTree {
  import opened Bytes

  datatype Block = Block(hash: Hash, prev: Hash, height: nat, work: nat, txns: nat)

  type Tree = map<Hash, Block>

  /** The genesis block, and what checkConnectBlock says of the last block of a path from it. */
  datatype Rules = Rules(genesis: Block, connects: seq<Block> -> bool)

  /** The indexed blocks and the tip of the main chain. */
  datatype State = State(tree: Tree, best: Hash)

  // ----- paths -----

  ghost predicate WellFormed(genesis: Block, tree: Tree) {
    && genesis.hash in tree && tree[genesis.hash] == genesis && genesis.height == 0
    && genesis.prev !in tree
    && forall h {:trigger Fits(genesis, tree, h)} :: h in tree ==> Fits(genesis, tree, h)
  }

  /** A block is indexed under its hash, and above its parent unless it is the genesis block. */
  ghost predicate Fits(genesis: Block, tree: Tree, h: Hash)
    requires h in tree
  {
    && tree[h].hash == h
    && (h != genesis.hash ==> tree[h].prev in tree && tree[h].height == tree[tree[h].prev].height + 1)
  }

  /** The blocks from the root to `h`. */
  function Path(tree: Tree, h: Hash): (path: seq<Block>)
    requires h in tree
    ensures |path| > 0 && path[|path| - 1] == tree[h]
    decreases tree[h].height
  {
    var b := tree[h];
    if b.prev in tree && tree[b.prev].height < b.height then Path(tree, b.prev) + [b] else [b]
  }

  function Work(path: seq<Block>): (work: nat) {
    if path == [] then 0 else Work(path[..|path| - 1]) + path[|path| - 1].work
  }

  function Txns(path: seq<Block>): (txns: nat) {
    if path == [] then 0 else Txns(path[..|path| - 1]) + path[|path| - 1].txns
  }

  lemma {:induction false} PathShape(genesis: Block, tree: Tree, h: Hash)
    requires WellFormed(genesis, tree) && h in tree
    ensures |Path(tree, h)| == tree[h].height + 1
    ensures Path(tree, h)[0] == genesis
    ensures forall i :: 0 <= i < |Path(tree, h)| ==>
      Path(tree, h)[i].height == i && Path(tree, h)[i].hash in tree && tree[Path(tree, h)[i].hash] == Path(tree, h)[i]
    decreases tree[h].height
  {
    assert Fits(genesis, tree, h);
    if h != genesis.hash {
      PathShape(genesis, tree, tree[h].prev);
    }
  }

  /** A prefix of a path is the path to its last block. */
  lemma {:induction false} PathPrefix(genesis: Block, tree: Tree, h: Hash, i: nat)
    requires WellFormed(genesis, tree) && h in tree && i < |Path(tree, h)|
    ensures Path(tree, h)[i].hash in tree && Path(tree, Path(tree, h)[i].hash) == Path(tree, h)[..i + 1]
    decreases tree[h].height
  {
    PathShape(genesis, tree, h);
    assert Fits(genesis, tree, h);
    var path := Path(tree, h);
    if i + 1 == |path| {
      assert path[..i + 1] == path;
    } else {
      var init := Path(tree, tree[h].prev);
      PathPrefix(genesis, tree, tree[h].prev, i);
      assert path[..i + 1] == init[..i + 1];
    }
  }

  /** A new leaf leaves the other paths alone. */
  lemma {:induction false} PathStable(genesis: Block, tree: Tree, b: Block, h: Hash)
    requires WellFormed(genesis, tree) && b.hash !in tree && h in tree && b.hash != genesis.prev
    ensures Path(tree[b.hash := b], h) == Path(tree, h)
    decreases tree[h].height
  {
    assert Fits(genesis, tree, h);
    if h != genesis.hash {
      PathStable(genesis, tree, b, tree[h].prev);
    }
  }

  // ----- accepting a block -----

  /** Every block of the path after genesis passed its connection check. */
  ghost predicate Checked(rules: Rules, path: seq<Block>) {
    forall i :: 0 < i < |path| ==> ConnectsAt(rules, path, i)
  }

  /** `b` is the block of the path at its height. */
  predicate On(path: seq<Block>, b: Block) {
    b.height < |path| && path[b.height] == b
  }

  /** The first `i + 1` blocks of a path pass the connection check of the last of them. */
  predicate ConnectsAt(rules: Rules, path: seq<Block>, i: nat)
    requires i < |path|
  {
    rules.connects(path[..i + 1])
  }

  /** The blocks of `path` that are not on `main` all pass the connection check. */
  ghost predicate Attachable(rules: Rules, path: seq<Block>, main: seq<Block>) {
    forall i :: 0 <= i < |path| && !On(main, path[i]) ==> ConnectsAt(rules, path, i)
  }

  /** What getPrevNodeFromBlock and checkBlockContext ask of a block. */
  predicate Linked(rules: Rules, s: State, b: Block) {
    && b.hash !in s.tree && b.hash != rules.genesis.prev
    && b.prev in s.tree && b.height == s.tree[b.prev].height + 1
  }

  function MainChain(s: State): (path: seq<Block>)
    requires s.best in s.tree
  {
    Path(s.tree, s.best)
  }

  /** The path a linked block ends. */
  function PathTo(s: State, b: Block): (path: seq<Block>)
    requires b.prev in s.tree
  {
    Path(s.tree, b.prev) + [b]
  }

  /**
   connectBestChain: a block on top of the best chain joins it when it passes its check and is dropped
   otherwise; any other block is indexed, and becomes the tip when its chain has strictly more work and the
   part of it that is not on the main chain passes the checks.
   */
  ghost function Accept(rules: Rules, s: State, b: Block, fastAdd: bool): (s': State)
    requires s.best in s.tree && b.prev in s.tree
  {
    var tree := s.tree[b.hash := b];
    var path, main := PathTo(s, b), MainChain(s);
    if b.prev == s.best then
      if fastAdd || rules.connects(path) then State(tree, b.hash) else s
    else if Work(path) > Work(main) && Attachable(rules, path, main) then State(tree, b.hash)
    else State(tree, s.best)
  }

  /** What connectBestChain answers: whether there was no error, and whether the block ended up on the main chain. */
  ghost function Verdict(rules: Rules, s: State, b: Block, fastAdd: bool): (r: (bool, bool))
    requires s.best in s.tree && b.prev in s.tree
  {
    var path, main := PathTo(s, b), MainChain(s);
    if b.prev == s.best then
      (fastAdd || rules.connects(path), fastAdd || rules.connects(path))
    else if Work(path) > Work(main) then
      (Attachable(rules, path, main), Attachable(rules, path, main))
    else
      (true, false)
  }

  /** The answer is the truth: a block is reported on the main chain exactly when it is its new tip. */
  lemma VerdictIsTip(rules: Rules, s: State, b: Block, fastAdd: bool)
    requires s.best in s.tree && Linked(rules, s, b)
    ensures Verdict(rules, s, b, fastAdd).1 <==> Accept(rules, s, b, fastAdd).best == b.hash
    ensures Verdict(rules, s, b, fastAdd).1 ==> Verdict(rules, s, b, fastAdd).0
    ensures Accept(rules, s, b, fastAdd) == s ==> !Verdict(rules, s, b, fastAdd).0
  {
    assert b.hash in s.tree[b.hash := b];
  }

  // ----- what every step keeps -----

  ghost predicate Structure(rules: Rules, s: State) {
    && WellFormed(rules.genesis, s.tree)
    && s.best in s.tree
    && forall h :: h in s.tree ==> s.tree[h].prev != s.best
  }

  /** The main chain is valid, and no valid chain in the tree has more work. */
  ghost predicate MostWork(rules: Rules, s: State)
    requires s.best in s.tree
  {
    Checked(rules, MainChain(s)) && Bounded(rules, s.tree, Work(MainChain(s)))
  }

  /** No checked path in the tree has more work than `bound`. */
  ghost predicate Bounded(rules: Rules, tree: Tree, bound: nat) {
    forall h :: h in tree && Checked(rules, Path(tree, h)) ==> Work(Path(tree, h)) <= bound
  }

  lemma WellFormedExtended(genesis: Block, tree: Tree, b: Block)
    requires WellFormed(genesis, tree) && b.hash !in tree && b.hash != genesis.prev
    requires b.prev in tree && b.height == tree[b.prev].height + 1
    ensures WellFormed(genesis, tree[b.hash := b])
  {
    var tree' := tree[b.hash := b];
    forall h | h in tree' ensures Fits(genesis, tree', h) {
      if h != b.hash {
        assert Fits(genesis, tree, h);
      }
    }
  }

  lemma ExtendedTree(rules: Rules, s: State, b: Block)
    requires Structure(rules, s) && Linked(rules, s, b)
    ensures WellFormed(rules.genesis, s.tree[b.hash := b])
    ensures Path(s.tree[b.hash := b], b.hash) == PathTo(s, b)
    ensures forall h :: h in s.tree ==> Path(s.tree[b.hash := b], h) == Path(s.tree, h)
  {
    WellFormedExtended(rules.genesis, s.tree, b);
    PathStable(rules.genesis, s.tree, b, b.prev);
    forall h | h in s.tree ensures Path(s.tree[b.hash := b], h) == Path(s.tree, h) {
      PathStable(rules.genesis, s.tree, b, h);
    }
  }

  /** A block that is not indexed yet is nobody's parent. */
  lemma NewBlockIsLeaf(rules: Rules, s: State, b: Block)
    requires Structure(rules, s) && Linked(rules, s, b)
    ensures b.prev != b.hash
    ensures forall h :: h in s.tree ==> s.tree[h].prev != b.hash
  {
    forall h | h in s.tree ensures s.tree[h].prev != b.hash {
      assert Fits(rules.genesis, s.tree, h);
    }
  }

  /** The tree stays well formed and the tip never has an indexed child, with or without connection checks. */
  lemma AcceptKeepsStructure(rules: Rules, s: State, b: Block, fastAdd: bool)
    requires Structure(rules, s) && Linked(rules, s, b)
    ensures Structure(rules, Accept(rules, s, b, fastAdd))
  {
    WellFormedExtended(rules.genesis, s.tree, b);
    NewBlockIsLeaf(rules, s, b);
    var s' := Accept(rules, s, b, fastAdd);
    if s' != s {
      assert s'.tree == s.tree[b.hash := b];
      assert s'.best == b.hash || (s'.best == s.best && b.prev != s.best);
      forall h | h in s'.tree ensures s'.tree[h].prev != s'.best {
        if h in s.tree {
          assert s'.tree[h] == s.tree[h];
        }
      }
    }
  }

  // ----- the most-work rule -----

  lemma WorkOfExtension(path: seq<Block>, b: Block)
    ensures Work(path + [b]) == Work(path) + b.work
  {
    assert (path + [b])[..|path|] == path;
  }

  /** Extending a checked chain by a block that passes its check gives a checked chain, and nothing else does. */
  lemma CheckedExtension(rules: Rules, path: seq<Block>, b: Block)
    requires path != []
    ensures Checked(rules, path + [b]) <==> Checked(rules, path) && rules.connects(path + [b])
  {
    var all := path + [b];
    assert all[..|path| + 1] == all;
    forall i | 0 < i < |path| ensures ConnectsAt(rules, all, i) == ConnectsAt(rules, path, i) {
      assert all[..i + 1] == path[..i + 1];
    }
    assert ConnectsAt(rules, all, |path|) == rules.connects(all);
  }

  /** Two paths in a tree agree up to any block they share. */
  lemma SharedPrefix(genesis: Block, tree: Tree, g: Hash, h: Hash, i: nat)
    requires WellFormed(genesis, tree) && g in tree && h in tree
    requires i < |Path(tree, g)| && On(Path(tree, h), Path(tree, g)[i])
    ensures i < |Path(tree, h)| && Path(tree, g)[..i + 1] == Path(tree, h)[..i + 1]
  {
    PathShape(genesis, tree, g);
    PathPrefix(genesis, tree, g, i);
    PathPrefix(genesis, tree, h, i);
  }

  lemma SharedIsChecked(rules: Rules, s: State, b: Block, i: nat)
    requires Structure(rules, s) && Linked(rules, s, b) && Checked(rules, MainChain(s))
    requires 0 < i < |PathTo(s, b)| && On(MainChain(s), PathTo(s, b)[i])
    ensures ConnectsAt(rules, PathTo(s, b), i)
  {
    var path, side := PathTo(s, b), Path(s.tree, b.prev);
    PathShape(rules.genesis, s.tree, s.best);
    PathShape(rules.genesis, s.tree, b.prev);
    assert i < |side|;
    assert path[..i + 1] == side[..i + 1];
    SharedPrefix(rules.genesis, s.tree, b.prev, s.best, i);
    assert ConnectsAt(rules, MainChain(s), i);
  }

  /** Off a checked main chain, only the blocks that leave it still need their checks. */
  lemma AttachableIsChecked(rules: Rules, s: State, b: Block)
    requires Structure(rules, s) && Linked(rules, s, b) && Checked(rules, MainChain(s))
    ensures Attachable(rules, PathTo(s, b), MainChain(s)) <==> Checked(rules, PathTo(s, b))
  {
    var path, main := PathTo(s, b), MainChain(s);
    PathShape(rules.genesis, s.tree, s.best);
    PathShape(rules.genesis, s.tree, b.prev);
    assert On(main, path[0]);
    forall i | 0 < i < |path| && On(main, path[i]) ensures ConnectsAt(rules, path, i) {
      SharedIsChecked(rules, s, b, i);
    }
  }

  /**
   What connectBestChain should answer. On top of the best chain a block is connected without an error exactly if it
   passes its check, or unchecked with fast-add. Any other block is an error exactly if its chain has more work and a
   block of it off the main chain fails its check; while the main chain is checked, exactly if its chain has more work
   and is not checked.
   */
  ghost predicate Answered(rules: Rules, s: State, b: Block, fastAdd: bool, ok: bool, onMain: bool)
    requires s.best in s.tree && b.prev in s.tree
  {
    var path, main := PathTo(s, b), MainChain(s);
    && (b.prev == s.best ==> onMain == ok && (ok <==> fastAdd || rules.connects(path)))
    && (b.prev != s.best ==> (ok <==> Work(path) <= Work(main) || Attachable(rules, path, main)))
    && (b.prev != s.best ==> (onMain <==> ok && Work(path) > Work(main)))
    && (Checked(rules, main) && !(fastAdd && b.prev == s.best) ==>
          && (ok <==> Checked(rules, path) || (b.prev != s.best && Work(path) <= Work(main)))
          && (onMain <==> Checked(rules, path) && (b.prev == s.best || Work(path) > Work(main))))
  }

  /** What the answer says of the new state: the block is indexed unless it failed on top of the tip. */
  ghost predicate Effect(s: State, b: Block, ok: bool, onMain: bool, s': State) {
    && s'.tree == (if ok || b.prev != s.best then s.tree[b.hash := b] else s.tree)
    && s'.best == (if onMain then b.hash else s.best)
  }

  lemma VerdictIsRight(rules: Rules, s: State, b: Block, fastAdd: bool)
    requires Structure(rules, s) && Linked(rules, s, b)
    ensures var (ok, onMain) := Verdict(rules, s, b, fastAdd);
      Answered(rules, s, b, fastAdd, ok, onMain) && Effect(s, b, ok, onMain, Accept(rules, s, b, fastAdd))
  {
    CheckedExtension(rules, Path(s.tree, b.prev), b);
    if Checked(rules, MainChain(s)) {
      AttachableIsChecked(rules, s, b);
    }
  }

  /** A bound that covers the new path covers the extended tree. */
  lemma BoundedExtended(rules: Rules, s: State, b: Block, bound: nat, bound': nat)
    requires Structure(rules, s) && Linked(rules, s, b)
    requires Bounded(rules, s.tree, bound) && bound <= bound'
    requires Checked(rules, PathTo(s, b)) ==> Work(PathTo(s, b)) <= bound'
    ensures Bounded(rules, s.tree[b.hash := b], bound')
  {
    ExtendedTree(rules, s, b);
  }

  /** A block that becomes the tip ends a checked chain with at least the work of the old one. */
  lemma NewTip(rules: Rules, s: State, b: Block)
    requires Structure(rules, s) && Linked(rules, s, b) && MostWork(rules, s)
    ensures b.prev == s.best && rules.connects(PathTo(s, b)) ==>
      Checked(rules, PathTo(s, b)) && Work(PathTo(s, b)) >= Work(MainChain(s))
    ensures b.prev != s.best && Attachable(rules, PathTo(s, b), MainChain(s)) ==> Checked(rules, PathTo(s, b))
    ensures b.prev != s.best && !Attachable(rules, PathTo(s, b), MainChain(s)) ==> !Checked(rules, PathTo(s, b))
  {
    WorkOfExtension(Path(s.tree, b.prev), b);
    CheckedExtension(rules, Path(s.tree, b.prev), b);
    AttachableIsChecked(rules, s, b);
  }

  /** The state after `b` became the tip, or was only indexed. */
  lemma ExtendedMainChain(rules: Rules, s: State, b: Block)
    requires Structure(rules, s) && Linked(rules, s, b)
    ensures MainChain(State(s.tree[b.hash := b], b.hash)) == PathTo(s, b)
    ensures MainChain(State(s.tree[b.hash := b], s.best)) == MainChain(s)
  {
    ExtendedTree(rules, s, b);
  }

  lemma TipMostWork(rules: Rules, s: State, b: Block)
    requires Structure(rules, s) && Linked(rules, s, b) && MostWork(rules, s)
    requires Checked(rules, PathTo(s, b)) && Work(PathTo(s, b)) >= Work(MainChain(s))
    ensures MostWork(rules, State(s.tree[b.hash := b], b.hash))
  {
    ExtendedMainChain(rules, s, b);
    BoundedExtended(rules, s, b, Work(MainChain(s)), Work(PathTo(s, b)));
  }

  lemma SideMostWork(rules: Rules, s: State, b: Block)
    requires Structure(rules, s) && Linked(rules, s, b) && MostWork(rules, s)
    requires Checked(rules, PathTo(s, b)) ==> Work(PathTo(s, b)) <= Work(MainChain(s))
    ensures MostWork(rules, State(s.tree[b.hash := b], s.best))
  {
    ExtendedMainChain(rules, s, b);
    BoundedExtended(rules, s, b, Work(MainChain(s)), Work(MainChain(s)));
  }

  /**
   Every step keeps the main chain valid and heaviest, and gives up a tip only for strictly more work or on top of it.
   */
  lemma AcceptKeepsMostWork(rules: Rules, s: State, b: Block)
    requires Structure(rules, s) && Linked(rules, s, b) && MostWork(rules, s)
    ensures var s' := Accept(rules, s, b, false);
      && s'.best in s'.tree && MostWork(rules, s')
      && Work(MainChain(s')) >= Work(MainChain(s))
      && (s'.best != s.best ==> s'.best == b.hash && (b.prev == s.best || Work(MainChain(s')) > Work(MainChain(s))))
  {
    var tree := s.tree[b.hash := b];
    var s' := Accept(rules, s, b, false);
    NewTip(rules, s, b);
    ExtendedMainChain(rules, s, b);
    if s' == State(tree, b.hash) {
      TipMostWork(rules, s, b);
    } else if s' == State(tree, s.best) {
      SideMostWork(rules, s, b);
    } else {
      assert s' == s;
    }
  }

  // ----- runs -----

  /** A block handed to maybeAcceptBlock, with the flags that change what happens to it. */
  datatype Event = Event(block: Block, fastAdd: bool, dryRun: bool)

  /** A block that does not fit the tree is refused, and a dry run changes nothing. */
  ghost function Step(rules: Rules, s: State, e: Event): (s': State)
    requires s.best in s.tree
  {
    if Linked(rules, s, e.block) && !e.dryRun then Accept(rules, s, e.block, e.fastAdd) else s
  }

  /** A step indexes at most its block, and indexes it if it reports no error. */
  lemma StepIndexes(rules: Rules, s: State, e: Event)
    requires s.best in s.tree
    ensures s.tree.Keys <= Step(rules, s, e).tree.Keys <= s.tree.Keys + {e.block.hash}
    ensures Linked(rules, s, e.block) && !e.dryRun && Verdict(rules, s, e.block, e.fastAdd).0 ==>
      Step(rules, s, e).tree.Keys == s.tree.Keys + {e.block.hash}
  {
  }

  function Initial(rules: Rules): (s: State) {
    State(map[rules.genesis.hash := rules.genesis], rules.genesis.hash)
  }

  ghost predicate IsGenesis(genesis: Block) {
    genesis.height == 0 && genesis.prev != genesis.hash
  }

  /** The state after a sequence of events. */
  ghost function Run(rules: Rules, start: State, events: seq<Event>): (s: State)
    requires Structure(rules, start)
    ensures Structure(rules, s)
  {
    if events == [] then
      start
    else
      var s, e := Run(rules, start, events[..|events| - 1]), events[|events| - 1];
      StepKeepsStructure(rules, s, e);
      Step(rules, s, e)
  }

  lemma StepKeepsStructure(rules: Rules, s: State, e: Event)
    requires Structure(rules, s)
    ensures Structure(rules, Step(rules, s, e))
  {
    if Linked(rules, s, e.block) {
      AcceptKeepsStructure(rules, s, e.block, e.fastAdd);
    }
  }

  lemma InitialMostWork(rules: Rules)
    requires IsGenesis(rules.genesis)
    ensures Structure(rules, Initial(rules)) && MostWork(rules, Initial(rules))
  {
    assert Path(Initial(rules).tree, rules.genesis.hash) == [rules.genesis];
  }

  ghost predicate AlwaysChecked(events: seq<Event>) {
    forall i :: 0 <= i < |events| ==> !events[i].fastAdd
  }

  lemma {:induction false} RunKeepsMostWork(rules: Rules, start: State, events: seq<Event>)
    requires Structure(rules, start) && MostWork(rules, start) && AlwaysChecked(events)
    ensures MostWork(rules, Run(rules, start, events))
  {
    if events != [] {
      var init, e := events[..|events| - 1], events[|events| - 1];
      RunKeepsMostWork(rules, start, init);
      if Linked(rules, Run(rules, start, init), e.block) {
        AcceptKeepsMostWork(rules, Run(rules, start, init), e.block);
      }
    }
  }

  /** In every run without fast-add the main chain is valid and no valid indexed chain has more work. */
  lemma RunMostWork(rules: Rules, events: seq<Event>)
    requires IsGenesis(rules.genesis) && AlwaysChecked(events)
    ensures Structure(rules, Initial(rules)) && MostWork(rules, Run(rules, Initial(rules), events))
  {
    InitialMostWork(rules);
    RunKeepsMostWork(rules, Initial(rules), events);
  }

  lemma LastStep(rules: Rules, start: State, events: seq<Event>)
    requires Structure(rules, start) && MostWork(rules, start) && AlwaysChecked(events) && events != []
    ensures var s, s' := Run(rules, start, events[..|events| - 1]), Run(rules, start, events);
      && Work(MainChain(s')) >= Work(MainChain(s))
      && (s'.best != s.best ==> s'.tree[s'.best].prev == s.best || Work(MainChain(s')) > Work(MainChain(s)))
  {
    var init, e := events[..|events| - 1], events[|events| - 1];
    RunKeepsMostWork(rules, start, init);
    if Linked(rules, Run(rules, start, init), e.block) {
      AcceptKeepsMostWork(rules, Run(rules, start, init), e.block);
    }
  }

  /** The work of the tip never decreases over a run without fast-add. */
  lemma {:induction false} WorkNeverDecreases(rules: Rules, start: State, events: seq<Event>, k: nat)
    requires Structure(rules, start) && MostWork(rules, start) && AlwaysChecked(events) && k <= |events|
    ensures Work(MainChain(Run(rules, start, events[..k]))) <= Work(MainChain(Run(rules, start, events)))
    decreases |events|
  {
    if k == |events| {
      assert events[..k] == events;
    } else {
      var init := events[..|events| - 1];
      assert events[..k] == init[..k];
      WorkNeverDecreases(rules, start, init, k);
      LastStep(rules, start, events);
    }
  }

  // ----- moving by steps -----

  /** From a well-formed state another is reached by steps, without fast-add unless it is allowed. */
  ghost predicate Moves(rules: Rules, s: State, s': State, fastAdd: bool) {
    Structure(rules, s) ==>
      exists events {:trigger Run(rules, s, events)} ::
        (!fastAdd ==> AlwaysChecked(events)) && Run(rules, s, events) == s'
  }

  lemma NoMove(rules: Rules, s: State, fastAdd: bool)
    ensures Moves(rules, s, s, fastAdd)
  {
    if Structure(rules, s) {
      assert Run(rules, s, []) == s;
    }
  }

  lemma StepMoves(rules: Rules, s: State, e: Event)
    requires Structure(rules, s)
    ensures Moves(rules, s, Step(rules, s, e), e.fastAdd)
  {
    assert [e][..0] == [];
    assert Run(rules, s, [e]) == Step(rules, s, e);
  }

  lemma {:induction false} RunInTwo(rules: Rules, s: State, first: seq<Event>, last: seq<Event>)
    requires Structure(rules, s)
    ensures Run(rules, s, first + last) == Run(rules, Run(rules, s, first), last)
  {
    if last == [] {
      assert first + last == first;
    } else {
      var init := last[..|last| - 1];
      RunInTwo(rules, s, first, init);
      assert (first + last)[..|first + last| - 1] == first + init;
    }
  }

  lemma MovesTwice(rules: Rules, s: State, s': State, s'': State, fastAdd: bool)
    requires Moves(rules, s, s', fastAdd) && Moves(rules, s', s'', fastAdd)
    ensures Moves(rules, s, s'', fastAdd)
  {
    if Structure(rules, s) {
      var first :| (!fastAdd ==> AlwaysChecked(first)) && Run(rules, s, first) == s';
      var rest :| (!fastAdd ==> AlwaysChecked(rest)) && Run(rules, s', rest) == s'';
      RunInTwo(rules, s, first, rest);
    }
  }

  /** A main chain that was valid and heaviest still is, with no less work. */
  lemma MovesKeepMostWork(rules: Rules, s: State, s': State)
    requires Moves(rules, s, s', false) && Structure(rules, s) && MostWork(rules, s)
    ensures Structure(rules, s') && MostWork(rules, s') && Work(MainChain(s')) >= Work(MainChain(s))
  {
    var events :| AlwaysChecked(events) && Run(rules, s, events) == s';
    RunKeepsMostWork(rules, s, events);
    WorkNeverDecreases(rules, s, events, 0);
    assert events[..0] == [];
  }
}
