/**
 The in-memory chain and the block index buckets (blockchain/chain.go, blockchain/accept.go,
 blockchain/chainio.go): indexed nodes with a work sum and a main-chain flag each, updated by connecting and
 disconnecting blocks and by the two-phase reorganization, proved to make exactly the steps of BlockTree.
 */
module Chain {
  import opened Bytes
  import opened BlockTree

  /** blockNode; its parent is the node indexed under the previous block's hash. */
  datatype Node = Node(block: Block, workSum: nat, inMainChain: bool)

  type Index = map<Hash, Node>

  /** The blocks of the indexed nodes. */
  function TreeOf(index: Index): (tree: Tree)
    ensures tree.Keys == index.Keys
    ensures forall h {:trigger tree[h]} :: h in index ==> tree[h] == index[h].block
  {
    map h | h in index :: index[h].block
  }

  /** The path to an indexed node. */
  function PathOf(index: Index, h: Hash): (path: seq<Block>)
    requires h in index
  {
    Path(TreeOf(index), h)
  }

  /** Work sums add up along the parents. */
  ghost predicate WorkSums(genesis: Block, index: Index)
    requires WellFormed(genesis, TreeOf(index))
  {
    && index[genesis.hash].workSum == genesis.work
    && forall h {:trigger SumsUpAt(index, h)} :: h in index && h != genesis.hash ==> SumsUpAt(index, h)
  }

  ghost predicate SumsUpAt(index: Index, h: Hash)
    requires h in index
  {
    SumsUp(index, index[h])
  }

  ghost predicate SumsUp(index: Index, n: Node) {
    n.block.prev in index && n.workSum == index[n.block.prev].workSum + n.block.work
  }

  /** A node's work sum is the work of its whole path. */
  lemma {:induction false} WorkSumIsWork(genesis: Block, index: Index, h: Hash)
    requires WellFormed(genesis, TreeOf(index)) && WorkSums(genesis, index) && h in index
    ensures index[h].workSum == Work(PathOf(index, h))
    decreases index[h].block.height
  {
    var tree, b := TreeOf(index), index[h].block;
    assert Fits(genesis, tree, h);
    if h != genesis.hash {
      assert SumsUpAt(index, h);
      WorkSumIsWork(genesis, index, b.prev);
      WorkOfExtension(Path(tree, b.prev), b);
    } else {
      assert Path(tree, h) == [] + [b];
      WorkOfExtension([], b);
    }
  }

  /** The flags mark exactly the nodes of the given path. */
  ghost predicate Flagged(index: Index, path: seq<Block>) {
    forall h {:trigger FlagAt(index, path, h)} :: h in index ==> FlagAt(index, path, h)
  }

  ghost predicate FlagAt(index: Index, path: seq<Block>, h: Hash)
    requires h in index
  {
    index[h].inMainChain <==> On(path, index[h].block)
  }

  // ----- the block index buckets -----

  /** The hash-to-height bucket of a chain. */
  function HeightsOf(main: seq<Block>): (heights: map<Hash, nat>) {
    if main == [] then map[] else HeightsOf(main[..|main| - 1])[main[|main| - 1].hash := |main| - 1]
  }

  /** The height-to-hash bucket of a chain. */
  function HashesOf(main: seq<Block>): (hashes: map<nat, Hash>) {
    if main == [] then map[] else HashesOf(main[..|main| - 1])[|main| - 1 := main[|main| - 1].hash]
  }

  ghost predicate HashesDiffer(main: seq<Block>) {
    forall i, j :: 0 <= i < j < |main| ==> main[i].hash != main[j].hash
  }

  lemma {:induction false} HashesOfChain(main: seq<Block>)
    ensures forall k :: k in HashesOf(main) <==> 0 <= k < |main|
    ensures forall k :: 0 <= k < |main| ==> HashesOf(main)[k] == main[k].hash
  {
    if main != [] {
      HashesOfChain(main[..|main| - 1]);
    }
  }

  lemma {:induction false} HeightsOfChain(main: seq<Block>)
    requires HashesDiffer(main)
    ensures forall k :: 0 <= k < |main| ==> main[k].hash in HeightsOf(main) && HeightsOf(main)[main[k].hash] == k
    ensures forall h :: h in HeightsOf(main) ==> HeightsOf(main)[h] < |main| && main[HeightsOf(main)[h]].hash == h
  {
    if main != [] {
      HeightsOfChain(main[..|main| - 1]);
    }
  }

  /** Over the buckets of a chain, the two lookups are mutually inverse. */
  lemma BucketsAreInverse(main: seq<Block>)
    requires HashesDiffer(main)
    ensures forall k :: k in HashesOf(main) ==>
      HashesOf(main)[k] in HeightsOf(main) && HeightsOf(main)[HashesOf(main)[k]] == k
    ensures forall h :: h in HeightsOf(main) ==>
      HeightsOf(main)[h] in HashesOf(main) && HashesOf(main)[HeightsOf(main)[h]] == h
    ensures forall k :: k in HashesOf(main) <==> 0 <= k < |main|
  {
    HashesOfChain(main);
    HeightsOfChain(main);
  }

  /** dbPutBlockIndex at the end of the chain. */
  lemma PutBuckets(main: seq<Block>, b: Block)
    ensures HeightsOf(main + [b]) == HeightsOf(main)[b.hash := |main|]
    ensures HashesOf(main + [b]) == HashesOf(main)[|main| := b.hash]
  {
    assert (main + [b])[..|main|] == main;
  }

  lemma NotInBuckets(main: seq<Block>, b: Block)
    requires HashesDiffer(main) && forall k :: 0 <= k < |main| ==> main[k].hash != b.hash
    ensures b.hash !in HeightsOf(main) && |main| !in HashesOf(main)
  {
    HashesOfChain(main);
    HeightsOfChain(main);
  }

  /** dbRemoveBlockIndex at the end of the chain. */
  lemma RemoveBuckets(main: seq<Block>, b: Block)
    requires HashesDiffer(main) && forall k :: 0 <= k < |main| ==> main[k].hash != b.hash
    ensures HeightsOf(main + [b]) - {b.hash} == HeightsOf(main)
    ensures HashesOf(main + [b]) - {|main|} == HashesOf(main)
  {
    NotInBuckets(main, b);
    PutBuckets(main, b);
  }

  lemma TxnsOfExtension(path: seq<Block>, b: Block)
    ensures Txns(path + [b]) == Txns(path) + b.txns
  {
    assert (path + [b])[..|path|] == path;
  }

  // ----- consistency -----

  /** The tree is well formed and its work sums add up. */
  ghost predicate GoodIndex(genesis: Block, index: Index) {
    WellFormed(genesis, TreeOf(index)) && WorkSums(genesis, index)
  }

  /** Flags, buckets and transaction count describe the path to the tip. */
  ghost predicate Describes(index: Index, heights: map<Hash, nat>, hashes: map<nat, Hash>, totalTxns: nat,
      path: seq<Block>) {
    && Flagged(index, path)
    && heights == HeightsOf(path) && hashes == HashesOf(path)
    && totalTxns == Txns(path)
  }

  /** A node that may be connected: it is linked into the tree, whether it is indexed already or new. */
  ghost predicate Connectable(genesis: Block, index: Index, node: Node) {
    && node.block.hash != genesis.hash && node.block.hash != genesis.prev
    && node.block.prev in index && node.block.height == index[node.block.prev].block.height + 1
    && SumsUp(index, node)
    && (node.block.hash in index ==> index[node.block.hash] == node)
  }

  /** Setting a node, old or new, keeps the index good and the paths of the others. */
  lemma SetNode(genesis: Block, index: Index, node: Node, flag: bool)
    requires GoodIndex(genesis, index) && Connectable(genesis, index, node)
    ensures GoodIndex(genesis, index[node.block.hash := node.(inMainChain := flag)])
    ensures PathOf(index[node.block.hash := node.(inMainChain := flag)], node.block.hash) ==
      PathOf(index, node.block.prev) + [node.block]
    ensures forall h :: h in index ==>
      PathOf(index[node.block.hash := node.(inMainChain := flag)], h) == PathOf(index, h)
  {
    var b := node.block;
    var index' := index[b.hash := node.(inMainChain := flag)];
    var tree, tree' := TreeOf(index), TreeOf(index');
    if b.hash in index {
      assert tree' == tree;
    } else {
      assert tree' == tree[b.hash := b];
      WellFormedExtended(genesis, tree, b);
      PathStable(genesis, tree, b, b.prev);
      forall h | h in index ensures Path(tree', h) == Path(tree, h) {
        PathStable(genesis, tree, b, h);
      }
    }
    SetNodeSums(genesis, index, node, flag);
  }

  lemma SetNodeSums(genesis: Block, index: Index, node: Node, flag: bool)
    requires GoodIndex(genesis, index) && Connectable(genesis, index, node)
    requires WellFormed(genesis, TreeOf(index[node.block.hash := node.(inMainChain := flag)]))
    ensures WorkSums(genesis, index[node.block.hash := node.(inMainChain := flag)])
  {
    var index' := index[node.block.hash := node.(inMainChain := flag)];
    forall h | h in index' && h != genesis.hash ensures SumsUpAt(index', h) {
      if h != node.block.hash {
        assert SumsUpAt(index, h);
      }
    }
  }

  /** A path holds no hash twice. */
  lemma PathHashesDiffer(genesis: Block, index: Index, h: Hash)
    requires WellFormed(genesis, TreeOf(index)) && h in index
    ensures |PathOf(index, h)| == index[h].block.height + 1
    ensures HashesDiffer(PathOf(index, h))
  {
    PathShape(genesis, TreeOf(index), h);
  }

  /** No block of a path has the hash of a node on top of it. */
  lemma AboveThePath(genesis: Block, index: Index, node: Node)
    requires GoodIndex(genesis, index) && Connectable(genesis, index, node)
    ensures forall k :: 0 <= k < |PathOf(index, node.block.prev)| ==>
      PathOf(index, node.block.prev)[k].hash != node.block.hash
  {
    var path := PathOf(index, node.block.prev);
    PathShape(genesis, TreeOf(index), node.block.prev);
    forall k | 0 <= k < |path| ensures path[k].hash != node.block.hash {
      assert path[k] == index[path[k].hash].block;
    }
  }

  /** Connecting a node on top of the chain moves the description to the longer path. */
  lemma ConnectDescribes(genesis: Block, index: Index, heights: map<Hash, nat>, hashes: map<nat, Hash>, totalTxns: nat,
      node: Node)
    requires GoodIndex(genesis, index) && Connectable(genesis, index, node)
    requires Describes(index, heights, hashes, totalTxns, PathOf(index, node.block.prev))
    ensures Describes(index[node.block.hash := node.(inMainChain := true)],
                      heights[node.block.hash := node.block.height], hashes[node.block.height := node.block.hash],
                      totalTxns + node.block.txns, PathOf(index, node.block.prev) + [node.block])
  {
    var path := PathOf(index, node.block.prev);
    PathHashesDiffer(genesis, index, node.block.prev);
    PutBuckets(path, node.block);
    TxnsOfExtension(path, node.block);
    FlagConnected(genesis, index, node, path);
  }

  lemma FitsHash(genesis: Block, index: Index, h: Hash)
    requires WellFormed(genesis, TreeOf(index)) && h in index
    ensures index[h].block.hash == h
  {
    assert Fits(genesis, TreeOf(index), h);
  }

  lemma FlagConnected(genesis: Block, index: Index, node: Node, path: seq<Block>)
    requires Flagged(index, path) && |path| == node.block.height
    requires WellFormed(genesis, TreeOf(index))
    ensures Flagged(index[node.block.hash := node.(inMainChain := true)], path + [node.block])
  {
    var index', path' := index[node.block.hash := node.(inMainChain := true)], path + [node.block];
    forall h | h in index' ensures FlagAt(index', path', h) {
      if h != node.block.hash {
        FitsHash(genesis, index, h);
        assert FlagAt(index, path, h);
        assert index[h].block != node.block;
      }
    }
  }

  /** Disconnecting the tip moves the description to its parent. */
  lemma DisconnectDescribes(genesis: Block, index: Index, heights: map<Hash, nat>, hashes: map<nat, Hash>,
      totalTxns: nat, node: Node)
    requires GoodIndex(genesis, index) && Connectable(genesis, index, node)
    requires Describes(index, heights, hashes, totalTxns, PathOf(index, node.block.prev) + [node.block])
    ensures totalTxns >= node.block.txns
    ensures Describes(index[node.block.hash := node.(inMainChain := false)],
                      heights - {node.block.hash}, hashes - {node.block.height},
                      totalTxns - node.block.txns, PathOf(index, node.block.prev))
  {
    var path := PathOf(index, node.block.prev);
    PathHashesDiffer(genesis, index, node.block.prev);
    AboveThePath(genesis, index, node);
    RemoveBuckets(path, node.block);
    TxnsOfExtension(path, node.block);
    FlagDisconnected(genesis, index, node, path);
  }

  lemma FlagDisconnected(genesis: Block, index: Index, node: Node, path: seq<Block>)
    requires Flagged(index, path + [node.block]) && |path| == node.block.height
    requires WellFormed(genesis, TreeOf(index))
    ensures Flagged(index[node.block.hash := node.(inMainChain := false)], path)
  {
    var index', path' := index[node.block.hash := node.(inMainChain := false)], path + [node.block];
    forall h | h in index' ensures FlagAt(index', path, h) {
      if h != node.block.hash {
        FitsHash(genesis, index, h);
        assert FlagAt(index, path', h);
        assert On(path', index[h].block) <==> On(path, index[h].block);
      }
    }
  }

  /** The memory index, the tip, the hashidx and heightidx buckets and the transaction count of the snapshot. */
  datatype ChainState = ChainState(index: Index, best: Hash, heights: map<Hash, nat>, hashes: map<nat, Hash>,
      totalTxns: nat)
  {
    /** The main chain, from the genesis block to the tip. */
    function Main(): (path: seq<Block>)
      requires best in index
    {
      PathOf(index, best)
    }

    function Abstract(): (s: State) {
      State(TreeOf(index), best)
    }

    /** The index is good, and flags, buckets and transaction count describe the path to the tip. */
    ghost predicate Consistent(genesis: Block) {
      && GoodIndex(genesis, index)
      && best in index
      && Describes(index, heights, hashes, totalTxns, Main())
    }

    /** connectBlock's updates. */
    function Connected(node: Node): (s: ChainState) {
      var b := node.block;
      ChainState(index[b.hash := node.(inMainChain := true)], b.hash,
                 heights[b.hash := b.height], hashes[b.height := b.hash], totalTxns + b.txns)
    }

    /** disconnectBlock's updates. */
    function Disconnected(): (s: ChainState)
      requires best in index && totalTxns >= index[best].block.txns
    {
      var b := index[best].block;
      ChainState(index[best := index[best].(inMainChain := false)], b.prev,
                 heights - {b.hash}, hashes - {b.height}, totalTxns - b.txns)
    }
  }

  /**
   What consistency says of every height up to the tip: the flags mark the ancestors of the tip and nothing
   else, the two lookups are mutually inverse, and the count is the sum over the main chain.
   */
  lemma ConsistentState(genesis: Block, s: ChainState)
    requires s.Consistent(genesis)
    ensures forall h :: h in s.index ==> (s.index[h].inMainChain <==> On(s.Main(), s.index[h].block))
    ensures forall k :: k in s.hashes <==> 0 <= k <= s.index[s.best].block.height
    ensures forall k :: k in s.hashes ==> s.hashes[k] in s.heights && s.heights[s.hashes[k]] == k
    ensures forall h :: h in s.heights ==> s.heights[h] in s.hashes && s.hashes[s.heights[h]] == h
    ensures s.totalTxns == Txns(s.Main())
  {
    PathHashesDiffer(genesis, s.index, s.best);
    BucketsAreInverse(s.Main());
    forall h | h in s.index ensures s.index[h].inMainChain <==> On(s.Main(), s.index[h].block) {
      assert FlagAt(s.index, s.Main(), h);
    }
  }

  function InitialChain(genesis: Block): (s: ChainState) {
    ChainState(map[genesis.hash := Node(genesis, genesis.work, true)], genesis.hash,
               map[genesis.hash := 0], map[0 := genesis.hash], genesis.txns)
  }

  lemma InitialIsGood(genesis: Block, index: Index)
    requires IsGenesis(genesis) && index == map[genesis.hash := Node(genesis, genesis.work, true)]
    ensures TreeOf(index) == map[genesis.hash := genesis]
    ensures GoodIndex(genesis, index)
    ensures PathOf(index, genesis.hash) == [genesis]
  {
    var tree := TreeOf(index);
    assert tree == map[genesis.hash := genesis];
    assert forall h :: h in tree ==> h == genesis.hash;
    assert Fits(genesis, tree, genesis.hash);
  }

  lemma InitialIsConsistent(genesis: Block)
    requires IsGenesis(genesis)
    ensures InitialChain(genesis).Consistent(genesis)
    ensures TreeOf(InitialChain(genesis).index) == map[genesis.hash := genesis]
  {
    var s := InitialChain(genesis);
    InitialIsGood(genesis, s.index);
    TxnsOfExtension([], genesis);
    assert [] + [genesis] == [genesis];
    PutBuckets([], genesis);
    assert FlagAt(s.index, [genesis], genesis.hash);
  }

  lemma ConnectedIsConsistent(genesis: Block, s: ChainState, node: Node)
    requires s.Consistent(genesis) && Connectable(genesis, s.index, node) && node.block.prev == s.best
    ensures s.Connected(node).Consistent(genesis)
    ensures s.Connected(node).Main() == s.Main() + [node.block]
  {
    var s' := s.Connected(node);
    assert s'.index == s.index[node.block.hash := node.(inMainChain := true)] && s'.best == node.block.hash;
    SetNode(genesis, s.index, node, true);
    assert s'.Main() == s.Main() + [node.block];
    ConnectDescribes(genesis, s.index, s.heights, s.hashes, s.totalTxns, node);
  }

  lemma ConnectedTree(s: ChainState, node: Node)
    ensures TreeOf(s.Connected(node).index) == TreeOf(s.index)[node.block.hash := node.block]
  {
  }

  lemma IndexedIsConnectable(genesis: Block, index: Index, h: Hash)
    requires GoodIndex(genesis, index) && h in index && h != genesis.hash
    ensures Connectable(genesis, index, index[h])
    ensures PathOf(index, h) == PathOf(index, index[h].block.prev) + [index[h].block]
  {
    assert Fits(genesis, TreeOf(index), h);
    assert SumsUpAt(index, h);
  }

  lemma FlagsKeepTree(index: Index, h: Hash, flag: bool)
    requires h in index
    ensures TreeOf(index[h := index[h].(inMainChain := flag)]) == TreeOf(index)
  {
  }

  lemma DisconnectedIsConsistent(genesis: Block, s: ChainState)
    requires s.Consistent(genesis) && s.best != genesis.hash
    ensures s.totalTxns >= s.index[s.best].block.txns
    ensures s.Disconnected().Consistent(genesis)
    ensures s.Main() == s.Disconnected().Main() + [s.index[s.best].block]
    ensures TreeOf(s.Disconnected().index) == TreeOf(s.index)
  {
    var node := s.index[s.best];
    FitsHash(genesis, s.index, s.best);
    IndexedIsConnectable(genesis, s.index, s.best);
    SetNode(genesis, s.index, node, false);
    DisconnectDescribes(genesis, s.index, s.heights, s.hashes, s.totalTxns, node);
    var s' := s.Disconnected();
    assert s'.index == s.index[node.block.hash := node.(inMainChain := false)] && s'.best == node.block.prev;
    assert s'.Main() == PathOf(s.index, node.block.prev);
    FlagsKeepTree(s.index, s.best, false);
  }

  /** Indexing a new node off the tip changes neither the main chain nor what describes it. */
  lemma IndexedIsConsistent(genesis: Block, s: ChainState, node: Node)
    requires s.Consistent(genesis) && Connectable(genesis, s.index, node)
    requires node.block.hash !in s.index && !node.inMainChain
    ensures var s' := s.(index := s.index[node.block.hash := node]);
      && s'.Consistent(genesis) && s'.Main() == s.Main()
      && TreeOf(s'.index) == TreeOf(s.index)[node.block.hash := node.block]
      && PathOf(s'.index, node.block.hash) == PathOf(s.index, node.block.prev) + [node.block]
  {
    var h := node.block.hash;
    var index' := s.index[h := node];
    assert node == node.(inMainChain := false);
    SetNode(genesis, s.index, node, false);
    NewIsOffMain(genesis, s, node);
    FlagIndexed(s.index, s.Main(), node);
    assert TreeOf(index') == TreeOf(s.index)[h := node.block];
  }

  lemma FlagIndexed(index: Index, path: seq<Block>, node: Node)
    requires Flagged(index, path) && !node.inMainChain && !On(path, node.block)
    ensures Flagged(index[node.block.hash := node], path)
  {
    var index' := index[node.block.hash := node];
    forall h | h in index' ensures FlagAt(index', path, h) {
      if h != node.block.hash {
        assert FlagAt(index, path, h);
      }
    }
  }

  lemma NewIsOffMain(genesis: Block, s: ChainState, node: Node)
    requires s.Consistent(genesis) && node.block.hash !in s.index
    ensures !On(s.Main(), node.block)
  {
    if On(s.Main(), node.block) {
      PathNode(genesis, s.index, s.best, node.block.height);
    }
  }

  // ----- the fork between the tip and another node -----

  function Reversed(blocks: seq<Block>): (r: seq<Block>)
    ensures |r| == |blocks|
    ensures forall k {:trigger r[k]} :: 0 <= k < |r| ==> r[k] == blocks[|blocks| - 1 - k]
  {
    if blocks == [] then [] else Reversed(blocks[1..]) + [blocks[0]]
  }

  /** The paths agree before `fork`, and nothing of `path` is on `main` from there. */
  ghost predicate ForkAt(main: seq<Block>, path: seq<Block>, fork: nat) {
    && 0 < fork <= |main| && fork <= |path|
    && main[..fork] == path[..fork]
    && forall i :: fork <= i < |path| ==> !On(main, path[i])
  }

  /** Each block of a path is indexed, above its predecessor; only the first has no indexed parent. */
  lemma PathNode(genesis: Block, index: Index, h: Hash, i: nat)
    requires GoodIndex(genesis, index) && h in index && i < |PathOf(index, h)|
    ensures var b := PathOf(index, h)[i];
      && b.hash in index && index[b.hash].block == b
      && (i == 0 ==> b == genesis && b.prev !in index)
      && (i > 0 ==> b.hash != genesis.hash && b.prev in index && b.prev == PathOf(index, h)[i - 1].hash)
  {
    var tree, path := TreeOf(index), PathOf(index, h);
    PathShape(genesis, tree, h);
    var b := path[i];
    assert Fits(genesis, tree, b.hash);
    if i > 0 {
      PathPrefix(genesis, tree, h, i);
      assert Fits(genesis, tree, b.prev);
      assert path[i - 1] == path[..i + 1][i - 1];
    }
  }

  /** The fork of a path lies where the flags end. */
  lemma FlagsShowFork(genesis: Block, s: ChainState, h: Hash, i: nat)
    requires s.Consistent(genesis) && h in s.index && i < |PathOf(s.index, h)|
    requires i == 0 || (PathOf(s.index, h)[i].hash in s.index && s.index[PathOf(s.index, h)[i].hash].inMainChain)
    requires forall j :: i < j < |PathOf(s.index, h)| ==> !On(s.Main(), PathOf(s.index, h)[j])
    ensures ForkAt(s.Main(), PathOf(s.index, h), i + 1)
  {
    var path := PathOf(s.index, h);
    PathNode(genesis, s.index, h, i);
    PathNode(genesis, s.index, s.best, 0);
    assert FlagAt(s.index, s.Main(), path[i].hash);
    assert On(s.Main(), path[i]);
    SharedPrefix(genesis, TreeOf(s.index), h, s.best, i);
  }

  /** Between a childless tip and a node off the main chain, both sides of the fork hold a block. */
  lemma ForkIsProper(genesis: Block, s: ChainState, h: Hash, fork: nat)
    requires s.Consistent(genesis) && h in s.index && !On(s.Main(), s.index[h].block)
    requires forall g :: g in s.index ==> s.index[g].block.prev != s.best
    requires ForkAt(s.Main(), PathOf(s.index, h), fork)
    ensures fork < |PathOf(s.index, h)| && fork < |s.Main()|
  {
    var main, path := s.Main(), PathOf(s.index, h);
    FitsHash(genesis, s.index, s.best);
    PathHashesDiffer(genesis, s.index, h);
    assert main[fork - 1] == main[..fork][fork - 1] == path[..fork][fork - 1] == path[fork - 1];
    if fork < |path| {
      PathNode(genesis, s.index, h, fork);
    }
  }

  lemma SameOnPath(genesis: Block, index: Index, h: Hash, i: nat, j: nat)
    requires GoodIndex(genesis, index) && h in index && i < |PathOf(index, h)| && j < |PathOf(index, h)|
    ensures PathOf(index, h)[i].hash == PathOf(index, h)[j].hash ==> i == j
  {
    PathShape(genesis, TreeOf(index), h);
  }

  lemma ReversedStep(blocks: seq<Block>, k: nat)
    requires k < |blocks|
    ensures Reversed(blocks[k..]) == Reversed(blocks[k + 1..]) + [blocks[k]]
  {
    assert blocks[k..][1..] == blocks[k + 1..];
  }

  /** The first loop of getReorganizeNodes: from a node down to the main chain. */
  method AttachFrom(s: ChainState, h: Hash, ghost genesis: Block)
      returns (attach: seq<Block>, ancestor: Hash, ghost fork: nat)
    requires s.Consistent(genesis) && h in s.index
    ensures ForkAt(s.Main(), PathOf(s.index, h), fork)
    ensures attach == PathOf(s.index, h)[fork..]
    ensures ancestor == s.Main()[fork - 1].hash
  {
    ghost var path := PathOf(s.index, h);
    ghost var i := |path| - 1;
    FitsHash(genesis, s.index, h);
    ancestor, attach := h, [];
    while s.index[ancestor].block.prev in s.index && !s.index[ancestor].inMainChain
      invariant 0 <= i < |path| && ancestor in s.index && s.index[ancestor].block == path[i] && ancestor == path[i].hash
      invariant attach == path[i + 1..]
      invariant forall j :: i < j < |path| ==> !On(s.Main(), path[j])
      decreases i
    {
      PathNode(genesis, s.index, h, i);
      PathNode(genesis, s.index, h, i - 1);
      assert FlagAt(s.index, s.Main(), ancestor);
      attach := [s.index[ancestor].block] + attach;
      ancestor, i := s.index[ancestor].block.prev, i - 1;
    }
    PathNode(genesis, s.index, h, i);
    FlagsShowFork(genesis, s, h, i);
    fork := i + 1;
    assert path[i] == path[..fork][i];
  }

  /** Part way down the main chain: at block `k`, with what is above it collected. */
  ghost predicate Walk(s: ChainState, main: seq<Block>, n: Hash, k: int, detach: seq<Block>) {
    && 0 <= k < |main| && n == main[k].hash && n in s.index && s.index[n].block == main[k]
    && detach == Reversed(main[k + 1..])
  }

  lemma WalkFromTip(genesis: Block, s: ChainState)
    requires s.Consistent(genesis)
    ensures Walk(s, s.Main(), s.best, |s.Main()| - 1, [])
  {
    FitsHash(genesis, s.index, s.best);
  }

  /** One block down; there is one unless this is the first, and no block comes twice. */
  lemma WalkDown(genesis: Block, s: ChainState, n: Hash, k: int, detach: seq<Block>)
    requires s.Consistent(genesis) && Walk(s, s.Main(), n, k, detach)
    ensures k > 0 <==> s.index[n].block.prev in s.index
    ensures k > 0 ==> Walk(s, s.Main(), s.index[n].block.prev, k - 1, detach + [s.index[n].block])
    ensures forall j {:trigger s.Main()[j]} :: 0 <= j < |s.Main()| && s.Main()[j].hash == n ==> j == k
  {
    PathNode(genesis, s.index, s.best, k);
    if k > 0 {
      PathNode(genesis, s.index, s.best, k - 1);
      ReversedStep(s.Main(), k);
    }
    forall j | 0 <= j < |s.Main()| && s.Main()[j].hash == n ensures j == k {
      SameOnPath(genesis, s.index, s.best, k, j);
    }
  }

  /** The second loop: from the tip down to an ancestor on the main chain. */
  method DetachTo(s: ChainState, ancestor: Hash, ghost genesis: Block, ghost fork: nat) returns (detach: seq<Block>)
    requires s.Consistent(genesis)
    requires 0 < fork <= |s.Main()| && s.Main()[fork - 1].hash == ancestor
    ensures detach == Reversed(s.Main()[fork..])
  {
    ghost var k := |s.Main()| - 1;
    var n := s.best;
    detach := [];
    WalkFromTip(genesis, s);
    WalkDown(genesis, s, n, k, detach);
    while s.index[n].block.prev in s.index && n != ancestor
      invariant Walk(s, s.Main(), n, k, detach) && fork - 1 <= k
      invariant k > 0 <==> s.index[n].block.prev in s.index
      invariant n == ancestor ==> k == fork - 1
      decreases k
    {
      WalkDown(genesis, s, n, k, detach);
      detach := detach + [s.index[n].block];
      n, k := s.index[n].block.prev, k - 1;
      WalkDown(genesis, s, n, k, detach);
    }
  }

  /** Below the fork nothing is off the main chain. */
  lemma ForkedIsAttachable(rules: Rules, main: seq<Block>, path: seq<Block>, fork: nat)
    requires ForkAt(main, path, fork) && forall i :: 0 <= i < |path| ==> path[i].height == i
    ensures Attachable(rules, path, main) <==> forall i :: fork <= i < |path| ==> ConnectsAt(rules, path, i)
  {
    forall i | 0 <= i < fork ensures On(main, path[i]) {
      assert main[..fork][i] == path[..fork][i];
    }
  }

  /** Taking the tip off a main chain of `m` blocks. */
  lemma DetachStep(genesis: Block, s: ChainState, main: seq<Block>, m: nat)
    requires s.Consistent(genesis) && 1 < m <= |main| && s.Main() == main[..m]
    ensures s.best == main[m - 1].hash && s.best != genesis.hash
    ensures s.totalTxns >= s.index[s.best].block.txns
    ensures s.Disconnected().Consistent(genesis) && TreeOf(s.Disconnected().index) == TreeOf(s.index)
    ensures s.Disconnected().Main() == main[..m - 1]
  {
    FitsHash(genesis, s.index, s.best);
    PathNode(genesis, s.index, s.best, m - 1);
    assert s.Main()[m - 1] == main[m - 1];
    DisconnectedIsConsistent(genesis, s);
    var rest := s.Disconnected().Main();
    assert rest == (rest + [s.index[s.best].block])[..m - 1];
    assert main[..m][..m - 1] == main[..m - 1];
  }

  /** Half way through a reorganization: the main chain is the first `m` blocks of the path to `h`. */
  ghost predicate UpTo(genesis: Block, s: ChainState, tree: Tree, h: Hash, m: nat) {
    && s.Consistent(genesis) && TreeOf(s.index) == tree
    && h in tree && m <= |Path(tree, h)| && s.Main() == Path(tree, h)[..m]
  }

  lemma AttachStep(genesis: Block, s: ChainState, tree: Tree, h: Hash, m: nat, b: Block)
    requires UpTo(genesis, s, tree, h, m) && 0 < m < |Path(tree, h)| && b == Path(tree, h)[m]
    ensures b.hash in s.index && s.index[b.hash].block.prev == s.best
    ensures Connectable(genesis, s.index, s.index[b.hash])
    ensures UpTo(genesis, s.Connected(s.index[b.hash]), tree, h, m + 1)
  {
    var path := Path(tree, h);
    PathNode(genesis, s.index, h, m);
    FitsHash(genesis, s.index, s.best);
    assert path[m - 1] == s.Main()[m - 1];
    IndexedIsConnectable(genesis, s.index, b.hash);
    ConnectedIsConsistent(genesis, s, s.index[b.hash]);
    FlagsKeepTree(s.index, b.hash, true);
    assert path[..m + 1] == path[..m] + [b];
  }

  lemma WholePath(genesis: Block, s: ChainState, h: Hash)
    requires h in s.index && UpTo(genesis, s, TreeOf(s.index), h, |PathOf(s.index, h)|)
    ensures s.best == h
  {
    assert PathOf(s.index, h)[..|PathOf(s.index, h)|] == PathOf(s.index, h);
    FitsHash(genesis, s.index, h);
    FitsHash(genesis, s.index, s.best);
  }

  /** The check phase of reorganizeChain: nothing is changed, and it passes exactly when every block to attach does. */
  method CheckAttached(rules: Rules, s: ChainState, attach: seq<Block>, ghost h: Hash, ghost fork: nat)
      returns (ok: bool)
    requires s.Consistent(rules.genesis) && h in s.index
    requires fork <= |PathOf(s.index, h)| && attach == PathOf(s.index, h)[fork..]
    ensures ok <==> forall i :: fork <= i < |PathOf(s.index, h)| ==> ConnectsAt(rules, PathOf(s.index, h), i)
  {
    ghost var path := PathOf(s.index, h);
    var k := 0;
    ok := true;
    while k < |attach|
      invariant 0 <= k <= |attach| && ok
      invariant forall i :: fork <= i < fork + k ==> ConnectsAt(rules, path, i)
    {
      assert attach[k] == path[fork + k];
      PathPrefix(rules.genesis, TreeOf(s.index), h, fork + k);
      if !rules.connects(PathOf(s.index, attach[k].hash)) {
        assert !ConnectsAt(rules, path, fork + k);
        return false;
      }
      k := k + 1;
    }
  }

  class BlockChain {
    const rules: Rules
    var state: ChainState

    /** Between operations the tip also has no indexed child. */
    ghost predicate Valid()
      reads this
    {
      state.Consistent(rules.genesis) && Structure(rules, state.Abstract())
    }

    /** createChainState. */
    constructor (rules: Rules)
      requires IsGenesis(rules.genesis)
      ensures Valid() && this.rules == rules && state.Abstract() == Initial(rules)
    {
      this.rules := rules;
      state := InitialChain(rules.genesis);
      new;
      InitialIsConsistent(rules.genesis);
    }

    /** connectBlock: appends a node to the main chain, unless it does not extend the tip. */
    method ConnectBlock(node: Node) returns (ok: bool)
      requires state.Consistent(rules.genesis) && Connectable(rules.genesis, state.index, node)
      modifies this
      ensures ok <==> node.block.prev == old(state).best
      ensures state == if ok then old(state).Connected(node) else old(state)
      ensures state.Consistent(rules.genesis)
    {
      ok := node.block.prev == state.best;
      if ok {
        ConnectedIsConsistent(rules.genesis, state, node);
        state := state.Connected(node);
      }
    }

    /** disconnectBlock: takes the tip off the main chain, unless the node is not the tip. */
    method DisconnectBlock(h: Hash) returns (ok: bool)
      requires state.Consistent(rules.genesis) && h in state.index && h != rules.genesis.hash
      modifies this
      ensures ok <==> h == old(state).best
      ensures ok ==> old(state).totalTxns >= old(state).index[h].block.txns && state == old(state).Disconnected()
      ensures !ok ==> state == old(state)
      ensures state.Consistent(rules.genesis)
    {
      ok := h == state.best;
      if ok {
        DisconnectedIsConsistent(rules.genesis, state);
        state := state.Disconnected();
      }
    }

    /** getReorganizeNodes: what leaves the main chain, tip first, and what joins it, in order. */
    method GetReorganizeNodes(h: Hash) returns (detach: seq<Block>, attach: seq<Block>, ghost fork: nat)
      requires state.Consistent(rules.genesis) && h in state.index
      ensures ForkAt(state.Main(), PathOf(state.index, h), fork)
      ensures attach == PathOf(state.index, h)[fork..]
      ensures detach == Reversed(state.Main()[fork..])
    {
      var ancestor;
      attach, ancestor, fork := AttachFrom(state, h, rules.genesis);
      detach := DetachTo(state, ancestor, rules.genesis, fork);
    }

    /** The disconnecting loop of reorganizeChain. */
    method DetachAll(detach: seq<Block>, ghost fork: nat)
      requires state.Consistent(rules.genesis)
      requires 0 < fork <= |state.Main()| && detach == Reversed(state.Main()[fork..])
      modifies this
      ensures state.Consistent(rules.genesis) && TreeOf(state.index) == TreeOf(old(state).index)
      ensures state.Main() == old(state).Main()[..fork]
    {
      ghost var main := state.Main();
      var i := 0;
      assert main[..|main|] == main;
      while i < |detach|
        invariant 0 <= i <= |detach| == |main| - fork
        invariant state.Consistent(rules.genesis) && TreeOf(state.index) == TreeOf(old(state).index)
        invariant state.Main() == main[..|main| - i]
      {
        assert detach[i] == main[|main| - i - 1];
        DetachStep(rules.genesis, state, main, |main| - i);
        var ok := DisconnectBlock(detach[i].hash);
        i := i + 1;
      }
    }

    /** One round of the connecting loop of reorganizeChain. */
    method AttachNext(b: Block, ghost tree: Tree, ghost h: Hash, ghost m: nat)
      requires UpTo(rules.genesis, state, tree, h, m) && 0 < m < |Path(tree, h)| && b == Path(tree, h)[m]
      modifies this
      ensures UpTo(rules.genesis, state, tree, h, m + 1)
    {
      AttachStep(rules.genesis, state, tree, h, m, b);
      var ok := ConnectBlock(state.index[b.hash]);
    }

    /** The connecting loop of reorganizeChain. */
    method AttachAll(attach: seq<Block>, ghost tree: Tree, ghost h: Hash, ghost fork: nat)
      requires fork > 0 && UpTo(rules.genesis, state, tree, h, fork) && attach == Path(tree, h)[fork..]
      modifies this
      ensures UpTo(rules.genesis, state, tree, h, fork + |attach|)
    {
      var i := 0;
      while i < |attach|
        invariant 0 <= i <= |attach| && UpTo(rules.genesis, state, tree, h, fork + i)
      {
        AttachNext(attach[i], tree, h, fork + i);
        i := i + 1;
      }
    }

    /** reorganizeChain: all of the switch, or none of it. */
    method ReorganizeChain(detach: seq<Block>, attach: seq<Block>, dryRun: bool, ghost h: Hash, ghost fork: nat)
        returns (ok: bool)
      requires state.Consistent(rules.genesis) && h in state.index
      requires ForkAt(state.Main(), PathOf(state.index, h), fork)
      requires attach == PathOf(state.index, h)[fork..] && detach == Reversed(state.Main()[fork..])
      requires attach != [] && detach != []
      modifies this
      ensures ok <==> Attachable(rules, PathOf(old(state).index, h), old(state).Main())
      ensures !ok || dryRun ==> state == old(state)
      ensures ok && !dryRun ==> TreeOf(state.index) == TreeOf(old(state).index) && state.best == h
      ensures state.Consistent(rules.genesis)
    {
      ok := CheckAttached(rules, state, attach, h, fork);
      PathShape(rules.genesis, TreeOf(state.index), h);
      ForkedIsAttachable(rules, state.Main(), PathOf(state.index, h), fork);
      if !ok || dryRun {
        return;
      }
      DetachAll(detach, fork);
      AttachAll(attach, TreeOf(state.index), h, fork);
      WholePath(rules.genesis, state, h);
    }

    /** Looks for the fork and makes the node the tip, if the blocks to attach pass their checks. */
    method ReorganizeTo(h: Hash, dryRun: bool) returns (ok: bool)
      requires state.Consistent(rules.genesis) && h in state.index && !On(state.Main(), state.index[h].block)
      requires forall g :: g in state.index ==> state.index[g].block.prev != state.best
      modifies this
      ensures ok <==> Attachable(rules, PathOf(old(state).index, h), old(state).Main())
      ensures !ok || dryRun ==> state == old(state)
      ensures ok && !dryRun ==> TreeOf(state.index) == TreeOf(old(state).index) && state.best == h
      ensures state.Consistent(rules.genesis)
    {
      ghost var fork;
      var detach, attach;
      detach, attach, fork := GetReorganizeNodes(h);
      ForkIsProper(rules.genesis, state, h, fork);
      ok := ReorganizeChain(detach, attach, dryRun, h, fork);
    }

    /** The side-chain half of connectBestChain. */
    method ConnectSide(node: Node, dryRun: bool) returns (onMain: bool, ok: bool)
      requires Valid() && Connectable(rules.genesis, state.index, node)
      requires node.block.hash !in state.index && !node.inMainChain && node.block.prev != state.best
      modifies this
      ensures state.Consistent(rules.genesis)
      ensures (ok, onMain) == Verdict(rules, old(state).Abstract(), node.block, false)
      ensures dryRun ==> state == old(state)
      ensures !dryRun ==> state.Abstract() == Accept(rules, old(state).Abstract(), node.block, false)
    {
      var h := node.block.hash;
      IndexedIsConsistent(rules.genesis, state, node);
      NewIsOffMain(rules.genesis, state, node);
      state := state.(index := state.index[h := node]);
      WorkSumIsWork(rules.genesis, state.index, h);
      WorkSumIsWork(rules.genesis, state.index, state.best);
      if node.workSum <= state.index[state.best].workSum {
        onMain, ok := false, true;
      } else {
        ok := ReorganizeTo(h, dryRun);
        onMain := ok;
      }
      if dryRun {
        state := state.(index := state.index - {h});
        assert state.index == old(state).index;
      }
    }

    /** connectBestChain. */
    method ConnectBestChain(node: Node, fastAdd: bool, dryRun: bool) returns (onMain: bool, ok: bool)
      requires Valid() && Connectable(rules.genesis, state.index, node)
      requires node.block.hash !in state.index && !node.inMainChain
      modifies this
      ensures Valid()
      ensures (ok, onMain) == Verdict(rules, old(state).Abstract(), node.block, fastAdd)
      ensures dryRun ==> state == old(state)
      ensures !dryRun ==> state.Abstract() == Accept(rules, old(state).Abstract(), node.block, fastAdd)
      ensures Answered(rules, old(state).Abstract(), node.block, fastAdd, ok, onMain)
      ensures !dryRun ==> Effect(old(state).Abstract(), node.block, ok, onMain, state.Abstract())
    {
      VerdictIsRight(rules, state.Abstract(), node.block, fastAdd);
      AcceptKeepsStructure(rules, state.Abstract(), node.block, fastAdd);
      if node.block.prev == state.best {
        ok := fastAdd || rules.connects(PathOf(state.index, node.block.prev) + [node.block]);
        onMain := ok;
        if ok && !dryRun {
          ConnectedTree(state, node);
          var connected := ConnectBlock(node);
        }
      } else {
        onMain, ok := ConnectSide(node, dryRun);
      }
    }

    /** maybeAcceptBlock, on a block that was not indexed before. */
    method MaybeAcceptBlock(block: Block, fastAdd: bool, dryRun: bool) returns (onMain: bool, ok: bool)
      requires Valid() && block.hash !in state.index && block.hash != rules.genesis.prev
      modifies this
      ensures Valid()
      ensures state.Abstract() == Step(rules, old(state).Abstract(), Event(block, fastAdd, dryRun))
      ensures dryRun ==> state == old(state)
      ensures ok ==> Linked(rules, old(state).Abstract(), block)
      ensures Linked(rules, old(state).Abstract(), block) ==>
        (ok, onMain) == Verdict(rules, old(state).Abstract(), block, fastAdd)
      ensures Linked(rules, old(state).Abstract(), block) ==>
        Answered(rules, old(state).Abstract(), block, fastAdd, ok, onMain)
    {
      if block.prev !in state.index || block.height != state.index[block.prev].block.height + 1 {
        return false, false;
      }
      var node := Node(block, state.index[block.prev].workSum + block.work, false);
      onMain, ok := ConnectBestChain(node, fastAdd, dryRun);
    }
  }
}
