/**
 The admin state recorded over every sequence of connected blocks and reorganizations (blockchain/chain.go): keys and
 thread tips are always those of the current chain, and the supply is off by what the reorganizations attached.
 */
module KeyRecorded {
  import opened Bytes
  import opened KeyView
  import opened KeyParts
  import opened KeyHistory
  import opened KeyReorganize

  // ----- all but the supply and the last key ID -----

  predicate SameKeys(v: View, w: View) {
    v.tips == w.tips && v.registers == w.registers
  }

  lemma SameKeysConnected(v: View, w: View, txs: seq<Tx>)
    requires SameKeys(v, w)
    ensures SameKeys(ConnectAll(v, txs), ConnectAll(w, txs))
  {
    ConnectedParts(v, txs);
    ConnectedParts(w, txs);
    SameRegistersAfter(v, w, AllOps(txs));
  }

  lemma SameKeysFitting(v: View, w: View, txs: seq<Tx>)
    requires SameKeys(v, w) && AllFitting(v, txs)
    ensures AllFitting(w, txs)
  {
    forall i | 0 <= i < |txs| ensures FittingAt(w, txs, i) {
      assert FittingAt(v, txs, i);
      SameKeysConnected(v, w, txs[..i]);
    }
  }

  lemma {:induction false} SameRegistersUndone(v: View, w: View, ops: seq<Op>)
    requires v.registers == w.registers
    ensures UndoAll(v, ops).registers == UndoAll(w, ops).registers
  {
    if ops != [] {
      SameRegistersUndone(v, w, ops[..|ops| - 1]);
    }
  }

  lemma {:induction false} SameKeysDisconnected(v: View, w: View, txs: seq<Tx>)
    requires SameKeys(v, w) && AllHaveInputs(txs)
    ensures SameKeys(DisconnectAll(v, txs), DisconnectAll(w, txs))
    decreases |txs|
  {
    if txs != [] {
      var tx := txs[|txs| - 1];
      SameRegistersUndone(v, w, KeyOps(tx));
      SameKeysDisconnected(Disconnect(v, tx), Disconnect(w, tx), txs[..|txs| - 1]);
    }
  }

  lemma {:induction false} DisconnectedSupply(v: View, txs: seq<Tx>)
    requires AllHaveInputs(txs)
    ensures DisconnectAll(v, txs).supply == AddTo(v.supply, 0 - NetOf(txs))
    decreases |txs|
  {
    if txs == [] {
      AddToZero(v.supply);
    } else {
      var init, tx := txs[..|txs| - 1], txs[|txs| - 1];
      AddToZero(v.supply);
      DisconnectedSupply(Disconnect(v, tx), init);
      SupplyAdds(v.supply, 0 - NetIssuance(tx), 0 - NetOf(init));
    }
  }

  /** Taking back what was connected to `v` from a view with the same keys gives back the keys of `v`. */
  lemma KeysRestored(v: View, w: View, txs: seq<Tx>)
    requires AllFitting(v, txs) && SameKeys(w, ConnectAll(v, txs))
    ensures AllHaveInputs(txs) && SameKeys(DisconnectAll(w, txs), v)
  {
    BlockRestored(v, ConnectAll(v, txs), txs);
    SameKeysDisconnected(w, ConnectAll(v, txs), txs);
  }

  // ----- lists of blocks in two parts -----

  lemma {:induction false} FlatInTwo(a: seq<TxBlock>, b: seq<TxBlock>)
    ensures Flat(a + b) == Flat(a) + Flat(b)
  {
    if b == [] {
      assert a + b == a;
    } else {
      var init := b[..|b| - 1];
      assert (a + b)[..|a + b| - 1] == a + init;
      FlatInTwo(a, init);
      Associative(Flat(a), Flat(init), b[|b| - 1]);
    }
  }

  lemma ReplayInTwo(v: View, a: seq<TxBlock>, b: seq<TxBlock>)
    ensures Replay(v, a + b) == ConnectAll(Replay(v, a), Flat(b))
  {
    ReplayIsConnect(v, a + b);
    ReplayIsConnect(v, a);
    FlatInTwo(a, b);
    ConnectInTwo(v, Flat(a), Flat(b));
  }

  lemma FittingInTwo(v: View, a: seq<Tx>, b: seq<Tx>)
    ensures AllFitting(v, a + b) <==> AllFitting(v, a) && AllFitting(ConnectAll(v, a), b)
  {
    forall i | 0 <= i < |a| ensures FittingAt(v, a + b, i) == FittingAt(v, a, i) {
      assert (a + b)[..i] == a[..i];
    }
    forall i | 0 <= i < |b| ensures FittingAt(v, a + b, |a| + i) == FittingAt(ConnectAll(v, a), b, i) {
      assert (a + b)[..|a| + i] == a + b[..i];
      ConnectInTwo(v, a, b[..i]);
    }
    if AllFitting(v, a + b) {
      forall i | 0 <= i < |a| ensures FittingAt(v, a, i) {
        assert FittingAt(v, a + b, i);
      }
      forall i | 0 <= i < |b| ensures FittingAt(ConnectAll(v, a), b, i) {
        assert FittingAt(v, a + b, |a| + i);
      }
    }
    if AllFitting(v, a) && AllFitting(ConnectAll(v, a), b) {
      forall i | 0 <= i < |a + b| ensures FittingAt(v, a + b, i) {
        assert i < |a| ==> FittingAt(v, a, i);
        assert i >= |a| ==> FittingAt(ConnectAll(v, a), b, i - |a|);
      }
    }
  }

  // ----- runs -----

  /** A block on top of the tip, or a reorganization that keeps the lowest blocks and attaches others. */
  datatype ChainMove = Grow(txs: TxBlock) | Switch(keep: nat, attach: seq<TxBlock>)

  /** The current chain, the view recorded for it, and what reorganizations attached on balance so far. */
  datatype Recorded = Recorded(blocks: seq<TxBlock>, view: View, attached: int)

  /** The same keys, and a supply that is off by an amount. */
  predicate OffBy(w: View, v: View, off: int) {
    SameKeys(w, v) && w.supply == AddTo(v.supply, off)
  }

  ghost predicate Fit(v: View, blocks: seq<TxBlock>) {
    AllFitting(v, Flat(blocks))
  }

  /** What every move keeps. */
  ghost predicate Kept(v: View, r: Recorded) {
    Fit(v, r.blocks) && OffBy(r.view, Replay(v, r.blocks), r.attached)
  }

  /** Detaching down to the kept blocks is possible, and gives their keys and their supply, as far off as before. */
  lemma Detached(v: View, r: Recorded, keep: nat)
    requires Kept(v, r) && keep <= |r.blocks|
    ensures Fit(v, r.blocks[..keep]) && AllHaveInputs(Flat(r.blocks[keep..]))
    ensures var w := DetachAll(r.view, r.blocks[keep..]);
      Kept(v, Recorded(r.blocks[..keep], w, r.attached))
  {
    var low, high := r.blocks[..keep], r.blocks[keep..];
    var base := Replay(v, low);
    assert r.blocks == low + high;
    FlatInTwo(low, high);
    FittingInTwo(v, Flat(low), Flat(high));
    ReplayIsConnect(v, low);
    ReplayInTwo(v, low, high);
    KeysRestored(base, r.view, Flat(high));
    SupplyRestoredOff(base, r.view, Flat(high), r.attached);
    DetachIsDisconnect(r.view, high);
  }

  /** A supply that is off stays so when transactions are taken back. */
  lemma SupplyRestoredOff(base: View, w: View, txs: seq<Tx>, off: int)
    requires AllHaveInputs(txs) && w.supply == AddTo(ConnectAll(base, txs).supply, off)
    ensures DisconnectAll(w, txs).supply == AddTo(base.supply, off)
  {
    DisconnectedSupply(w, txs);
    ConnectedSupply(base, txs);
    OffBySame(base.supply, NetOf(txs), off);
  }

  lemma OffBySame(supply: Uint64, net: int, off: int)
    ensures AddTo(AddTo(AddTo(supply, net), off), 0 - net) == AddTo(supply, off)
  {
    SupplyAdds(supply, net, off);
    SupplyAdds(supply, net + off, 0 - net);
  }

  lemma OffByMore(supply: Uint64, net: int, off: int)
    ensures AddTo(AddTo(supply, off), net) == AddTo(AddTo(supply, net), off)
    ensures AddTo(AddTo(supply, off), net + net) == AddTo(AddTo(supply, net), off + net)
  {
    SupplyAdds(supply, off, net);
    SupplyAdds(supply, net, off);
    SupplyAdds(supply, off, net + net);
    SupplyAdds(supply, net, off + net);
  }

  /** A block is connected, or a chain attached, if it passes its checks against the recorded view. */
  ghost function Step(v: View, r: Recorded, m: ChainMove): (r': Recorded)
    requires Kept(v, r)
  {
    match m
    case Grow(txs) =>
      if AllAcceptable(r.view, txs) then Recorded(r.blocks + [txs], ConnectAll(r.view, txs), r.attached) else r
    case Switch(keep, attach) =>
      if keep > |r.blocks| then
        r
      else
        Detached(v, r, keep);
        var detach := r.blocks[keep..];
        if AllAcceptable(DetachAll(r.view, detach), Flat(attach)) then
          Recorded(r.blocks[..keep] + attach, Reorganized(r.view, detach, attach), r.attached + NetOf(Flat(attach)))
        else
          r
  }

  /** Blocks that pass their checks against the recorded view fit the chain it is recorded for. */
  lemma FitsChain(v: View, r: Recorded, txs: seq<Tx>)
    requires Kept(v, r) && AllAcceptable(r.view, txs)
    ensures AllFitting(v, Flat(r.blocks) + txs)
  {
    AcceptableIsFitting(r.view, txs);
    SameKeysFitting(r.view, Replay(v, r.blocks), txs);
    ReplayIsConnect(v, r.blocks);
    FittingInTwo(v, Flat(r.blocks), txs);
  }

  lemma GrowFits(v: View, r: Recorded, txs: TxBlock)
    requires Kept(v, r) && AllAcceptable(r.view, txs)
    ensures Fit(v, r.blocks + [txs])
  {
    FitsChain(v, r, txs);
    assert (r.blocks + [txs])[..|r.blocks|] == r.blocks;
  }

  lemma GrownReplay(v: View, blocks: seq<TxBlock>, txs: TxBlock)
    ensures Replay(v, blocks + [txs]) == ConnectAll(Replay(v, blocks), txs)
  {
    assert (blocks + [txs])[..|blocks|] == blocks;
  }

  lemma GrownIsOff(base: View, w: View, txs: seq<Tx>, off: int)
    requires OffBy(w, base, off)
    ensures OffBy(ConnectAll(w, txs), ConnectAll(base, txs), off)
  {
    SameKeysConnected(w, base, txs);
    ConnectedSupply(w, txs);
    ConnectedSupply(base, txs);
    OffByMore(base.supply, NetOf(txs), off);
  }

  lemma GrowKeeps(v: View, r: Recorded, txs: TxBlock, r': Recorded)
    requires Kept(v, r) && AllAcceptable(r.view, txs)
    requires r' == Recorded(r.blocks + [txs], ConnectAll(r.view, txs), r.attached)
    ensures Kept(v, r')
  {
    GrowFits(v, r, txs);
    GrownReplay(v, r.blocks, txs);
    GrownIsOff(Replay(v, r.blocks), r.view, txs, r.attached);
  }

  lemma ReplayedTwice(v: View, blocks: seq<TxBlock>)
    ensures Replay(Replay(v, blocks), blocks) == ConnectAll(ConnectAll(v, Flat(blocks)), Flat(blocks))
  {
    ReplayIsConnect(v, blocks);
    ReplayIsConnect(ConnectAll(v, Flat(blocks)), blocks);
  }

  lemma AttachFits(v: View, r: Recorded, attach: seq<TxBlock>)
    requires Kept(v, r) && AllAcceptable(r.view, Flat(attach))
    ensures Fit(v, r.blocks + attach)
  {
    FitsChain(v, r, Flat(attach));
    FlatInTwo(r.blocks, attach);
  }

  lemma AttachedIsOff(v: View, blocks: seq<TxBlock>, w: View, attach: seq<TxBlock>, off: int)
    requires OffBy(w, Replay(v, blocks), off)
    ensures OffBy(Replay(Replay(w, attach), attach), Replay(v, blocks + attach), off + NetOf(Flat(attach)))
  {
    ReplayedTwice(w, attach);
    ReplayInTwo(v, blocks, attach);
    AttachedTwice(Replay(v, blocks), w, Flat(attach), off);
  }

  /** Connecting twice to a view whose supply is off, against connecting once to the right one. */
  lemma AttachedTwice(base: View, w: View, txs: seq<Tx>, off: int)
    requires OffBy(w, base, off)
    ensures OffBy(ConnectAll(ConnectAll(w, txs), txs), ConnectAll(base, txs), off + NetOf(txs))
  {
    ConnectedTwice(w, txs);
    SameKeysConnected(w, base, txs);
    ConnectedSupply(base, txs);
    OffByMore(base.supply, NetOf(txs), off);
  }

  lemma StepKeeps(v: View, r: Recorded, m: ChainMove)
    requires Kept(v, r)
    ensures Kept(v, Step(v, r, m))
  {
    match m
    case Grow(txs) =>
      if AllAcceptable(r.view, txs) {
        GrowKeeps(v, r, txs, Step(v, r, m));
      }
    case Switch(keep, attach) =>
      if keep <= |r.blocks| {
        Detached(v, r, keep);
        var w := DetachAll(r.view, r.blocks[keep..]);
        if AllAcceptable(w, Flat(attach)) {
          var low := Recorded(r.blocks[..keep], w, r.attached);
          AttachFits(v, low, attach);
          AttachedIsOff(v, low.blocks, w, attach, r.attached);
        }
      }
  }

  ghost function Run(v: View, moves: seq<ChainMove>): (r: Recorded)
    ensures Kept(v, r)
  {
    if moves == [] then
      AddToZero(v.supply);
      Recorded([], v, 0)
    else
      var r, m := Run(v, moves[..|moves| - 1]), moves[|moves| - 1];
      StepKeeps(v, r, m);
      Step(v, r, m)
  }

  /**
   Over every run of connects and reorganizations the recorded key sets, key-ID map and thread tips are those of the
   current chain, and the recorded supply is off by what all reorganizations so far attached on balance: it is right
   exactly when that is nothing modulo 2^64.
   */
  lemma RecordedSupply(v: View, moves: seq<ChainMove>)
    ensures var r := Run(v, moves);
      && r.view.tips == Replay(v, r.blocks).tips && r.view.registers == Replay(v, r.blocks).registers
      && r.view.supply == AddTo(Replay(v, r.blocks).supply, r.attached)
      && (r.view.supply == Replay(v, r.blocks).supply <==> r.attached % TWO64 == 0)
  {
    var r := Run(v, moves);
    SupplyUnchanged(Replay(v, r.blocks).supply, r.attached);
  }
}
