/**
 The admin state over a reorganization (blockchain/chain.go): one view is taken back over the detached blocks,
 connected to the attached ones while they are checked, and connected to them again when they are recorded.
 */
module KeyReorganize {
  import opened Bytes
  import opened KeyView
  import opened KeyParts
  import opened KeyHistory

  lemma AppliedTwice(v: View, w: View, ops: seq<Op>)
    requires w.registers == ApplyAll(v, ops).registers && w.lastKeyID == ApplyAll(v, ops).lastKeyID
    ensures ApplyAll(w, ops).registers == w.registers && ApplyAll(w, ops).lastKeyID == w.lastKeyID
  {
    LastKeyIDIsAbsolute(w, v, ops);
    forall r ensures Get(ApplyAll(w, ops).registers, r) == Get(w.registers, r) {
      AppliedAt(v, ops, r);
      AppliedAt(w, ops, r);
    }
    SameRegisters(ApplyAll(w, ops).registers, w.registers);
  }

  /**
   reorganizeChain connects the attached transactions to one view twice, once while checking them and once
   while connecting them: only the supply counts double.
   */
  lemma ConnectedTwice(v: View, txs: seq<Tx>)
    ensures ConnectAll(ConnectAll(v, txs), txs) ==
      ConnectAll(v, txs).(supply := AddTo(v.supply, NetOf(txs) + NetOf(txs)))
  {
    var w := ConnectAll(v, txs);
    ConnectedParts(v, txs);
    ConnectedParts(w, txs);
    AppliedTwice(v, w, AllOps(txs));
    SupplyAdds(v.supply, NetOf(txs), NetOf(txs));
    MergedTwice(v.tips, TipsOf(txs));
  }

  lemma MergedTwice(a: map<Thread, OutPoint>, b: map<Thread, OutPoint>)
    ensures a + b + b == a + b
  {
  }

  lemma SupplyUnchanged(supply: Uint64, net: int)
    ensures AddTo(supply, net) == supply <==> net % TWO64 == 0
  {
    var k := net / TWO64;
    assert net == k * TWO64 + net % TWO64;
    assert (supply + net % TWO64 + k * TWO64) % TWO64 == (supply + net % TWO64) % TWO64;
    if supply + net % TWO64 >= TWO64 {
      assert (supply + net % TWO64) % TWO64 == supply + net % TWO64 - TWO64;
    } else {
      SmallMod(supply + net % TWO64);
    }
  }

  // ----- lists of blocks -----

  /** The transactions of a list of blocks. */
  function Flat(blocks: seq<TxBlock>): (txs: seq<Tx>) {
    if blocks == [] then [] else Flat(blocks[..|blocks| - 1]) + blocks[|blocks| - 1]
  }

  lemma {:induction false} ConnectInTwo(v: View, a: seq<Tx>, b: seq<Tx>)
    ensures ConnectAll(v, a + b) == ConnectAll(ConnectAll(v, a), b)
  {
    if b == [] {
      assert a + b == a;
    } else {
      assert (a + b)[..|a + b| - 1] == a + b[..|b| - 1];
      ConnectInTwo(v, a, b[..|b| - 1]);
    }
  }

  lemma {:induction false} DisconnectInTwo(v: View, a: seq<Tx>, b: seq<Tx>)
    requires AllHaveInputs(a + b)
    ensures AllHaveInputs(a) && AllHaveInputs(b)
    ensures DisconnectAll(v, a + b) == DisconnectAll(DisconnectAll(v, b), a)
    decreases |b|
  {
    forall i | 0 <= i < |a| ensures HasInputs(a[i]) {
      assert HasInputs((a + b)[i]);
    }
    forall i | 0 <= i < |b| ensures HasInputs(b[i]) {
      assert HasInputs((a + b)[|a| + i]);
    }
    if b == [] {
      assert a + b == a;
    } else {
      var n := |b| - 1;
      assert (a + b)[..|a + b| - 1] == a + b[..n];
      DisconnectInTwo(Disconnect(v, b[n]), a, b[..n]);
    }
  }

  /** Disconnecting blocks from the last to the first. */
  function DetachAll(v: View, blocks: seq<TxBlock>): (v': View)
    requires AllHaveInputs(Flat(blocks))
    decreases |blocks|
  {
    if blocks == [] then
      v
    else
      var n := |blocks| - 1;
      DisconnectInTwo(v, Flat(blocks[..n]), blocks[n]);
      DetachAll(DisconnectAll(v, blocks[n]), blocks[..n])
  }

  lemma {:induction false} DetachIsDisconnect(v: View, blocks: seq<TxBlock>)
    requires AllHaveInputs(Flat(blocks))
    ensures DetachAll(v, blocks) == DisconnectAll(v, Flat(blocks))
    decreases |blocks|
  {
    if blocks != [] {
      var n := |blocks| - 1;
      DisconnectInTwo(v, Flat(blocks[..n]), blocks[n]);
      DetachIsDisconnect(DisconnectAll(v, blocks[n]), blocks[..n]);
    }
  }

  lemma {:induction false} ReplayIsConnect(v: View, blocks: seq<TxBlock>)
    ensures Replay(v, blocks) == ConnectAll(v, Flat(blocks))
  {
    if blocks != [] {
      var n := |blocks| - 1;
      ReplayIsConnect(v, blocks[..n]);
      ConnectInTwo(v, Flat(blocks[..n]), blocks[n]);
    }
  }

  // ----- a reorganization -----

  /** The admin state reorganizeChain records: both loops over the attached blocks use the view it detached from. */
  function Reorganized(current: View, detach: seq<TxBlock>, attach: seq<TxBlock>): (recorded: View)
    requires AllHaveInputs(Flat(detach))
  {
    Replay(Replay(DetachAll(current, detach), attach), attach)
  }

  /** The last key ID of the new chain is right if nothing was lost by detaching, or if it is set anew. */
  lemma ReorganizedKeyID(v: View, w: View, txs: seq<Tx>)
    ensures ConnectAll(w, txs).lastKeyID == ConnectAll(v, txs).lastKeyID
       <==> w.lastKeyID == v.lastKeyID || TotalAdds(txs) > 0
  {
    ConnectedKeyID(v, w, txs);
    ConnectedKeyID(w, v, txs);
  }

  lemma TwiceIsOnce(v: View, txs: seq<Tx>)
    ensures var once, twice := ConnectAll(v, txs), ConnectAll(ConnectAll(v, txs), txs);
      && twice.tips == once.tips && twice.registers == once.registers && twice.lastKeyID == once.lastKeyID
      && (twice.supply == once.supply <==> NetOf(txs) % TWO64 == 0)
  {
    ConnectedTwice(v, txs);
    ConnectedParts(v, txs);
    SupplyAdds(v.supply, NetOf(txs), NetOf(txs));
    SupplyUnchanged(ConnectAll(v, txs).supply, NetOf(txs));
  }

  /**
   The state recorded by a reorganization from the chain of `detach` to that of `attach`, both above `v`, is that
   of the new chain exactly when what it attaches issues nothing on balance and the last key ID either comes back
   when detaching or is set anew when attaching.
   */
  lemma ReorganizedState(v: View, detach: seq<TxBlock>, attach: seq<TxBlock>)
    requires AllAcceptable(v, Flat(detach))
    ensures AllHaveInputs(Flat(detach))
    ensures Reorganized(Replay(v, detach), detach, attach) == Replay(v, attach)
       <==> NetOf(Flat(attach)) % TWO64 == 0 && (Restorable(Flat(detach)) || TotalAdds(Flat(attach)) > 0)
  {
    var down, up := Flat(detach), Flat(attach);
    BlockRoundTrip(v, down);
    ReplayIsConnect(v, detach);
    DetachIsDisconnect(ConnectAll(v, down), detach);
    var w := DisconnectAll(ConnectAll(v, down), down);
    ReplayIsConnect(w, attach);
    ReplayIsConnect(ConnectAll(w, up), attach);
    ReplayIsConnect(v, attach);
    AlikeAfterAll(w, v, up);
    ReorganizedKeyID(v, w, up);
    TwiceIsOnce(w, up);
  }

  lemma {:induction false} CountedOnTogether(a: Uint32, b: Uint32, n: nat)
    ensures CountedOn(a, n) == CountedOn(b, n) ==> a == b
  {
    if n > 0 {
      CountedOnTogether(a, b, n - 1);
    }
  }

  /** A chain that adds key IDs and is acceptable above `v` fails its checks when the last key ID did not come back. */
  lemma UnrestoredRefuses(v: View, detach: seq<TxBlock>, attach: seq<TxBlock>)
    requires AllAcceptable(v, Flat(detach)) && !Restorable(Flat(detach))
    requires AllAcceptable(v, Flat(attach)) && TotalAdds(Flat(attach)) > 0
    ensures AllHaveInputs(Flat(detach)) && !AllAcceptable(DetachAll(Replay(v, detach), detach), Flat(attach))
  {
    var down, up := Flat(detach), Flat(attach);
    BlockRoundTrip(v, down);
    ReplayIsConnect(v, detach);
    DetachIsDisconnect(ConnectAll(v, down), detach);
    var w := DisconnectAll(ConnectAll(v, down), down);
    ConnectedKeyID(v, w, up);
    CountedAfterAll(v, up);
    if AllAcceptable(w, up) {
      CountedAfterAll(w, up);
      CountedOnTogether(v.lastKeyID, w.lastKeyID, TotalAdds(up));
    }
  }

  // ----- where it goes wrong -----

  /** A transaction that issues an amount. */
  function Issuing(v: View, hash: Hash, amount: Int64): (tx: Tx)
    requires IssueThread in v.tips
  {
    var none := Op(true, RootKeySet, Key(0), 0);
    Tx(hash, [v.tips[IssueThread]], Some(IssueThread), [Output(0, false, none), Output(amount, false, none)])
  }

  lemma IssuingIsAcceptable(v: View, hash: Hash, amount: Int64)
    requires IssueThread in v.tips && amount > 0
    ensures AllAcceptable(v, [Issuing(v, hash, amount)]) && NetOf([Issuing(v, hash, amount)]) == amount
  {
    var tx := Issuing(v, hash, amount);
    assert [tx][..0] == [] && ConnectAll(v, [tx][..0]) == v;
    assert AcceptableAt(v, [tx], 0);
    var outputs := AdminOutputs(tx);
    assert outputs == [tx.outputs[1]] && outputs[..0] == [];
    assert Issued(outputs) == Issued(outputs[..0]) + amount;
    assert NetOf([tx]) == NetOf([tx][..0]) + NetIssuance(tx);
  }

  /** What a reorganization records that detaches a block without admin transactions. */
  lemma AttachedBlock(v: View, block: TxBlock)
    ensures Flat([[]]) == [] && Flat([block]) == block && AllHaveInputs(Flat([[]]))
    ensures Reorganized(v, [[]], [block]) == ConnectAll(ConnectAll(v, block), block)
    ensures Replay(v, [block]) == ConnectAll(v, block)
  {
    var detach: seq<TxBlock> := [[]];
    assert detach[..0] == [] && [block][..0] == [];
    assert Flat(detach) == [] && Flat([block]) == block;
    DetachIsDisconnect(v, detach);
    ReplayIsConnect(v, [block]);
    ReplayIsConnect(ConnectAll(v, block), [block]);
  }

  /** Such a transaction is acceptable, and a reorganization that attaches it counts the amount twice. */
  lemma IssuanceCountsTwice(v: View, hash: Hash, amount: Int64)
    requires IssueThread in v.tips && amount > 0
    ensures var block := [Issuing(v, hash, amount)];
      && AllAcceptable(v, block) && AllHaveInputs(Flat([[]]))
      && Replay(v, [block]).supply == AddTo(v.supply, amount)
      && Reorganized(v, [[]], [block]).supply == AddTo(v.supply, 2 * amount) != AddTo(v.supply, amount)
  {
    IssuingIsAcceptable(v, hash, amount);
    BlockCountsTwice(v, [Issuing(v, hash, amount)], amount);
  }

  lemma BlockCountsTwice(v: View, block: TxBlock, amount: nat)
    requires 0 < amount < TWO64 && NetOf(block) == amount
    ensures AllHaveInputs(Flat([[]])) && Replay(v, [block]).supply == AddTo(v.supply, amount)
    ensures Reorganized(v, [[]], [block]).supply == AddTo(v.supply, 2 * amount) != AddTo(v.supply, amount)
  {
    AttachedBlock(v, block);
    var once := ConnectAll(v, block);
    assert once.supply == AddTo(v.supply, amount) by {
      ConnectedSupply(v, block);
    }
    assert ConnectAll(once, block).supply == AddTo(once.supply, amount) by {
      ConnectedSupply(once, block);
    }
    AmountTwice(v.supply, amount);
  }

  lemma AmountTwice(supply: Uint64, amount: nat)
    requires 0 < amount < TWO64
    ensures AddTo(AddTo(supply, amount), amount) == AddTo(supply, 2 * amount) != AddTo(supply, amount)
  {
    SupplyAdds(supply, amount, amount);
    SupplyUnchanged(AddTo(supply, amount), amount);
    SmallMod(amount);
  }

  /**
   A reorganization that detaches two added key IDs and attaches no admin transaction leaves the last one too high.
   */
  lemma DetachedAddsStay(v: View, hash: Hash)
    requires ProvisionThread in v.tips
    requires AspKey(CountedOn(v.lastKeyID, 1)) !in v.registers && AspKey(CountedOn(v.lastKeyID, 2)) !in v.registers
    ensures var detach := [[TwoAdds(v, hash)]];
      && AllAcceptable(v, Flat(detach)) && AllHaveInputs(Flat(detach))
      && Reorganized(Replay(v, detach), detach, [[]]) != v == Replay(v, [[]])
  {
    var detach: seq<TxBlock> := [[TwoAdds(v, hash)]];
    var attach: seq<TxBlock> := [[]];
    TwoAddsAreNotRestored(v, hash);
    BlockRoundTrip(v, [TwoAdds(v, hash)]);
    AttachedBlock(v, [TwoAdds(v, hash)]);
    AttachedBlock(v, []);
    assert Flat(detach) == [TwoAdds(v, hash)] && Flat(attach) == [];
    ReorganizedState(v, detach, attach);
  }

  /** A provisioning transaction that adds the next two key IDs. */
  function TwoAdds(v: View, hash: Hash): (tx: Tx)
    requires ProvisionThread in v.tips
  {
    var first := Op(true, AspKeySet, Key(1), CountedOn(v.lastKeyID, 1));
    var second := Op(true, AspKeySet, Key(2), CountedOn(v.lastKeyID, 2));
    Tx(hash, [v.tips[ProvisionThread]], Some(ProvisionThread),
       [Output(0, false, first), Output(0, true, first), Output(0, true, second)])
  }

  /** Such a transaction is acceptable when the key IDs are free, and undoing it leaves the last key ID one too high. */
  lemma TwoAddsAreNotRestored(v: View, hash: Hash)
    requires ProvisionThread in v.tips
    requires AspKey(CountedOn(v.lastKeyID, 1)) !in v.registers && AspKey(CountedOn(v.lastKeyID, 2)) !in v.registers
    ensures AllAcceptable(v, [TwoAdds(v, hash)]) && AllHaveInputs([TwoAdds(v, hash)])
    ensures DisconnectAll(ConnectAll(v, [TwoAdds(v, hash)]), [TwoAdds(v, hash)]) != v
  {
    var tx := TwoAdds(v, hash);
    var ops := KeyOps(tx);
    assert ops == [tx.outputs[1].op, tx.outputs[2].op];
    assert ops[..1][..0] == [] && ops[..2] == ops;
    assert AspAdds([]) == 0 && AspAdds(ops[..1]) == 1 && AspAdds(ops) == 2;
    assert CountsOn(v.lastKeyID, ops, 0) && CountsOn(v.lastKeyID, ops, 1);
    assert ConnectAll(v, [tx][..0]) == v;
    assert AcceptableAt(v, [tx], 0);
    assert FirstAdds([tx][..0]) == 0 && FirstAdds([tx]) == 2;
    SingleIsOne(2);
    BlockRoundTrip(v, [tx]);
  }
}
