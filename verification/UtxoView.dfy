/**
 Connecting and disconnecting blocks on the set of unspent outputs (blockchain/utxoviewpoint.go): what a block
 spends and creates, the record kept of each spend, and why undoing a block with those records restores the set.
 Outputs are compared by the amount and script they stand for, whether held in compressed form or not.
 */
module UtxoView {
  import opened Bytes

  datatype Value = Value(amount: Int64, script: Bytes)

  datatype Utxo = Utxo(spent: bool, value: Value)

  /** UtxoEntry. */
  datatype Entry = Entry(version: Int32, isCoinBase: bool, height: Uint32, outputs: map<Uint32, Utxo>)

  type Entries = map<Hash, Entry>

  /** spentTxOut. */
  datatype Stxo = Stxo(version: Int32, isCoinBase: bool, height: Uint32, value: Value)

  datatype Output = Output(value: Value, unspendable: bool)

  datatype Tx = Tx(hash: Hash, version: Int32, isCoinBase: bool, inputs: seq<OutPoint>, outputs: seq<Output>)

  // ----- the coins of a view -----

  /** An unspent output, with what its entry says about its transaction. */
  datatype Coin = Coin(value: Value, version: Int32, isCoinBase: bool, height: Uint32)

  function CoinAt(entries: Entries, op: OutPoint): (coin: Option<Coin>) {
    if op.hash in entries && op.index in entries[op.hash].outputs && !entries[op.hash].outputs[op.index].spent then
      var e := entries[op.hash];
      Some(Coin(e.outputs[op.index].value, e.version, e.isCoinBase, e.height))
    else
      None
  }

  ghost predicate SameCoins(a: Entries, b: Entries) {
    forall op {:trigger CoinAt(a, op)} {:trigger CoinAt(b, op)} :: CoinAt(a, op) == CoinAt(b, op)
  }

  predicate FullySpent(e: Entry) {
    forall i :: i in e.outputs ==> e.outputs[i].spent
  }

  /** What is stored of a view: the entries that are not fully spent, without their spent outputs. */
  function Pruned(entries: Entries): (r: Entries) {
    map h | h in entries && !FullySpent(entries[h]) :: Unspent(entries[h])
  }

  function Unspent(e: Entry): (r: Entry) {
    e.(outputs := map i | i in e.outputs && !e.outputs[i].spent :: e.outputs[i])
  }

  // ----- connecting -----

  /** SpendOutput. */
  function Spend(e: Entry, i: Uint32): (e': Entry) {
    if i in e.outputs then e.(outputs := e.outputs[i := e.outputs[i].(spent := true)]) else e
  }

  /** AmountByIndex and PkScriptByIndex. */
  function ValueAt(e: Entry, i: Uint32): (value: Value) {
    if i in e.outputs then e.outputs[i].value else Value(0, [])
  }

  /** The record of a spend; the last one of an entry also keeps what the entry said. */
  function Record(e: Entry, i: Uint32): (stxo: Stxo) {
    if FullySpent(e) then Stxo(e.version, e.isCoinBase, e.height, ValueAt(e, i))
    else Stxo(e.version, false, 0, ValueAt(e, i))
  }

  /** One round of the input loop of connectTransaction. */
  function SpendInput(entries: Entries, op: OutPoint): (r: Option<(Entries, Stxo)>) {
    if op.hash !in entries then
      None
    else
      var e := Spend(entries[op.hash], op.index);
      Some((entries[op.hash := e], Record(e, op.index)))
  }

  function SpendInputs(entries: Entries, inputs: seq<OutPoint>): (r: Option<(Entries, seq<Stxo>)>)
    ensures r.Some? ==> |r.value.1| == |inputs|
  {
    if inputs == [] then
      Some((entries, []))
    else
      var init := SpendInputs(entries, inputs[..|inputs| - 1]);
      if init.None? then
        None
      else
        var last := SpendInput(init.value.0, inputs[|inputs| - 1]);
        if last.None? then None else Some((last.value.0, init.value.1 + [last.value.1]))
  }

  /** The spendable ones among the first `n` outputs of a transaction. */
  function Created(outputs: seq<Output>, n: nat): (r: map<Uint32, Utxo>)
    requires n <= |outputs|
  {
    if n == 0 then
      map[]
    else
      var earlier := Created(outputs, n - 1);
      if outputs[n - 1].unspendable then earlier else earlier[(n - 1) % TWO32 := Utxo(false, outputs[n - 1].value)]
  }

  /** AddTxOuts: an entry that is there already keeps its version and coinbase flag. */
  function AddTxOuts(entries: Entries, tx: Tx, height: Uint32): (entries': Entries) {
    var e := if tx.hash in entries then entries[tx.hash].(height := height)
             else Entry(tx.version, tx.isCoinBase, height, map[]);
    entries[tx.hash := e.(outputs := e.outputs + Created(tx.outputs, |tx.outputs|))]
  }

  /** The outputs a transaction spends: none for a coinbase. */
  function InputsOf(tx: Tx): (inputs: seq<OutPoint>) {
    if tx.isCoinBase then [] else tx.inputs
  }

  /** connectTransaction. */
  function ConnectTx(entries: Entries, tx: Tx, height: Uint32): (r: Option<(Entries, seq<Stxo>)>)
    ensures r.Some? ==> |r.value.1| == |InputsOf(tx)|
  {
    var spent := SpendInputs(entries, InputsOf(tx));
    if spent.None? then None else Some((AddTxOuts(spent.value.0, tx, height), spent.value.1))
  }

  /** connectTransactions. */
  function ConnectTxs(entries: Entries, txs: seq<Tx>, height: Uint32): (r: Option<(Entries, seq<Stxo>)>)
    ensures r.Some? ==> |r.value.1| == CountInputs(txs)
  {
    if txs == [] then
      Some((entries, []))
    else
      var init := ConnectTxs(entries, txs[..|txs| - 1], height);
      if init.None? then
        None
      else
        var last := ConnectTx(init.value.0, txs[|txs| - 1], height);
        if last.None? then None else Some((last.value.0, init.value.1 + last.value.1))
  }

  function CountInputs(txs: seq<Tx>): (n: nat) {
    if txs == [] then 0 else CountInputs(txs[..|txs| - 1]) + |InputsOf(txs[|txs| - 1])|
  }

  // ----- disconnecting -----

  /** Clears what a transaction created. */
  function ClearTx(entries: Entries, tx: Tx, height: Uint32): (entries': Entries) {
    var e := if tx.hash in entries then entries[tx.hash] else Entry(tx.version, tx.isCoinBase, height, map[]);
    entries[tx.hash := e.(outputs := map[])]
  }

  /** Restores one spent output; an entry that is gone comes back from the record. */
  function Unspend(entries: Entries, op: OutPoint, stxo: Stxo): (entries': Entries) {
    var e := if op.hash in entries then entries[op.hash] else Entry(stxo.version, stxo.isCoinBase, stxo.height, map[]);
    var utxo := if op.index in e.outputs then e.outputs[op.index].(spent := false) else Utxo(false, stxo.value);
    entries[op.hash := e.(outputs := e.outputs[op.index := utxo])]
  }

  /** The input loop of disconnectTransactions, from the last input to the first. */
  function UnspendInputs(entries: Entries, inputs: seq<OutPoint>, stxos: seq<Stxo>): (entries': Entries)
    requires |inputs| == |stxos|
    decreases |inputs|
  {
    if inputs == [] then
      entries
    else
      var n := |inputs| - 1;
      UnspendInputs(Unspend(entries, inputs[n], stxos[n]), inputs[..n], stxos[..n])
  }

  function DisconnectTx(entries: Entries, tx: Tx, stxos: seq<Stxo>, height: Uint32): (entries': Entries)
    requires |stxos| == |InputsOf(tx)|
  {
    UnspendInputs(ClearTx(entries, tx, height), InputsOf(tx), stxos)
  }

  /** disconnectTransactions, from the last transaction to the first. */
  function DisconnectTxs(entries: Entries, txs: seq<Tx>, stxos: seq<Stxo>, height: Uint32): (entries': Entries)
    requires |stxos| == CountInputs(txs)
    decreases |txs|
  {
    if txs == [] then
      entries
    else
      var n := |txs| - 1;
      var split := |stxos| - |InputsOf(txs[n])|;
      DisconnectTxs(DisconnectTx(entries, txs[n], stxos[split..], height), txs[..n], stxos[..split], height)
  }

  // ----- what validation promises -----

  /** Every input finds its output unspent when its turn comes. */
  ghost predicate Spendable(entries: Entries, inputs: seq<OutPoint>) {
    forall k {:trigger SpendableAt(entries, inputs, k)} :: 0 <= k < |inputs| ==> SpendableAt(entries, inputs, k)
  }

  ghost predicate SpendableAt(entries: Entries, inputs: seq<OutPoint>, k: nat)
    requires k < |inputs|
  {
    var before := SpendInputs(entries, inputs[..k]);
    before.Some? && CoinAt(before.value.0, inputs[k]).Some?
  }

  /** Every transaction is new when its turn comes, and spends what is there. */
  ghost predicate ValidBlock(entries: Entries, txs: seq<Tx>, height: Uint32) {
    forall k {:trigger ValidAt(entries, txs, height, k)} :: 0 <= k < |txs| ==> ValidAt(entries, txs, height, k)
  }

  ghost predicate ValidAt(entries: Entries, txs: seq<Tx>, height: Uint32, k: nat)
    requires k < |txs|
  {
    var before := ConnectTxs(entries, txs[..k], height);
    before.Some? && txs[k].hash !in before.value.0 && Spendable(before.value.0, InputsOf(txs[k]))
  }

  lemma SpendablePrefix(entries: Entries, inputs: seq<OutPoint>)
    requires inputs != [] && Spendable(entries, inputs)
    ensures Spendable(entries, inputs[..|inputs| - 1]) && SpendableAt(entries, inputs, |inputs| - 1)
  {
    var init := inputs[..|inputs| - 1];
    forall k | 0 <= k < |init| ensures SpendableAt(entries, init, k) {
      assert SpendableAt(entries, inputs, k);
      assert init[..k] == inputs[..k];
    }
  }

  lemma ValidPrefix(entries: Entries, txs: seq<Tx>, height: Uint32)
    requires txs != [] && ValidBlock(entries, txs, height)
    ensures ValidBlock(entries, txs[..|txs| - 1], height) && ValidAt(entries, txs, height, |txs| - 1)
  {
    var init := txs[..|txs| - 1];
    forall k | 0 <= k < |init| ensures ValidAt(entries, init, height, k) {
      assert ValidAt(entries, txs, height, k);
      assert init[..k] == txs[..k];
    }
  }

  lemma {:induction false} SpendableSpends(entries: Entries, inputs: seq<OutPoint>)
    requires Spendable(entries, inputs)
    ensures SpendInputs(entries, inputs).Some?
  {
    if inputs != [] {
      SpendablePrefix(entries, inputs);
    }
  }

  /** A valid block connects without an error. */
  lemma {:induction false} ValidConnects(entries: Entries, txs: seq<Tx>, height: Uint32)
    requires ValidBlock(entries, txs, height)
    ensures ConnectTxs(entries, txs, height).Some?
  {
    if txs != [] {
      ValidPrefix(entries, txs, height);
      SpendableSpends(ConnectTxs(entries, txs[..|txs| - 1], height).value.0, InputsOf(txs[|txs| - 1]));
    }
  }

  // ----- undoing mirrors doing -----

  /** No output is marked spent, and only entries of `cleared` transactions have no outputs. */
  ghost predicate Healthy(entries: Entries, cleared: set<Hash>) {
    forall h {:trigger HealthyAt(entries, cleared, h)} :: h in entries ==> HealthyAt(entries, cleared, h)
  }

  ghost predicate HealthyAt(entries: Entries, cleared: set<Hash>, h: Hash)
    requires h in entries
  {
    && (forall i :: i in entries[h].outputs ==> !entries[h].outputs[i].spent)
    && (entries[h].outputs == map[] ==> h in cleared)
  }

  /** A view under undoing stands for the same coins as a view under doing. */
  ghost predicate Mirrors(f: Entries, v: Entries, cleared: set<Hash>) {
    SameCoins(f, v) && Healthy(v, cleared)
  }

  /** An entry that was spent down to nothing left its details in the record; any other is still there. */
  lemma MetaRecovered(f: Entries, op: OutPoint, v: Entries, cleared: set<Hash>)
    requires CoinAt(f, op).Some? && op.hash !in cleared
    requires Mirrors(SpendInput(f, op).value.0, v, cleared)
    ensures var stxo := SpendInput(f, op).value.1;
      var e := if op.hash in v then v[op.hash] else Entry(stxo.version, stxo.isCoinBase, stxo.height, map[]);
      && e.version == f[op.hash].version && e.isCoinBase == f[op.hash].isCoinBase && e.height == f[op.hash].height
      && op.index !in e.outputs
  {
    var f' := SpendInput(f, op).value.0;
    var h := op.hash;
    assert CoinAt(f', op).None? && CoinAt(v, op).None?;
    if h in v {
      assert HealthyAt(v, cleared, h);
      assert v[h].outputs.Keys != {};
      var i :| i in v[h].outputs;
      assert CoinAt(v, OutPoint(h, i)) == CoinAt(f', OutPoint(h, i));
    } else {
      forall i | i in f'[h].outputs ensures f'[h].outputs[i].spent {
        assert CoinAt(f', OutPoint(h, i)) == CoinAt(v, OutPoint(h, i));
      }
    }
  }

  lemma UnspendMirrors(f: Entries, op: OutPoint, v: Entries, cleared: set<Hash>)
    requires CoinAt(f, op).Some? && op.hash !in cleared
    requires Mirrors(SpendInput(f, op).value.0, v, cleared)
    ensures Mirrors(f, Unspend(v, op, SpendInput(f, op).value.1), cleared)
  {
    var (f', stxo) := SpendInput(f, op).value;
    var v' := Unspend(v, op, stxo);
    MetaRecovered(f, op, v, cleared);
    forall p ensures CoinAt(f, p) == CoinAt(v', p) {
      assert CoinAt(f', p) == CoinAt(v, p);
    }
    forall h | h in v' ensures HealthyAt(v', cleared, h) {
      if h in v {
        assert HealthyAt(v, cleared, h);
      }
      if h == op.hash {
        assert op.index in v'[h].outputs;
      }
    }
  }

  lemma {:induction false} SpendKeepsKeys(f: Entries, inputs: seq<OutPoint>)
    requires SpendInputs(f, inputs).Some?
    ensures SpendInputs(f, inputs).value.0.Keys == f.Keys
  {
    if inputs != [] {
      SpendKeepsKeys(f, inputs[..|inputs| - 1]);
    }
  }

  lemma {:induction false} InputsMirror(f: Entries, inputs: seq<OutPoint>, v: Entries, cleared: set<Hash>)
    requires SpendInputs(f, inputs).Some? && Spendable(f, inputs) && cleared !! f.Keys
    requires Mirrors(SpendInputs(f, inputs).value.0, v, cleared)
    ensures Mirrors(f, UnspendInputs(v, inputs, SpendInputs(f, inputs).value.1), cleared)
    decreases |inputs|
  {
    if inputs != [] {
      var init, op := inputs[..|inputs| - 1], inputs[|inputs| - 1];
      SpendablePrefix(f, inputs);
      SpendKeepsKeys(f, init);
      var before := SpendInputs(f, init).value;
      var stxo := SpendInput(before.0, op).value.1;
      UnspendMirrors(before.0, op, v, cleared);
      InputsMirror(f, init, Unspend(v, op, stxo), cleared);
      assert (before.1 + [stxo])[..|init|] == before.1;
    }
  }

  lemma ClearMirrors(f: Entries, tx: Tx, height: Uint32, v: Entries, cleared: set<Hash>)
    requires tx.hash !in f && Mirrors(AddTxOuts(f, tx, height), v, cleared)
    ensures Mirrors(f, ClearTx(v, tx, height), cleared + {tx.hash})
  {
    var f', v' := AddTxOuts(f, tx, height), ClearTx(v, tx, height);
    forall p ensures CoinAt(f, p) == CoinAt(v', p) {
      assert CoinAt(f', p) == CoinAt(v, p);
    }
    forall h | h in v' ensures HealthyAt(v', cleared + {tx.hash}, h) {
      if h in v {
        assert HealthyAt(v, cleared, h);
      }
    }
  }

  lemma TxMirrors(f: Entries, tx: Tx, height: Uint32, v: Entries, cleared: set<Hash>)
    requires tx.hash !in f && Spendable(f, InputsOf(tx)) && cleared !! f.Keys
    requires ConnectTx(f, tx, height).Some? && Mirrors(ConnectTx(f, tx, height).value.0, v, cleared)
    ensures Mirrors(f, DisconnectTx(v, tx, ConnectTx(f, tx, height).value.1, height), cleared + {tx.hash})
  {
    var spent := SpendInputs(f, InputsOf(tx)).value.0;
    SpendKeepsKeys(f, InputsOf(tx));
    ClearMirrors(spent, tx, height, v, cleared);
    InputsMirror(f, InputsOf(tx), ClearTx(v, tx, height), cleared + {tx.hash});
  }

  lemma {:induction false} BlockMirrors(f: Entries, txs: seq<Tx>, height: Uint32, v: Entries, cleared: set<Hash>)
      returns (all: set<Hash>)
    requires ConnectTxs(f, txs, height).Some? && ValidBlock(f, txs, height)
    requires cleared !! ConnectTxs(f, txs, height).value.0.Keys
    requires Mirrors(ConnectTxs(f, txs, height).value.0, v, cleared)
    ensures Mirrors(f, DisconnectTxs(v, txs, ConnectTxs(f, txs, height).value.1, height), all)
    decreases |txs|
  {
    if txs == [] {
      all := cleared;
    } else {
      var init, tx := txs[..|txs| - 1], txs[|txs| - 1];
      ValidPrefix(f, txs, height);
      var before := ConnectTxs(f, init, height).value;
      var last := ConnectTx(before.0, tx, height).value;
      SpendKeepsKeys(before.0, InputsOf(tx));
      TxMirrors(before.0, tx, height, v, cleared);
      SplitRecords(before.1, last.1);
      all := BlockMirrors(f, init, height, DisconnectTx(v, tx, last.1, height), cleared + {tx.hash});
    }
  }

  lemma SplitRecords(a: seq<Stxo>, b: seq<Stxo>)
    ensures (a + b)[..|a + b| - |b|] == a && (a + b)[|a + b| - |b|..] == b
  {
  }

  // ----- the stored set -----

  lemma PrunedKeepsCoins(entries: Entries)
    ensures Mirrors(entries, Pruned(entries), {})
  {
    var r := Pruned(entries);
    forall p ensures CoinAt(entries, p) == CoinAt(r, p) {
    }
    forall h | h in r ensures HealthyAt(r, {}, h) {
      var i :| i in entries[h].outputs && !entries[h].outputs[i].spent;
      assert i in r[h].outputs;
    }
  }

  lemma SameCoinsSameStore(a: Entries, b: Entries)
    requires SameCoins(a, b)
    ensures Pruned(a) == Pruned(b)
  {
    forall h ensures h in Pruned(a) ==> h in Pruned(b) && Pruned(a)[h] == Pruned(b)[h] {
      SameCoinsAt(a, b, h);
    }
    forall h ensures h in Pruned(b) ==> h in Pruned(a) {
      SameCoinsAt(b, a, h);
    }
  }

  lemma SameCoinsAt(a: Entries, b: Entries, h: Hash)
    requires SameCoins(a, b)
    ensures h in Pruned(a) ==> h in Pruned(b) && Pruned(a)[h] == Pruned(b)[h]
  {
    if h in Pruned(a) {
      var i :| i in a[h].outputs && !a[h].outputs[i].spent;
      assert CoinAt(a, OutPoint(h, i)) == CoinAt(b, OutPoint(h, i));
      forall j: Uint32 ensures j in Unspent(a[h]).outputs <==> j in Unspent(b[h]).outputs {
        assert CoinAt(a, OutPoint(h, j)) == CoinAt(b, OutPoint(h, j));
      }
      forall j: Uint32 | j in Unspent(a[h]).outputs ensures Unspent(a[h]).outputs[j] == Unspent(b[h]).outputs[j] {
        assert CoinAt(a, OutPoint(h, j)) == CoinAt(b, OutPoint(h, j));
      }
      assert Unspent(a[h]).outputs == Unspent(b[h]).outputs;
    }
  }

  /** Disconnecting a valid block from the stored set with its records gives back the set it was connected to. */
  lemma BlockRestored(entries: Entries, txs: seq<Tx>, height: Uint32)
    requires ValidBlock(entries, txs, height)
    ensures ConnectTxs(entries, txs, height).Some?
    ensures var (after, stxos) := ConnectTxs(entries, txs, height).value;
      Pruned(DisconnectTxs(Pruned(after), txs, stxos, height)) == Pruned(entries)
  {
    ValidConnects(entries, txs, height);
    var (after, stxos) := ConnectTxs(entries, txs, height).value;
    PrunedKeepsCoins(after);
    var all := BlockMirrors(entries, txs, height, Pruned(after), {});
    SameCoinsSameStore(DisconnectTxs(Pruned(after), txs, stxos, height), entries);
  }

  lemma PrunedTwice(entries: Entries)
    ensures Pruned(Pruned(entries)) == Pruned(entries)
  {
    PrunedKeepsCoins(entries);
    SameCoinsSameStore(Pruned(entries), entries);
  }

  // ----- runs -----

  datatype Block = Block(txs: seq<Tx>, height: Uint32)

  /** The stored set after a valid block. */
  function Stored(entries: Entries, b: Block): (r: Entries)
    requires ConnectTxs(entries, b.txs, b.height).Some?
  {
    Pruned(ConnectTxs(entries, b.txs, b.height).value.0)
  }

  datatype Move = Extend(block: Block) | Retract

  /** The connected blocks, and the stored sets they were connected to with the current one last. */
  datatype History = History(blocks: seq<Block>, sets: seq<Entries>)

  /** Block `k` is valid on set `k` and leads to the next one. */
  ghost predicate LeadsOn(h: History, k: nat)
    requires k < |h.blocks| && k + 1 < |h.sets|
  {
    && ValidBlock(h.sets[k], h.blocks[k].txs, h.blocks[k].height)
    && ConnectTxs(h.sets[k], h.blocks[k].txs, h.blocks[k].height).Some?
    && h.sets[k + 1] == Stored(h.sets[k], h.blocks[k])
    && Pruned(h.sets[k]) == h.sets[k]
  }

  ghost predicate Consistent(h: History) {
    && |h.sets| == |h.blocks| + 1
    && forall k {:trigger LeadsOn(h, k)} :: 0 <= k < |h.blocks| ==> LeadsOn(h, k)
  }

  /** A valid block is connected at the tip; the tip is disconnected with the records of its connection. */
  ghost function Step(h: History, m: Move): (h': History)
    requires Consistent(h)
  {
    var n := |h.blocks|;
    match m
    case Extend(b) =>
      if ValidBlock(h.sets[n], b.txs, b.height) then
        ValidConnects(h.sets[n], b.txs, b.height);
        History(h.blocks + [b], h.sets + [Stored(h.sets[n], b)])
      else
        h
    case Retract =>
      if n == 0 then
        h
      else
        assert LeadsOn(h, n - 1);
        var b := h.blocks[n - 1];
        var stxos := ConnectTxs(h.sets[n - 1], b.txs, b.height).value.1;
        History(h.blocks[..n - 1], h.sets[..n - 1] + [Pruned(DisconnectTxs(h.sets[n], b.txs, stxos, b.height))])
  }

  lemma ExtendConsistent(h: History, b: Block)
    requires Consistent(h) && Pruned(h.sets[|h.blocks|]) == h.sets[|h.blocks|]
    ensures Consistent(Step(h, Extend(b)))
    ensures var h' := Step(h, Extend(b)); Pruned(h'.sets[|h'.blocks|]) == h'.sets[|h'.blocks|]
  {
    var h', n := Step(h, Extend(b)), |h.blocks|;
    if h' != h {
      ValidConnects(h.sets[n], b.txs, b.height);
      PrunedTwice(ConnectTxs(h.sets[n], b.txs, b.height).value.0);
      forall k | 0 <= k < |h'.blocks| ensures LeadsOn(h', k) {
        if k < n {
          assert LeadsOn(h, k);
        }
      }
    }
  }

  lemma TakeOneMore<T>(s: seq<T>, n: nat)
    requires n < |s|
    ensures s[..n + 1] == s[..n] + [s[n]]
  {
  }

  /** Taking the tip off brings back the very set it was connected to. */
  lemma RetractRestores(h: History)
    requires Consistent(h) && h.blocks != []
    ensures Step(h, Retract) == History(h.blocks[..|h.blocks| - 1], h.sets[..|h.blocks|])
  {
    var n := |h.blocks| - 1;
    assert LeadsOn(h, n);
    BlockRestored(h.sets[n], h.blocks[n].txs, h.blocks[n].height);
    TakeOneMore(h.sets, n);
  }

  lemma RetractConsistent(h: History)
    requires Consistent(h) && h.blocks != []
    ensures Consistent(Step(h, Retract))
    ensures var h' := Step(h, Retract); Pruned(h'.sets[|h'.blocks|]) == h'.sets[|h'.blocks|]
  {
    RetractRestores(h);
    var h' := Step(h, Retract);
    assert LeadsOn(h, |h.blocks| - 1);
    forall k | 0 <= k < |h'.blocks| ensures LeadsOn(h', k) {
      assert LeadsOn(h, k);
    }
  }

  /** The history after a run of moves from a stored set. */
  ghost function Run(entries: Entries, moves: seq<Move>): (h: History)
    ensures Consistent(h) && h.sets[0] == Pruned(entries) && Pruned(h.sets[|h.blocks|]) == h.sets[|h.blocks|]
  {
    if moves == [] then
      PrunedTwice(entries);
      History([], [Pruned(entries)])
    else
      var h, m := Run(entries, moves[..|moves| - 1]), moves[|moves| - 1];
      if m.Extend? then
        ExtendConsistent(h, m.block);
        Step(h, m)
      else if h.blocks == [] then
        h
      else
        RetractConsistent(h);
        RetractRestores(h);
        Step(h, m)
  }

  /** The stored set obtained by connecting only the given blocks. */
  ghost predicate Replays(entries: Entries, blocks: seq<Block>, r: Entries)
    decreases |blocks|
  {
    if blocks == [] then
      r == entries
    else
      var b := blocks[0];
      ConnectTxs(entries, b.txs, b.height).Some? && Replays(Stored(entries, b), blocks[1..], r)
  }

  lemma {:induction false} ConsistentReplays(h: History, k: nat)
    requires Consistent(h) && k <= |h.blocks|
    ensures Replays(h.sets[k], h.blocks[k..], h.sets[|h.blocks|])
    decreases |h.blocks| - k
  {
    if k < |h.blocks| {
      assert LeadsOn(h, k);
      ConsistentReplays(h, k + 1);
      assert h.blocks[k..][1..] == h.blocks[k + 1..];
    }
  }

  /** After any run of connects and disconnects the stored set is that of connecting only the current chain. */
  lemma HistoryIndependent(entries: Entries, moves: seq<Move>)
    ensures var h := Run(entries, moves); Replays(Pruned(entries), h.blocks, h.sets[|h.blocks|])
  {
    var h := Run(entries, moves);
    ConsistentReplays(h, 0);
    assert h.blocks[0..] == h.blocks;
  }
}
