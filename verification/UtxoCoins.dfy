/**
 What connecting does to the coins (blockchain/utxoviewpoint.go), said without the functions that compute it: which
 coins a transaction and a block create, which they spend, which they leave alone, and what the records of their
 spends hold.
 */
module UtxoCoins {
  import opened Bytes
  import opened UtxoView

  // ----- one transaction -----

  /** The coin of one output of a transaction. */
  function OutputCoin(tx: Tx, j: int, height: Uint32): (coin: Coin)
    requires 0 <= j < |tx.outputs|
  {
    Coin(tx.outputs[j].value, tx.version, tx.isCoinBase, height)
  }

  /** Output `j` is stored at index `i`, unless it is unspendable. */
  predicate StoredAt(outputs: seq<Output>, n: nat, i: Uint32, j: int) {
    0 <= j < n <= |outputs| && j % TWO32 == i && !outputs[j].unspendable
  }

  /** Output `j` is the last that is stored at index `i`. */
  ghost predicate LastAt(outputs: seq<Output>, n: nat, i: Uint32, j: int) {
    StoredAt(outputs, n, i, j) && forall k :: StoredAt(outputs, n, i, k) ==> k <= j
  }

  /** The coin a new transaction leaves at an index: that of the last output stored there, if any. */
  ghost predicate Makes(tx: Tx, i: Uint32, height: Uint32, coin: Option<Coin>) {
    match coin
    case None => forall j :: !StoredAt(tx.outputs, |tx.outputs|, i, j)
    case Some(c) => exists j :: LastAt(tx.outputs, |tx.outputs|, i, j) && c == OutputCoin(tx, j, height)
  }

  lemma {:induction false} CreatedAt(outputs: seq<Output>, n: nat, i: Uint32)
    requires n <= |outputs|
    ensures i in Created(outputs, n) ==>
      exists j :: LastAt(outputs, n, i, j) && Created(outputs, n)[i] == Utxo(false, outputs[j].value)
    ensures i !in Created(outputs, n) ==> forall j :: !StoredAt(outputs, n, i, j)
  {
    if n > 0 {
      CreatedAt(outputs, n - 1, i);
      assert forall j :: j < n - 1 ==> StoredAt(outputs, n, i, j) == StoredAt(outputs, n - 1, i, j);
      if StoredAt(outputs, n, i, n - 1) {
        assert LastAt(outputs, n, i, n - 1);
      } else if i in Created(outputs, n - 1) {
        var j :| LastAt(outputs, n - 1, i, j) && Created(outputs, n - 1)[i] == Utxo(false, outputs[j].value);
        assert LastAt(outputs, n, i, j);
      }
    }
  }

  /** With no more outputs than there are indexes, index `i` is that of output `i`. */
  lemma MakesOwnOutput(tx: Tx, i: Uint32, height: Uint32, coin: Option<Coin>)
    requires |tx.outputs| <= TWO32
    ensures Makes(tx, i, height, coin) <==>
      coin == (if i < |tx.outputs| && !tx.outputs[i].unspendable then Some(OutputCoin(tx, i, height)) else None)
  {
    assert forall j :: StoredAt(tx.outputs, |tx.outputs|, i, j) ==> j == i;
    if i < |tx.outputs| && !tx.outputs[i].unspendable {
      assert StoredAt(tx.outputs, |tx.outputs|, i, i);
      assert LastAt(tx.outputs, |tx.outputs|, i, i);
    }
  }

  lemma {:induction false} SpentCoins(f: Entries, inputs: seq<OutPoint>, op: OutPoint)
    requires SpendInputs(f, inputs).Some?
    ensures CoinAt(SpendInputs(f, inputs).value.0, op) == if op in inputs then None else CoinAt(f, op)
  {
    if inputs != [] {
      var init, last := inputs[..|inputs| - 1], inputs[|inputs| - 1];
      SpentCoins(f, init, op);
      assert inputs == init + [last];
      SpendsOne(SpendInputs(f, init).value.0, last, op);
    }
  }

  lemma SpendsOne(f: Entries, spent: OutPoint, op: OutPoint)
    requires SpendInput(f, spent).Some?
    ensures CoinAt(SpendInput(f, spent).value.0, op) == if op == spent then None else CoinAt(f, op)
  {
  }

  /** A transaction that is not there and spends what is. */
  ghost predicate NewTx(f: Entries, tx: Tx) {
    tx.hash !in f && Spendable(f, InputsOf(tx))
  }

  /** The coin at an outpoint after a transaction. */
  ghost predicate TxLeaves(f: Entries, tx: Tx, height: Uint32, op: OutPoint, coin: Option<Coin>) {
    if op.hash == tx.hash then
      Makes(tx, op.index, height, coin)
    else
      coin == if op in InputsOf(tx) then None else CoinAt(f, op)
  }

  ghost predicate TxConnected(f: Entries, tx: Tx, height: Uint32, f': Entries) {
    forall op {:trigger CoinAt(f', op)} :: TxLeaves(f, tx, height, op, CoinAt(f', op))
  }

  lemma AddedCoins(f: Entries, tx: Tx, height: Uint32, op: OutPoint)
    requires tx.hash !in f
    ensures op.hash == tx.hash ==> Makes(tx, op.index, height, CoinAt(AddTxOuts(f, tx, height), op))
    ensures op.hash != tx.hash ==> CoinAt(AddTxOuts(f, tx, height), op) == CoinAt(f, op)
  {
    CreatedAt(tx.outputs, |tx.outputs|, op.index);
  }

  /** A new transaction connects: its spendable outputs are there, its inputs are not, all else is as before. */
  lemma TxCoins(f: Entries, tx: Tx, height: Uint32)
    requires NewTx(f, tx)
    ensures ConnectTx(f, tx, height).Some? && TxConnected(f, tx, height, ConnectTx(f, tx, height).value.0)
  {
    SpendableSpends(f, InputsOf(tx));
    var spent := SpendInputs(f, InputsOf(tx)).value.0;
    SpendKeepsKeys(f, InputsOf(tx));
    forall op ensures TxLeaves(f, tx, height, op, CoinAt(AddTxOuts(spent, tx, height), op)) {
      SpentCoins(f, InputsOf(tx), op);
      AddedCoins(spent, tx, height, op);
    }
  }

  // ----- the records -----

  ghost predicate NoCoins(f: Entries, h: Hash) {
    forall i {:trigger OutPoint(h, i)} :: CoinAt(f, OutPoint(h, i)).None?
  }

  /** The record of spending a coin: what it stood for, and of the last of its transaction all there is to know. */
  function RecordOf(coin: Coin, last: bool): (stxo: Stxo) {
    Stxo(coin.version, last && coin.isCoinBase, if last then coin.height else 0, coin.value)
  }

  lemma OneRecord(f: Entries, op: OutPoint)
    requires CoinAt(f, op).Some?
    ensures SpendInput(f, op).Some?
    ensures var (f', stxo) := SpendInput(f, op).value;
      stxo == RecordOf(CoinAt(f, op).value, NoCoins(f', op.hash))
  {
    var (f', stxo) := SpendInput(f, op).value;
    var e := f'[op.hash];
    if FullySpent(e) {
      assert NoCoins(f', op.hash);
    } else {
      var i :| i in e.outputs && !e.outputs[i].spent;
      assert CoinAt(f', OutPoint(op.hash, i)).Some?;
    }
  }

  /** A record is that of the coin input `k` names. */
  ghost predicate RecordsCoin(f: Entries, inputs: seq<OutPoint>, k: nat, stxo: Stxo)
    requires k < |inputs|
  {
    && CoinAt(f, inputs[k]).Some? && SpendInputs(f, inputs[..k + 1]).Some?
    && stxo ==
        RecordOf(CoinAt(f, inputs[k]).value, NoCoins(SpendInputs(f, inputs[..k + 1]).value.0, inputs[k].hash))
  }

  /** Every record of a transaction is that of the coin its input names. */
  lemma {:induction false} TxRecords(f: Entries, inputs: seq<OutPoint>, k: nat)
    requires Spendable(f, inputs) && k < |inputs|
    ensures SpendInputs(f, inputs).Some? && RecordsCoin(f, inputs, k, SpendInputs(f, inputs).value.1[k])
  {
    var n := |inputs| - 1;
    SpendableSpends(f, inputs);
    SpendablePrefix(f, inputs);
    if k == n {
      assert inputs[..k + 1] == inputs;
      SpentCoins(f, inputs[..n], inputs[n]);
      OneRecord(SpendInputs(f, inputs[..n]).value.0, inputs[n]);
    } else {
      TxRecords(f, inputs[..n], k);
      assert inputs[..n][..k + 1] == inputs[..k + 1];
    }
  }

  // ----- a block -----

  ghost predicate SpentIn(txs: seq<Tx>, op: OutPoint) {
    exists k :: 0 <= k < |txs| && op in InputsOf(txs[k])
  }

  ghost predicate MadeIn(txs: seq<Tx>, h: Hash) {
    exists k :: 0 <= k < |txs| && txs[k].hash == h
  }

  /** The coin at an outpoint after a block: gone if spent, else made by the transaction it names, else as before. */
  ghost predicate BlockLeaves(f: Entries, txs: seq<Tx>, height: Uint32, op: OutPoint, coin: Option<Coin>) {
    if SpentIn(txs, op) then
      coin.None?
    else if MadeIn(txs, op.hash) then
      forall k :: 0 <= k < |txs| && txs[k].hash == op.hash ==> Makes(txs[k], op.index, height, coin)
    else
      coin == CoinAt(f, op)
  }

  ghost predicate BlockConnected(f: Entries, txs: seq<Tx>, height: Uint32, f': Entries) {
    forall op {:trigger CoinAt(f', op)} :: BlockLeaves(f, txs, height, op, CoinAt(f', op))
  }

  lemma SpentInSnoc(txs: seq<Tx>, tx: Tx, op: OutPoint)
    ensures SpentIn(txs + [tx], op) <==> SpentIn(txs, op) || op in InputsOf(tx)
  {
    var all := txs + [tx];
    assert all[|txs|] == tx;
    if SpentIn(txs, op) {
      var k :| 0 <= k < |txs| && op in InputsOf(txs[k]);
      assert all[k] == txs[k];
    }
  }

  lemma MadeInSnoc(txs: seq<Tx>, tx: Tx, h: Hash)
    ensures MadeIn(txs + [tx], h) <==> MadeIn(txs, h) || tx.hash == h
  {
    var all := txs + [tx];
    assert all[|txs|] == tx;
    if MadeIn(txs, h) {
      var k :| 0 <= k < |txs| && txs[k].hash == h;
      assert all[k] == txs[k];
    }
  }

  /** Transactions that were made and coins that were spent keep their entries within the block. */
  ghost predicate Seen(txs: seq<Tx>, f': Entries) {
    && (forall h :: MadeIn(txs, h) ==> h in f')
    && (forall op :: SpentIn(txs, op) ==> op.hash in f')
  }

  lemma SeenNext(txs: seq<Tx>, f: Entries, tx: Tx, height: Uint32)
    requires Seen(txs, f) && NewTx(f, tx)
    ensures ConnectTx(f, tx, height).Some? && Seen(txs + [tx], ConnectTx(f, tx, height).value.0)
  {
    SpendableSpends(f, InputsOf(tx));
    SpendKeepsKeys(f, InputsOf(tx));
    var f' := ConnectTx(f, tx, height).value.0;
    forall h | MadeIn(txs + [tx], h) ensures h in f' {
      MadeInSnoc(txs, tx, h);
    }
    forall op | SpentIn(txs + [tx], op) ensures op.hash in f' {
      SpentInSnoc(txs, tx, op);
      if op in InputsOf(tx) {
        InputsAreCoins(f, InputsOf(tx), op);
      }
    }
  }

  lemma InputsAreCoins(f: Entries, inputs: seq<OutPoint>, op: OutPoint)
    requires Spendable(f, inputs) && op in inputs
    ensures CoinAt(f, op).Some?
  {
    var k :| 0 <= k < |inputs| && inputs[k] == op;
    TxRecords(f, inputs, k);
  }

  /** One more transaction. */
  lemma LeavesNext(f0: Entries, txs: seq<Tx>, height: Uint32, f: Entries, tx: Tx, op: OutPoint, coin: Option<Coin>)
    requires BlockLeaves(f0, txs, height, op, CoinAt(f, op)) && Seen(txs, f)
    requires NewTx(f, tx) && TxLeaves(f, tx, height, op, coin)
    ensures BlockLeaves(f0, txs + [tx], height, op, coin)
  {
    SpentInSnoc(txs, tx, op);
    MadeInSnoc(txs, tx, op.hash);
    if op in InputsOf(tx) {
      InputsAreCoins(f, InputsOf(tx), op);
    }
    var all := txs + [tx];
    forall k | 0 <= k < |all| && all[k].hash == op.hash && !SpentIn(all, op)
      ensures Makes(all[k], op.index, height, coin)
    {
      if k < |txs| {
        assert MadeIn(txs, op.hash);
      }
    }
  }

  /** A valid block connects, and leaves of every coin what its transactions say. */
  lemma {:induction false} BlockCoins(f: Entries, txs: seq<Tx>, height: Uint32)
    requires ValidBlock(f, txs, height)
    ensures ConnectTxs(f, txs, height).Some?
    ensures var f' := ConnectTxs(f, txs, height).value.0; BlockConnected(f, txs, height, f') && Seen(txs, f')
  {
    if txs != [] {
      var init, tx := txs[..|txs| - 1], txs[|txs| - 1];
      ValidPrefix(f, txs, height);
      BlockCoins(f, init, height);
      var before := ConnectTxs(f, init, height).value.0;
      TxCoins(before, tx, height);
      SeenNext(init, before, tx, height);
      assert init + [tx] == txs;
      var f' := ConnectTxs(f, txs, height).value.0;
      forall op ensures BlockLeaves(f, txs, height, op, CoinAt(f', op)) {
        LeavesNext(f, init, height, before, tx, op, CoinAt(f', op));
      }
    }
  }

  /** The records of a block begin with those of its first transactions. */
  lemma {:induction false} RecordsBegin(f: Entries, txs: seq<Tx>, height: Uint32, k: nat)
    requires k <= |txs| && ConnectTxs(f, txs, height).Some?
    ensures ConnectTxs(f, txs[..k], height).Some?
    ensures ConnectTxs(f, txs[..k], height).value.1 <= ConnectTxs(f, txs, height).value.1
  {
    if k == |txs| {
      assert txs[..k] == txs;
    } else {
      var init := txs[..|txs| - 1];
      RecordsBegin(f, init, height, k);
      assert init[..k] == txs[..k];
    }
  }

  lemma ConnectNext(f: Entries, txs: seq<Tx>, height: Uint32, k: nat)
    requires k < |txs| && ConnectTxs(f, txs[..k], height).Some?
    requires ConnectTx(ConnectTxs(f, txs[..k], height).value.0, txs[k], height).Some?
    ensures ConnectTxs(f, txs[..k + 1], height).Some?
    ensures var (before, stxos) := ConnectTxs(f, txs[..k], height).value;
      ConnectTxs(f, txs[..k + 1], height).value.1 == stxos + ConnectTx(before, txs[k], height).value.1
  {
    assert txs[..k + 1][..k] == txs[..k];
  }

  /** Records for all inputs of a transaction. */
  ghost predicate AllRecords(f: Entries, inputs: seq<OutPoint>, stxos: seq<Stxo>) {
    && |stxos| == |inputs|
    && forall j {:trigger stxos[j]} :: 0 <= j < |inputs| ==> RecordsCoin(f, inputs, j, stxos[j])
  }

  lemma ConnectedRecords(f: Entries, tx: Tx, height: Uint32)
    requires NewTx(f, tx)
    ensures ConnectTx(f, tx, height).Some? && AllRecords(f, InputsOf(tx), ConnectTx(f, tx, height).value.1)
  {
    SpendableSpends(f, InputsOf(tx));
    var stxos := SpendInputs(f, InputsOf(tx)).value.1;
    forall j | 0 <= j < |InputsOf(tx)| ensures RecordsCoin(f, InputsOf(tx), j, stxos[j]) {
      TxRecords(f, InputsOf(tx), j);
    }
  }

  /** The part of the records that one transaction adds. */
  lemma RecordsInside(f: Entries, txs: seq<Tx>, height: Uint32, after: (Entries, seq<Stxo>), k: nat,
      before: (Entries, seq<Stxo>)) returns (next: seq<Stxo>)
    requires ValidBlock(f, txs, height) && ConnectTxs(f, txs, height) == Some(after)
    requires k < |txs| && ConnectTxs(f, txs[..k], height) == Some(before)
    ensures before.1 + next <= after.1 && AllRecords(before.0, InputsOf(txs[k]), next)
  {
    assert ValidAt(f, txs, height, k);
    ConnectedRecords(before.0, txs[k], height);
    ConnectNext(f, txs, height, k);
    RecordsBegin(f, txs, height, k + 1);
    next := ConnectTx(before.0, txs[k], height).value.1;
  }

  lemma RecordAt(all: seq<Stxo>, first: seq<Stxo>, next: seq<Stxo>, j: nat)
    requires first + next <= all && j < |next|
    ensures |first| + j < |all| && all[|first| + j] == next[j]
  {
    assert (first + next)[|first| + j] == next[j];
  }

  /** Every record of a block is that of the coin its input names, as the transactions before it left it. */
  lemma RecordsHoldCoins(f: Entries, txs: seq<Tx>, height: Uint32, after: (Entries, seq<Stxo>), k: nat,
      before: (Entries, seq<Stxo>), j: nat)
    requires ValidBlock(f, txs, height) && ConnectTxs(f, txs, height) == Some(after)
    requires k < |txs| && ConnectTxs(f, txs[..k], height) == Some(before) && j < |InputsOf(txs[k])|
    ensures |before.1| + j < |after.1|
    ensures RecordsCoin(before.0, InputsOf(txs[k]), j, after.1[|before.1| + j])
  {
    var next := RecordsInside(f, txs, height, after, k, before);
    RecordAt(after.1, before.1, next, j);
  }
}
