/**
 The utxo viewpoint as the node runs it (blockchain/utxoviewpoint.go): the loops that spend, create and restore
 outputs in place, proved to compute the functions of UtxoView.
 */
module UtxoViewpoint {
  import opened Bytes
  import opened UtxoView
  import opened UtxoCoins

  class UtxoViewpoint {
    var entries: Entries

    constructor (entries: Entries)
      ensures this.entries == entries
    {
      this.entries := entries;
    }

    /** AddTxOuts. */
    method AddTxOuts(tx: Tx, height: Uint32)
      modifies this
      ensures entries == UtxoView.AddTxOuts(old(entries), tx, height)
    {
      var e := if tx.hash in entries then entries[tx.hash].(height := height)
               else Entry(tx.version, tx.isCoinBase, height, map[]);
      ghost var e0 := e;
      for i := 0 to |tx.outputs|
        invariant e == e0.(outputs := e0.outputs + Created(tx.outputs, i)) && entries == old(entries)
      {
        if !tx.outputs[i].unspendable {
          e := e.(outputs := e.outputs[i % TWO32 := Utxo(false, tx.outputs[i].value)]);
        }
      }
      entries := entries[tx.hash := e];
    }

    /** The input loop of connectTransaction. */
    method SpendAll(inputs: seq<OutPoint>) returns (ok: bool, stxos: seq<Stxo>)
      modifies this
      ensures ok <==> SpendInputs(old(entries), inputs).Some?
      ensures ok ==> (entries, stxos) == SpendInputs(old(entries), inputs).value
    {
      stxos := [];
      for i := 0 to |inputs|
        invariant SpendInputs(old(entries), inputs[..i]) == Some((entries, stxos))
      {
        var op := inputs[i];
        SpendInputsStep(old(entries), inputs, i);
        if op.hash !in entries {
          SpendInputsFail(old(entries), inputs, i + 1);
          return false, stxos;
        }
        var e := Spend(entries[op.hash], op.index);
        entries := entries[op.hash := e];
        stxos := stxos + [Record(e, op.index)];
      }
      assert inputs[..|inputs|] == inputs;
      ok := true;
    }

    /** connectTransaction. */
    method ConnectTransaction(tx: Tx, height: Uint32) returns (ok: bool, stxos: seq<Stxo>)
      modifies this
      ensures ok <==> ConnectTx(old(entries), tx, height).Some?
      ensures ok ==> (entries, stxos) == ConnectTx(old(entries), tx, height).value
      ensures NewTx(old(entries), tx) ==> ok && TxConnected(old(entries), tx, height, entries)
    {
      if NewTx(entries, tx) {
        TxCoins(entries, tx, height);
      }
      if tx.isCoinBase {
        AddTxOuts(tx, height);
        return true, [];
      }
      ok, stxos := SpendAll(tx.inputs);
      if ok {
        AddTxOuts(tx, height);
      }
    }

    /** connectTransactions. */
    method ConnectTransactions(txs: seq<Tx>, height: Uint32) returns (ok: bool, stxos: seq<Stxo>)
      modifies this
      ensures ok <==> ConnectTxs(old(entries), txs, height).Some?
      ensures ok ==> (entries, stxos) == ConnectTxs(old(entries), txs, height).value
      ensures ValidBlock(old(entries), txs, height) ==> ok && BlockConnected(old(entries), txs, height, entries)
    {
      if ValidBlock(entries, txs, height) {
        BlockCoins(entries, txs, height);
      }
      stxos := [];
      for i := 0 to |txs|
        invariant ConnectTxs(old(entries), txs[..i], height) == Some((entries, stxos))
      {
        ConnectTxsStep(old(entries), txs, height, i);
        var more;
        ok, more := ConnectTransaction(txs[i], height);
        if !ok {
          ConnectTxsFail(old(entries), txs, height, i + 1);
          return false, stxos;
        }
        stxos := stxos + more;
      }
      assert txs[..|txs|] == txs;
      ok := true;
    }

    /** Clears a transaction that is being disconnected. */
    method Clear(tx: Tx, isCoinbase: bool, height: Uint32)
      requires isCoinbase == tx.isCoinBase
      modifies this
      ensures entries == ClearTx(old(entries), tx, height)
    {
      if tx.hash !in entries {
        entries := entries[tx.hash := Entry(tx.version, isCoinbase, height, map[])];
      }
      entries := entries[tx.hash := entries[tx.hash].(outputs := map[])];
    }

    /** The input loop of disconnectTransactions, which walks the records backwards. */
    method Restore(inputs: seq<OutPoint>, stxos: seq<Stxo>, end: nat) returns (start: nat)
      requires |inputs| <= end <= |stxos|
      modifies this
      ensures start == end - |inputs|
      ensures entries == UnspendInputs(old(entries), inputs, stxos[start..end])
    {
      ghost var part := stxos[end - |inputs|..end];
      start := end;
      assert inputs[..|inputs|] == inputs && part[..|inputs|] == part;
      for i := |inputs| downto 0
        invariant start == end - |inputs| + i
        invariant UnspendInputs(entries, inputs[..i], part[..i]) == UnspendInputs(old(entries), inputs, part)
      {
        start := start - 1;
        var stxo, op := stxos[start], inputs[i];
        assert stxo == part[i];
        UnspendInputsStep(entries, inputs, part, i);
        entries := Unspend(entries, op, stxo);
      }
    }

    /** disconnectTransactions; the first transaction of a block is its coinbase. */
    method DisconnectTransactions(txs: seq<Tx>, stxos: seq<Stxo>, height: Uint32) returns (ok: bool)
      requires forall i :: 0 <= i < |txs| ==> (txs[i].isCoinBase <==> i == 0)
      modifies this
      ensures ok <==> |stxos| == CountInputs(txs)
      ensures entries == if ok then DisconnectTxs(old(entries), txs, stxos, height) else old(entries)
    {
      var spends := SpendCount(txs);
      if |stxos| != spends {
        return false;
      }
      var end := |stxos|;
      assert txs[..|txs|] == txs && stxos[..|stxos|] == stxos;
      for txIdx := |txs| downto 0
        invariant end == CountInputs(txs[..txIdx]) <= |stxos|
        invariant DisconnectTxs(entries, txs[..txIdx], stxos[..end], height)
               == DisconnectTxs(old(entries), txs, stxos, height)
      {
        var tx := txs[txIdx];
        DisconnectTxsStep(entries, txs, stxos, height, txIdx);
        Clear(tx, txIdx == 0, height);
        if txIdx != 0 {
          end := Restore(tx.inputs, stxos, end);
        }
      }
      ok := true;
    }
  }

  /** countSpentOutputs. */
  method SpendCount(txs: seq<Tx>) returns (n: nat)
    ensures n == CountInputs(txs)
  {
    n := 0;
    for i := 0 to |txs|
      invariant n == CountInputs(txs[..i])
    {
      assert txs[..i + 1][..i] == txs[..i];
      n := n + |InputsOf(txs[i])|;
    }
    assert txs[..|txs|] == txs;
  }

  lemma UnspendInputsStep(entries: Entries, inputs: seq<OutPoint>, stxos: seq<Stxo>, i: nat)
    requires i < |inputs| == |stxos|
    ensures UnspendInputs(entries, inputs[..i + 1], stxos[..i + 1]) ==
      UnspendInputs(Unspend(entries, inputs[i], stxos[i]), inputs[..i], stxos[..i])
  {
    assert inputs[..i + 1][..i] == inputs[..i] && stxos[..i + 1][..i] == stxos[..i];
  }

  lemma DisconnectTxsStep(entries: Entries, txs: seq<Tx>, stxos: seq<Stxo>, height: Uint32, i: nat)
    requires i < |txs| && CountInputs(txs[..i + 1]) <= |stxos|
    ensures CountInputs(txs[..i + 1]) == CountInputs(txs[..i]) + |InputsOf(txs[i])|
    ensures var end, split := CountInputs(txs[..i + 1]), CountInputs(txs[..i]);
      DisconnectTxs(entries, txs[..i + 1], stxos[..end], height) ==
        DisconnectTxs(DisconnectTx(entries, txs[i], stxos[split..end], height), txs[..i], stxos[..split], height)
  {
    var end, split := CountInputs(txs[..i + 1]), CountInputs(txs[..i]);
    assert txs[..i + 1][..i] == txs[..i];
    assert stxos[..end][split..] == stxos[split..end] && stxos[..end][..split] == stxos[..split];
  }

  lemma SpendInputsStep(entries: Entries, inputs: seq<OutPoint>, i: nat)
    requires i < |inputs|
    ensures SpendInputs(entries, inputs[..i + 1]) ==
      var init := SpendInputs(entries, inputs[..i]);
      if init.None? then None else
        var last := SpendInput(init.value.0, inputs[i]);
        if last.None? then None else Some((last.value.0, init.value.1 + [last.value.1]))
  {
    assert inputs[..i + 1][..i] == inputs[..i];
  }

  /** Once an input is missing there is no result. */
  lemma {:induction false} SpendInputsFail(entries: Entries, inputs: seq<OutPoint>, i: nat)
    requires i <= |inputs| && SpendInputs(entries, inputs[..i]).None?
    ensures SpendInputs(entries, inputs).None?
    decreases |inputs| - i
  {
    if i == |inputs| {
      assert inputs[..i] == inputs;
    } else {
      SpendInputsStep(entries, inputs, i);
      SpendInputsFail(entries, inputs, i + 1);
    }
  }

  lemma ConnectTxsStep(entries: Entries, txs: seq<Tx>, height: Uint32, i: nat)
    requires i < |txs|
    ensures ConnectTxs(entries, txs[..i + 1], height) ==
      var init := ConnectTxs(entries, txs[..i], height);
      if init.None? then None else
        var last := ConnectTx(init.value.0, txs[i], height);
        if last.None? then None else Some((last.value.0, init.value.1 + last.value.1))
  {
    assert txs[..i + 1][..i] == txs[..i];
  }

  lemma {:induction false} ConnectTxsFail(entries: Entries, txs: seq<Tx>, height: Uint32, i: nat)
    requires i <= |txs| && ConnectTxs(entries, txs[..i], height).None?
    ensures ConnectTxs(entries, txs, height).None?
    decreases |txs| - i
  {
    if i == |txs| {
      assert txs[..i] == txs;
    } else {
      ConnectTxsStep(entries, txs, height, i);
      ConnectTxsFail(entries, txs, height, i + 1);
    }
  }
}
