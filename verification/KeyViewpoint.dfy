/**
 The key viewpoint as the node runs it (blockchain/keyviewpoint.go, btcec/pubkeyset.go): the loops that apply
 and undo admin transactions in place, proved to compute the functions of KeyView.
 */
module KeyViewpoint {
  import opened Bytes
  import opened KeyView
  import opened KeyEffects

  type KeySets = map<KeySetType, seq<Key>>

  type KeyIdMap = map<Uint32, Key>

  // ----- key sets (btcec/pubkeyset.go) -----

  /** The place of a key, or -1. */
  method Pos(keys: seq<Key>, key: Key) returns (pos: int)
    ensures pos == -1 <==> key !in keys
    ensures pos != -1 ==> 0 <= pos < |keys| && keys[pos] == key
  {
    for i := 0 to |keys|
      invariant key !in keys[..i]
    {
      if keys[i] == key {
        return i;
      }
    }
    return -1;
  }

  method Add(keys: seq<Key>, key: Key) returns (keys': seq<Key>)
    requires NoRepeats(keys)
    ensures NoRepeats(keys')
    ensures forall k :: k in keys' <==> k in keys || k == key
  {
    var pos := Pos(keys, key);
    keys' := if pos < 0 then keys + [key] else keys;
  }

  /** Swaps the key at a position with the last one and cuts that off; does nothing out of range. */
  method Remove(keys: seq<Key>, pos: int) returns (keys': seq<Key>)
    requires NoRepeats(keys)
    ensures NoRepeats(keys')
    ensures 0 <= pos < |keys| ==> forall k :: k in keys' <==> k in keys && k != keys[pos]
    ensures !(0 <= pos < |keys|) ==> keys' == keys
  {
    if pos < 0 || pos >= |keys| {
      return keys;
    }
    var last := |keys| - 1;
    var swapped := keys[last := keys[pos]][pos := keys[last]];
    keys' := swapped[..last];
    forall k | k in keys && k != keys[pos] ensures k in keys' {
      var i :| 0 <= i < |keys| && keys[i] == k;
      assert keys'[if i == last then pos else i] == k;
    }
  }

  // ----- what the fields mean -----

  function KeysIn(sets: KeySets, keySet: KeySetType): (keys: seq<Key>) {
    if keySet in sets then sets[keySet] else []
  }

  /** What the two key tables hold in a register. */
  function Held(sets: KeySets, ids: KeyIdMap, r: Register): (key: Option<Key>) {
    match r
    case AspKey(id) => if id in ids then Some(ids[id]) else None
    case Member(keySet, k) => if k in KeysIn(sets, keySet) then Some(k) else None
  }

  ghost predicate Holds(sets: KeySets, ids: KeyIdMap, registers: Registers) {
    && (forall t :: t in sets ==> NoRepeats(sets[t]))
    && forall r {:trigger Held(sets, ids, r)} :: Held(sets, ids, r) == Get(registers, r)
  }

  lemma HoldsAspKey(sets: KeySets, ids: KeyIdMap, registers: Registers, id: Uint32, key: Option<Key>)
    requires Holds(sets, ids, registers)
    ensures Holds(sets, if key.Some? then ids[id := key.value] else ids - {id}, Put(registers, AspKey(id), key))
  {
    var ids' := if key.Some? then ids[id := key.value] else ids - {id};
    forall r ensures Held(sets, ids', r) == Get(Put(registers, AspKey(id), key), r) {
      assert Held(sets, ids, r) == Get(registers, r);
    }
  }

  lemma HoldsMember(sets: KeySets, ids: KeyIdMap, registers: Registers, t: KeySetType, keys: seq<Key>, key: Key,
      present: bool)
    requires Holds(sets, ids, registers) && NoRepeats(keys)
    requires forall k :: k in keys <==> if k == key then present else k in KeysIn(sets, t)
    ensures Holds(sets[t := keys], ids, Put(registers, Member(t, key), if present then Some(key) else None))
  {
    var registers' := Put(registers, Member(t, key), if present then Some(key) else None);
    forall r ensures Held(sets[t := keys], ids, r) == Get(registers', r) {
      assert Held(sets, ids, r) == Get(registers, r);
    }
  }

  function Signed(add: bool, n: nat): (r: int) {
    if add then n else 0 - n
  }

  class KeyViewpoint {
    var threadTips: map<Thread, OutPoint>
    var lastKeyID: Uint32
    var totalSupply: Uint64
    var adminKeySets: KeySets
    var aspKeyIdMap: KeyIdMap

    /** The fields stand for the given view. */
    ghost predicate Is(v: View)
      reads this
    {
      && threadTips == v.tips && lastKeyID == v.lastKeyID && totalSupply == v.supply
      && Holds(adminKeySets, aspKeyIdMap, v.registers)
    }

    /** NewKeyViewpoint. */
    constructor ()
      ensures Is(View(map[], 0, 0, map[]))
    {
      threadTips, lastKeyID, totalSupply := map[], 0, 0;
      adminKeySets, aspKeyIdMap := map[], map[];
    }

    /** The key-set half of applyAdminOp. */
    method ApplyToKeySet(isAdd: bool, keySet: KeySetType, key: Key, ghost v: View)
      requires Is(v)
      modifies this
      ensures Is(v.(registers := Put(v.registers, Member(keySet, key), if isAdd then Some(key) else None)))
    {
      assert Held(adminKeySets, aspKeyIdMap, Member(keySet, key)) == Get(v.registers, Member(keySet, key));
      var keys := if keySet in adminKeySets then adminKeySets[keySet] else [];
      var keys';
      if isAdd {
        keys' := Add(keys, key);
      } else {
        var pos := Pos(keys, key);
        keys' := Remove(keys, pos);
      }
      HoldsMember(adminKeySets, aspKeyIdMap, v.registers, keySet, keys', key, isAdd);
      adminKeySets := adminKeySets[keySet := keys'];
    }

    /** applyAdminOp. */
    method ApplyAdminOp(op: Op, ghost v: View)
      requires Is(v)
      modifies this
      ensures Is(Apply(v, op))
    {
      if op.keySet == AspKeySet {
        HoldsAspKey(adminKeySets, aspKeyIdMap, v.registers, op.keyID, Written(op));
        if op.isAdd {
          aspKeyIdMap := aspKeyIdMap[op.keyID := op.key];
          lastKeyID := op.keyID;
        } else {
          aspKeyIdMap := aspKeyIdMap - {op.keyID};
        }
      } else {
        ApplyToKeySet(op.isAdd, op.keySet, op.key, v);
      }
    }

    /** The body of the undo loop over operations. */
    method UndoAdminOp(op: Op, ghost v: View)
      requires Is(v)
      modifies this
      ensures Is(Undo(v, op))
    {
      if op.keySet == AspKeySet {
        HoldsAspKey(adminKeySets, aspKeyIdMap, v.registers, op.keyID, Unwritten(op));
        if op.isAdd {
          aspKeyIdMap := aspKeyIdMap - {op.keyID};
          lastKeyID := Previous(op.keyID);
        } else {
          aspKeyIdMap := aspKeyIdMap[op.keyID := op.key];
        }
      } else {
        ApplyToKeySet(!op.isAdd, op.keySet, op.key, v);
      }
    }

    /** Applies the operations of a transaction in order. */
    method ApplyOps(outputs: seq<Output>, ghost v: View)
      requires Is(v)
      modifies this
      ensures Is(ApplyAll(v, OpsOf(outputs)))
    {
      ghost var ops := OpsOf(outputs);
      for i := 0 to |outputs|
        invariant Is(ApplyAll(v, ops[..i]))
      {
        assert ops[..i + 1][..i] == ops[..i];
        ApplyAdminOp(outputs[i].op, ApplyAll(v, ops[..i]));
      }
      assert ops[..|ops|] == ops;
    }

    /** Undoes the operations of a transaction, in the same order. */
    method UndoOps(outputs: seq<Output>, ghost v: View)
      requires Is(v)
      modifies this
      ensures Is(UndoAll(v, OpsOf(outputs)))
    {
      ghost var ops := OpsOf(outputs);
      for i := 0 to |outputs|
        invariant Is(UndoAll(v, ops[..i]))
      {
        assert ops[..i + 1][..i] == ops[..i];
        UndoAdminOp(outputs[i].op, UndoAll(v, ops[..i]));
      }
      assert ops[..|ops|] == ops;
    }

    /** Adds the value of the transaction's other outputs to the supply, or takes it off again. */
    method CountIssued(outputs: seq<Output>, add: bool)
      modifies this`totalSupply
      ensures totalSupply == AddTo(old(totalSupply), Signed(add, Issued(outputs)))
    {
      AddToZero(totalSupply);
      for i := 0 to |outputs|
        invariant totalSupply == AddTo(old(totalSupply), Signed(add, Issued(outputs[..i])))
      {
        var value := ToUint64(outputs[i].value);
        assert outputs[..i + 1][..i] == outputs[..i];
        SupplyAdds(old(totalSupply), Signed(add, Issued(outputs[..i])), Signed(add, value));
        totalSupply := AddTo(totalSupply, Signed(add, value));
      }
      assert outputs[..|outputs|] == outputs;
    }

    /** Adds the value of the null-data outputs to the supply, or takes it off. */
    method CountDestroyed(outputs: seq<Output>, add: bool)
      modifies this`totalSupply
      ensures totalSupply == AddTo(old(totalSupply), Signed(add, Destroyed(outputs)))
    {
      AddToZero(totalSupply);
      for i := 0 to |outputs|
        invariant totalSupply == AddTo(old(totalSupply), Signed(add, Destroyed(outputs[..i])))
      {
        assert outputs[..i + 1][..i] == outputs[..i];
        if outputs[i].nullData {
          var value := ToUint64(outputs[i].value);
          SupplyAdds(old(totalSupply), Signed(add, Destroyed(outputs[..i])), Signed(add, value));
          totalSupply := AddTo(totalSupply, Signed(add, value));
        }
      }
      assert outputs[..|outputs|] == outputs;
    }

    /** ProcessAdminOuts. */
    method ProcessAdminOuts(tx: Tx, ghost v: View)
      requires Is(v)
      modifies this
      ensures Is(Connect(v, tx))
      ensures SupplyMoves(v.supply, tx, totalSupply) && TipMoves(v.tips, tx, OutPoint(tx.hash, 0), threadTips)
    {
      ConnectMovesSupply(v, tx);
      TipsAfter(v, tx);
      if tx.thread.None? {
        return;
      }
      var outputs := AdminOutputs(tx);
      OpsKeepTheRest(v, KeyOps(tx));
      if tx.thread.value == IssueThread {
        if |tx.inputs| > 1 {
          CountDestroyed(outputs, false);
        } else {
          CountIssued(outputs, true);
        }
      } else {
        ApplyOps(outputs, v);
        AddToZero(v.supply);
      }
      threadTips := threadTips[tx.thread.value := OutPoint(tx.hash, 0)];
    }

    /** The body of disconnectTransactions. */
    method UndoAdminOuts(tx: Tx, ghost v: View)
      requires Is(v) && HasInputs(tx)
      modifies this
      ensures Is(Disconnect(v, tx))
      ensures SupplyMoves(totalSupply, tx, v.supply)
      ensures tx.thread.Some? ==> TipMoves(v.tips, tx, tx.inputs[0], threadTips)
    {
      DisconnectMovesSupply(v, tx);
      TipsAfter(v, tx);
      if tx.thread.None? {
        return;
      }
      var outputs := AdminOutputs(tx);
      OpsKeepTheRest(v, KeyOps(tx));
      if tx.thread.value == IssueThread {
        if |tx.inputs| > 1 {
          CountDestroyed(outputs, true);
        } else {
          CountIssued(outputs, false);
        }
      } else {
        UndoOps(outputs, v);
        AddToZero(v.supply);
      }
      threadTips := threadTips[tx.thread.value := tx.inputs[0]];
    }

    /** connectTransactions. */
    method ConnectTransactions(txs: seq<Tx>, ghost v: View)
      requires Is(v)
      modifies this
      ensures Is(ConnectAll(v, txs))
      ensures Balances(v.supply, IssuedBy(txs), DestroyedBy(txs), totalSupply)
    {
      SupplyBalances(v, txs);
      for i := 0 to |txs|
        invariant Is(ConnectAll(v, txs[..i]))
      {
        assert txs[..i + 1][..i] == txs[..i];
        ProcessAdminOuts(txs[i], ConnectAll(v, txs[..i]));
      }
      assert txs[..|txs|] == txs;
    }

    /** disconnectTransactions. */
    method DisconnectTransactions(txs: seq<Tx>, ghost v: View)
      requires Is(v) && AllHaveInputs(txs)
      modifies this
      ensures Is(DisconnectAll(v, txs))
      ensures Balances(v.supply, DestroyedBy(txs), IssuedBy(txs), totalSupply)
    {
      UndoneSupplyBalances(v, txs);
      ghost var w := v;
      assert txs[..|txs|] == txs;
      for i := |txs| downto 0
        invariant Is(w) && DisconnectAll(w, txs[..i]) == DisconnectAll(v, txs)
      {
        assert txs[..i + 1][..i] == txs[..i];
        UndoAdminOuts(txs[i], w);
        w := Disconnect(w, txs[i]);
      }
    }
  }
}
