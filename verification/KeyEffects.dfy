/**
 What admin transactions do to the admin state (blockchain/keyviewpoint.go), said of their outputs one by one: the
 supply issued and destroyed, the thread tip, the keys, and the last key ID.
 */
module KeyEffects {
  import opened Bytes
  import opened KeyView
  import opened KeyParts
  import opened KeyHistory
  import opened KeyReorganize
  import opened KeyRecorded

  // ----- the supply -----

  /** The value of the outputs from `i` on, of the null-data ones only or of all. */
  function ValueFrom(outputs: seq<Output>, i: nat, onlyNullData: bool): (sum: nat)
    decreases |outputs| - i
  {
    if i >= |outputs| then
      0
    else
      var value := if onlyNullData && !outputs[i].nullData then 0 else ToUint64(outputs[i].value);
      value + ValueFrom(outputs, i + 1, onlyNullData)
  }

  predicate Destroys(tx: Tx) {
    tx.thread == Some(IssueThread) && |tx.inputs| > 1
  }

  predicate Issues(tx: Tx) {
    tx.thread == Some(IssueThread) && |tx.inputs| <= 1
  }

  /** A destruction takes off its null-data outputs, an issuance adds its outputs, without the thread output. */
  predicate SupplyMoves(supply: Uint64, tx: Tx, supply': Uint64) {
    && (Destroys(tx) ==> (supply' + ValueFrom(tx.outputs, 1, true)) % TWO64 == supply)
    && (Issues(tx) ==> supply' == (supply + ValueFrom(tx.outputs, 1, false)) % TWO64)
    && (tx.thread != Some(IssueThread) ==> supply' == supply)
  }

  lemma {:induction false} SumsFromFront(outputs: seq<Output>)
    requires outputs != []
    ensures Issued(outputs) == ToUint64(outputs[0].value) + Issued(outputs[1..])
    ensures Destroyed(outputs) ==
      (if outputs[0].nullData then ToUint64(outputs[0].value) else 0) + Destroyed(outputs[1..])
  {
    if |outputs| > 1 {
      SumsFromFront(outputs[..|outputs| - 1]);
      assert outputs[1..][..|outputs[1..]| - 1] == outputs[..|outputs| - 1][1..];
    } else {
      assert outputs[..|outputs| - 1] == [] && outputs[1..] == [];
    }
  }

  lemma {:induction false} SumsAreValues(outputs: seq<Output>, i: nat)
    requires i <= |outputs|
    ensures Issued(outputs[i..]) == ValueFrom(outputs, i, false)
    ensures Destroyed(outputs[i..]) == ValueFrom(outputs, i, true)
    decreases |outputs| - i
  {
    if i < |outputs| {
      SumsFromFront(outputs[i..]);
      assert outputs[i..][1..] == outputs[i + 1..];
      SumsAreValues(outputs, i + 1);
    }
  }

  /** The net issuance in terms of the outputs. */
  lemma NetIsValue(tx: Tx)
    ensures Destroys(tx) ==> NetIssuance(tx) == 0 - ValueFrom(tx.outputs, 1, true)
    ensures Issues(tx) ==> NetIssuance(tx) == ValueFrom(tx.outputs, 1, false)
    ensures tx.thread != Some(IssueThread) ==> NetIssuance(tx) == 0
  {
    if tx.outputs != [] {
      SumsAreValues(tx.outputs, 1);
    }
  }

  lemma TakenOff(supply: Uint64, amount: nat)
    ensures (AddTo(supply, 0 - amount) + amount) % TWO64 == supply
    ensures (AddTo(supply, amount) - amount) % TWO64 == supply
  {
    SupplyRestored(supply, 0 - amount);
    SupplyRestored(supply, amount);
  }

  lemma ConnectMovesSupply(v: View, tx: Tx)
    ensures SupplyMoves(v.supply, tx, Connect(v, tx).supply)
  {
    NetIsValue(tx);
    AddToZero(v.supply);
    TakenOff(v.supply, ValueFrom(tx.outputs, 1, true));
  }

  /** Undoing moves the supply the other way. */
  lemma DisconnectMovesSupply(v: View, tx: Tx)
    requires HasInputs(tx)
    ensures SupplyMoves(Disconnect(v, tx).supply, tx, v.supply)
  {
    NetIsValue(tx);
    AddToZero(v.supply);
    TakenOff(v.supply, ValueFrom(tx.outputs, 1, false));
  }

  /** Everything a list of transactions issues, and everything it destroys. */
  function IssuedBy(txs: seq<Tx>): (sum: nat) {
    if txs == [] then 0
    else (if Issues(txs[0]) then ValueFrom(txs[0].outputs, 1, false) else 0) + IssuedBy(txs[1..])
  }

  function DestroyedBy(txs: seq<Tx>): (sum: nat) {
    if txs == [] then 0
    else (if Destroys(txs[0]) then ValueFrom(txs[0].outputs, 1, true) else 0) + DestroyedBy(txs[1..])
  }

  lemma {:induction false} NetFromFront(txs: seq<Tx>)
    requires txs != []
    ensures NetOf(txs) == NetIssuance(txs[0]) + NetOf(txs[1..])
  {
    if |txs| > 1 {
      NetFromFront(txs[..|txs| - 1]);
      assert txs[1..][..|txs[1..]| - 1] == txs[..|txs| - 1][1..];
    } else {
      assert txs[..|txs| - 1] == [] && txs[1..] == [];
    }
  }

  lemma {:induction false} NetIsBalance(txs: seq<Tx>)
    ensures NetOf(txs) == IssuedBy(txs) - DestroyedBy(txs)
  {
    if txs != [] {
      NetFromFront(txs);
      NetIsValue(txs[0]);
      NetIsBalance(txs[1..]);
    }
  }

  /** Both sides balance modulo 2^64. */
  predicate Balances(supply: Uint64, issued: nat, destroyed: nat, supply': Uint64) {
    (supply' + destroyed) % TWO64 == (supply + issued) % TWO64
  }

  lemma NetBalances(supply: Uint64, issued: nat, destroyed: nat)
    ensures Balances(supply, issued, destroyed, AddTo(supply, issued - destroyed))
    ensures var balance := supply + issued - destroyed;
      0 <= balance < TWO64 ==> AddTo(supply, issued - destroyed) == balance
  {
    SupplyAdds(supply, issued - destroyed, destroyed);
  }

  /**
   The supply after a list of transactions: with what they destroyed it is what there was with what they issued, and
   if that leaves no overflow the supply is what there was and everything issued, less everything destroyed.
   */
  lemma SupplyBalances(v: View, txs: seq<Tx>)
    ensures Balances(v.supply, IssuedBy(txs), DestroyedBy(txs), ConnectAll(v, txs).supply)
    ensures var supply := v.supply + IssuedBy(txs) - DestroyedBy(txs);
      0 <= supply < TWO64 ==> ConnectAll(v, txs).supply == supply
  {
    ConnectedSupply(v, txs);
    NetIsBalance(txs);
    NetBalances(v.supply, IssuedBy(txs), DestroyedBy(txs));
  }

  lemma UndoneSupplyBalances(v: View, txs: seq<Tx>)
    requires AllHaveInputs(txs)
    ensures Balances(v.supply, DestroyedBy(txs), IssuedBy(txs), DisconnectAll(v, txs).supply)
  {
    DisconnectedSupply(v, txs);
    NetIsBalance(txs);
    NetBalances(v.supply, DestroyedBy(txs), IssuedBy(txs));
  }

  /** After any run of connected and disconnected blocks the supply is that of the current chain's transactions. */
  lemma RunBalances(v: View, moves: seq<Move>)
    ensures var h := KeyHistory.Run(v, moves);
      Balances(v.supply, IssuedBy(Flat(h.blocks)), DestroyedBy(Flat(h.blocks)), h.Current().supply)
  {
    var h := KeyHistory.Run(v, moves);
    HistoryIndependent(v, moves);
    ReplayIsConnect(v, h.blocks);
    SupplyBalances(v, Flat(h.blocks));
  }

  // ----- the thread tips -----

  /** Only the tip of the transaction's own thread moves. */
  predicate TipMoves(tips: map<Thread, OutPoint>, tx: Tx, tip: OutPoint, tips': map<Thread, OutPoint>) {
    && (tx.thread.Some? ==> tx.thread.value in tips' && tips'[tx.thread.value] == tip)
    && (forall t :: t in tips' <==> t in tips || tx.thread == Some(t))
    && (forall t :: t in tips && tx.thread != Some(t) ==> tips'[t] == tips[t])
  }

  /** Connecting makes output 0 the tip of the thread, and disconnecting the outpoint it had spent. */
  lemma TipsAfter(v: View, tx: Tx)
    ensures TipMoves(v.tips, tx, OutPoint(tx.hash, 0), Connect(v, tx).tips)
    ensures HasInputs(tx) && tx.thread.Some? ==> TipMoves(v.tips, tx, tx.inputs[0], Disconnect(v, tx).tips)
  {
  }

  // ----- the keys -----

  /** An operation is about a key ID, or about a key in a set. */
  predicate Touches(op: Op, r: Register) {
    match r
    case AspKey(id) => op.keySet == AspKeySet && op.keyID == id
    case Member(keySet, key) => op.keySet == keySet && op.key == key && keySet != AspKeySet
  }

  predicate IsKeyTx(tx: Tx) {
    tx.thread.Some? && tx.thread != Some(IssueThread)
  }

  /** Output `i` is the last one of a transaction that touches a register. */
  predicate LastTouch(tx: Tx, r: Register, i: int) {
    && 1 <= i < |tx.outputs| && Touches(tx.outputs[i].op, r)
    && forall j :: i < j < |tx.outputs| ==> !Touches(tx.outputs[j].op, r)
  }

  lemma {:induction false} LastOnIs(ops: seq<Op>, r: Register)
    ensures LastOn(ops, r).None? ==> forall i :: 0 <= i < |ops| ==> !Touches(ops[i], r)
    ensures LastOn(ops, r).Some? ==>
      exists i :: 0 <= i < |ops| && ops[i] == LastOn(ops, r).value && Touches(ops[i], r)
        && forall j :: i < j < |ops| ==> !Touches(ops[j], r)
  {
    if ops != [] {
      LastOnIs(ops[..|ops| - 1], r);
    }
  }

  /** The output a register's content comes from, if any. */
  lemma LastOutputOn(tx: Tx, r: Register)
    requires IsKeyTx(tx)
    ensures LastOn(KeyOps(tx), r).None? ==> forall i :: 1 <= i < |tx.outputs| ==> !Touches(tx.outputs[i].op, r)
    ensures forall i {:trigger LastTouch(tx, r, i)} :: LastTouch(tx, r, i) ==>
      LastOn(KeyOps(tx), r) == Some(tx.outputs[i].op)
  {
    var ops := KeyOps(tx);
    LastOnIs(ops, r);
    assert forall i :: 1 <= i < |tx.outputs| ==> tx.outputs[i].op == ops[i - 1];
    forall i | LastTouch(tx, r, i) ensures LastOn(ops, r) == Some(tx.outputs[i].op) {
      assert Touches(ops[i - 1], r);
      var k :| 0 <= k < |ops| && ops[k] == LastOn(ops, r).value && Touches(ops[k], r)
        && forall j :: k < j < |ops| ==> !Touches(ops[j], r);
      assert ops[k] == tx.outputs[k + 1].op;
    }
  }

  lemma NoneTouches(tx: Tx, r: Register)
    requires IsKeyTx(tx) && forall i :: 1 <= i < |tx.outputs| ==> !Touches(tx.outputs[i].op, r)
    ensures LastOn(KeyOps(tx), r).None?
  {
    var ops := KeyOps(tx);
    LastOnIs(ops, r);
    assert forall i :: 0 <= i < |ops| ==> ops[i] == tx.outputs[i + 1].op;
  }

  lemma RegisterAfter(v: View, tx: Tx, r: Register)
    ensures Get(Connect(v, tx).registers, r) ==
      if LastOn(KeyOps(tx), r).Some? then Written(LastOn(KeyOps(tx), r).value) else Get(v.registers, r)
    ensures HasInputs(tx) ==>
      Get(Disconnect(v, tx).registers, r) ==
        if LastOn(KeyOps(tx), r).Some? then Unwritten(LastOn(KeyOps(tx), r).value) else Get(v.registers, r)
  {
    AppliedAt(v, KeyOps(tx), r);
    UndoneAt(v, KeyOps(tx), r);
  }

  /**
   Connecting leaves in every register what the last output that touches it says, its key if it adds one and nothing
   otherwise; disconnecting the opposite.
   */
  lemma KeysAfter(v: View, tx: Tx, r: Register, i: int)
    requires IsKeyTx(tx) && LastTouch(tx, r, i)
    ensures var op := tx.outputs[i].op; Get(Connect(v, tx).registers, r) == if op.isAdd then Some(op.key) else None
    ensures var op := tx.outputs[i].op;
      HasInputs(tx) ==> Get(Disconnect(v, tx).registers, r) == if op.isAdd then None else Some(op.key)
  {
    LastOutputOn(tx, r);
    RegisterAfter(v, tx, r);
  }

  /** Registers no output touches stay, and so do all of them in a transaction of any other kind. */
  lemma OtherKeysStay(v: View, tx: Tx, r: Register)
    requires !IsKeyTx(tx) || forall i :: 1 <= i < |tx.outputs| ==> !Touches(tx.outputs[i].op, r)
    ensures Get(Connect(v, tx).registers, r) == Get(v.registers, r)
    ensures HasInputs(tx) ==> Get(Disconnect(v, tx).registers, r) == Get(v.registers, r)
  {
    RegisterAfter(v, tx, r);
    if IsKeyTx(tx) {
      NoneTouches(tx, r);
    }
  }

  /** Output `i` is the last one of a transaction that adds a key ID. */
  predicate LastAspAdd(tx: Tx, i: int) {
    && 1 <= i < |tx.outputs| && tx.outputs[i].op.keySet == AspKeySet && tx.outputs[i].op.isAdd
    && forall j :: i < j < |tx.outputs| ==> !(tx.outputs[j].op.keySet == AspKeySet && tx.outputs[j].op.isAdd)
  }

  lemma {:induction false} LastAddWins(v: View, ops: seq<Op>, i: nat)
    requires i < |ops| && IsAspAdd(ops[i]) && forall j :: i < j < |ops| ==> !IsAspAdd(ops[j])
    ensures ApplyAll(v, ops).lastKeyID == ops[i].keyID
  {
    if i < |ops| - 1 {
      LastAddWins(v, ops[..|ops| - 1], i);
    }
  }

  lemma {:induction false} NoAddStays(v: View, ops: seq<Op>)
    requires forall j :: 0 <= j < |ops| ==> !IsAspAdd(ops[j])
    ensures ApplyAll(v, ops).lastKeyID == v.lastKeyID
  {
    if ops != [] {
      NoAddStays(v, ops[..|ops| - 1]);
    }
  }

  /** The last key ID becomes the last one added, and stays if none is. */
  lemma KeyIDAfter(v: View, tx: Tx)
    ensures IsKeyTx(tx) ==> forall i {:trigger LastAspAdd(tx, i)} :: LastAspAdd(tx, i) ==>
      Connect(v, tx).lastKeyID == tx.outputs[i].op.keyID
    ensures !IsKeyTx(tx) || (forall i {:trigger LastAspAdd(tx, i)} :: !LastAspAdd(tx, i)) ==>
      Connect(v, tx).lastKeyID == v.lastKeyID
  {
    if IsKeyTx(tx) {
      var ops := KeyOps(tx);
      assert forall i :: 0 <= i < |ops| ==> ops[i] == tx.outputs[i + 1].op;
      forall i | LastAspAdd(tx, i) ensures Connect(v, tx).lastKeyID == tx.outputs[i].op.keyID {
        LastAddWins(v, ops, i - 1);
      }
      if forall i :: !LastAspAdd(tx, i) {
        NoLastNoAdd(tx, |tx.outputs|);
        NoAddStays(v, ops);
      }
    }
  }

  lemma {:induction false} NoLastNoAdd(tx: Tx, n: nat)
    requires n <= |tx.outputs| && forall i :: !LastAspAdd(tx, i)
    requires forall j :: n <= j < |tx.outputs| ==> !IsAspAdd(tx.outputs[j].op)
    ensures forall j :: 1 <= j < |tx.outputs| ==> !IsAspAdd(tx.outputs[j].op)
  {
    if n > 1 {
      assert !LastAspAdd(tx, n - 1);
      NoLastNoAdd(tx, n - 1);
    }
  }
}
