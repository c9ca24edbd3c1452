/**
 The admin state of a chain and what admin transactions do to it (blockchain/keyviewpoint.go,
 blockchain/validate.go): what undoing a transaction or a block restores.
 */
module KeyView {
  import opened Bytes

  datatype Thread = RootThread | ProvisionThread | IssueThread

  datatype KeySetType = RootKeySet | ProvisionKeySet | IssueKeySet | ValidateKeySet | AspKeySet

  datatype Key = Key(bits: nat)

  datatype Op = Op(isAdd: bool, keySet: KeySetType, key: Key, keyID: Uint32)

  /** An output with its value, whether its script is null data, and the admin operation its script encodes. */
  datatype Output = Output(value: Int64, nullData: bool, op: Op)

  /** A transaction; `thread` is the admin thread of its first output, if that is an admin output. */
  datatype Tx = Tx(hash: Hash, inputs: seq<OutPoint>, thread: Option<Thread>, outputs: seq<Output>)

  /** A place that holds a key: a key ID, or the membership of a key in a key set. */
  datatype Register = AspKey(id: Uint32) | Member(keySet: KeySetType, key: Key)

  type Registers = map<Register, Key>

  /** threadTips, lastKeyID, totalSupply, and adminKeySets with aspKeyIdMap as one set of registers. */
  datatype View = View(tips: map<Thread, OutPoint>, lastKeyID: Uint32, supply: Uint64, registers: Registers)

  // ----- operations -----

  function RegisterOf(op: Op): (r: Register) {
    if op.keySet == AspKeySet then AspKey(op.keyID) else Member(op.keySet, op.key)
  }

  predicate IsAspAdd(op: Op) {
    op.keySet == AspKeySet && op.isAdd
  }

  function Get(registers: Registers, r: Register): (key: Option<Key>) {
    if r in registers then Some(registers[r]) else None
  }

  function Put(registers: Registers, r: Register, key: Option<Key>): (registers': Registers) {
    if key.Some? then registers[r := key.value] else registers - {r}
  }

  /** What an operation leaves in its register, and what undoing it leaves there. */
  function Written(op: Op): (key: Option<Key>) {
    if op.isAdd then Some(op.key) else None
  }

  function Unwritten(op: Op): (key: Option<Key>) {
    if op.isAdd then None else Some(op.key)
  }

  /** applyAdminOp. */
  function Apply(v: View, op: Op): (v': View) {
    v.(registers := Put(v.registers, RegisterOf(op), Written(op)),
       lastKeyID := if IsAspAdd(op) then op.keyID else v.lastKeyID)
  }

  /** Counting key IDs up and down, in 32-bit arithmetic. */
  function Next(id: Uint32): (next: Uint32) {
    if id == TWO32 - 1 then 0 else id + 1
  }

  function Previous(id: Uint32): (previous: Uint32) {
    if id == 0 then TWO32 - 1 else id - 1
  }

  /** The undo of one operation; the key ID below an added one wraps at 32 bits. */
  function Undo(v: View, op: Op): (v': View) {
    v.(registers := Put(v.registers, RegisterOf(op), Unwritten(op)),
       lastKeyID := if IsAspAdd(op) then Previous(op.keyID) else v.lastKeyID)
  }

  function ApplyAll(v: View, ops: seq<Op>): (v': View) {
    if ops == [] then v else Apply(ApplyAll(v, ops[..|ops| - 1]), ops[|ops| - 1])
  }

  /** The undo loop runs forwards, like the loop it undoes. */
  function UndoAll(v: View, ops: seq<Op>): (v': View) {
    if ops == [] then v else Undo(UndoAll(v, ops[..|ops| - 1]), ops[|ops| - 1])
  }

  // ----- transactions and blocks -----

  /** The outputs after the thread output. */
  function AdminOutputs(tx: Tx): (outputs: seq<Output>) {
    if tx.outputs == [] then [] else tx.outputs[1..]
  }

  function OpsOf(outputs: seq<Output>): (ops: seq<Op>) {
    seq(|outputs|, i requires 0 <= i < |outputs| => outputs[i].op)
  }

  function Issued(outputs: seq<Output>): (sum: nat) {
    if outputs == [] then 0 else Issued(outputs[..|outputs| - 1]) + ToUint64(outputs[|outputs| - 1].value)
  }

  function Destroyed(outputs: seq<Output>): (sum: nat) {
    if outputs == [] then
      0
    else
      var last := outputs[|outputs| - 1];
      Destroyed(outputs[..|outputs| - 1]) + if last.nullData then ToUint64(last.value) else 0
  }

  /** What a transaction adds to the supply; one with several inputs destroys its null-data outputs. */
  function NetIssuance(tx: Tx): (net: int) {
    if tx.thread != Some(IssueThread) then 0
    else if |tx.inputs| > 1 then 0 - Destroyed(AdminOutputs(tx))
    else Issued(AdminOutputs(tx))
  }

  /** The supply plus or minus an amount, in 64-bit arithmetic. */
  function AddTo(supply: Uint64, net: int): (r: Uint64) {
    (supply + net) % TWO64
  }

  function KeyOps(tx: Tx): (ops: seq<Op>) {
    if tx.thread.None? || tx.thread == Some(IssueThread) then [] else OpsOf(AdminOutputs(tx))
  }

  /** ProcessAdminOuts. */
  function Connect(v: View, tx: Tx): (v': View) {
    if tx.thread.None? then
      v
    else
      ApplyAll(v, KeyOps(tx)).(supply := AddTo(v.supply, NetIssuance(tx)),
                               tips := v.tips[tx.thread.value := OutPoint(tx.hash, 0)])
  }

  /** A transaction whose undo finds the outpoint it needs. */
  predicate HasInputs(tx: Tx) {
    tx.thread.Some? ==> tx.inputs != []
  }

  predicate AllHaveInputs(txs: seq<Tx>) {
    forall i :: 0 <= i < |txs| ==> HasInputs(txs[i])
  }

  /** One round of disconnectTransactions. */
  function Disconnect(v: View, tx: Tx): (v': View)
    requires HasInputs(tx)
  {
    if tx.thread.None? then
      v
    else
      UndoAll(v, KeyOps(tx)).(supply := AddTo(v.supply, 0 - NetIssuance(tx)),
                              tips := v.tips[tx.thread.value := tx.inputs[0]])
  }

  /** connectTransactions. */
  function ConnectAll(v: View, txs: seq<Tx>): (v': View) {
    if txs == [] then v else Connect(ConnectAll(v, txs[..|txs| - 1]), txs[|txs| - 1])
  }

  /** disconnectTransactions, from the last transaction to the first. */
  function DisconnectAll(v: View, txs: seq<Tx>): (v': View)
    requires AllHaveInputs(txs)
    decreases |txs|
  {
    if txs == [] then v else DisconnectAll(Disconnect(v, txs[|txs| - 1]), txs[..|txs| - 1])
  }

  // ----- what validation promises -----

  function AspAdds(ops: seq<Op>): (n: nat) {
    if ops == [] then 0 else AspAdds(ops[..|ops| - 1]) + if IsAspAdd(ops[|ops| - 1]) then 1 else 0
  }

  /** What an operation adds is not there, and what it removes is there with that very key. */
  predicate Fits(v: View, op: Op) {
    if op.isAdd then RegisterOf(op) !in v.registers else Get(v.registers, RegisterOf(op)) == Some(op.key)
  }

  /** Added key IDs count on from the last one. */
  predicate InOrder(v: View, ops: seq<Op>) {
    forall i {:trigger CountsOn(v.lastKeyID, ops, i)} :: 0 <= i < |ops| ==> CountsOn(v.lastKeyID, ops, i)
  }

  /** The `n`-th key ID after a given one. */
  function CountedOn(lastKeyID: Uint32, n: nat): (id: Uint32) {
    if n == 0 then lastKeyID else Next(CountedOn(lastKeyID, n - 1))
  }

  predicate CountsOn(lastKeyID: Uint32, ops: seq<Op>, i: nat)
    requires i < |ops|
  {
    IsAspAdd(ops[i]) ==> ops[i].keyID == CountedOn(lastKeyID, AspAdds(ops[..i + 1]))
  }

  /** The registers part of CheckTransactionOutputs, and the first input is the tip of the thread. */
  predicate Fitting(v: View, tx: Tx) {
    tx.thread.Some? ==>
      && tx.inputs != [] && tx.thread.value in v.tips && v.tips[tx.thread.value] == tx.inputs[0]
      && forall i :: 0 <= i < |KeyOps(tx)| ==> Fits(v, KeyOps(tx)[i])
  }

  predicate Acceptable(v: View, tx: Tx) {
    Fitting(v, tx) && InOrder(v, KeyOps(tx))
  }

  predicate AcceptableAt(v: View, txs: seq<Tx>, i: nat)
    requires i < |txs|
  {
    Acceptable(ConnectAll(v, txs[..i]), txs[i])
  }

  predicate AllAcceptable(v: View, txs: seq<Tx>) {
    forall i {:trigger AcceptableAt(v, txs, i)} :: 0 <= i < |txs| ==> AcceptableAt(v, txs, i)
  }

  // ----- undoing one transaction -----

  /** The last operation on a register. */
  function LastOn(ops: seq<Op>, r: Register): (op: Option<Op>)
    ensures op.Some? ==> op.value in ops && RegisterOf(op.value) == r
  {
    if ops == [] then None
    else if RegisterOf(ops[|ops| - 1]) == r then Some(ops[|ops| - 1])
    else LastOn(ops[..|ops| - 1], r)
  }

  /** After a list of operations each register holds what the last operation on it left. */
  lemma {:induction false} AppliedAt(v: View, ops: seq<Op>, r: Register)
    ensures Get(ApplyAll(v, ops).registers, r) ==
      if LastOn(ops, r).Some? then Written(LastOn(ops, r).value) else Get(v.registers, r)
  {
    if ops != [] {
      AppliedAt(v, ops[..|ops| - 1], r);
    }
  }

  lemma {:induction false} UndoneAt(v: View, ops: seq<Op>, r: Register)
    ensures Get(UndoAll(v, ops).registers, r) ==
      if LastOn(ops, r).Some? then Unwritten(LastOn(ops, r).value) else Get(v.registers, r)
  {
    if ops != [] {
      UndoneAt(v, ops[..|ops| - 1], r);
    }
  }

  lemma SameRegisters(a: Registers, b: Registers)
    requires forall r :: Get(a, r) == Get(b, r)
    ensures a == b
  {
    forall r ensures (r in a <==> r in b) && (r in a ==> a[r] == b[r]) {
      assert Get(a, r) == Get(b, r);
    }
  }

  /** Undoing operations forwards still restores every register they touched. */
  lemma RegistersRestored(v: View, w: View, ops: seq<Op>)
    requires forall i :: 0 <= i < |ops| ==> Fits(v, ops[i])
    requires w.registers == ApplyAll(v, ops).registers
    ensures UndoAll(w, ops).registers == v.registers
  {
    forall r ensures Get(UndoAll(w, ops).registers, r) == Get(v.registers, r) {
      AppliedAt(v, ops, r);
      UndoneAt(w, ops, r);
    }
    SameRegisters(UndoAll(w, ops).registers, v.registers);
  }

  lemma {:induction false} OpsKeepTheRest(v: View, ops: seq<Op>)
    ensures ApplyAll(v, ops).tips == v.tips && ApplyAll(v, ops).supply == v.supply
    ensures UndoAll(v, ops).tips == v.tips && UndoAll(v, ops).supply == v.supply
  {
    if ops != [] {
      OpsKeepTheRest(v, ops[..|ops| - 1]);
    }
  }

  /** Equal but for the last key ID. */
  predicate Alike(v: View, w: View) {
    v.tips == w.tips && v.supply == w.supply && v.registers == w.registers
  }

  lemma SupplyAdds(supply: Uint64, a: int, b: int)
    ensures AddTo(AddTo(supply, a), b) == AddTo(supply, a + b)
  {
    var k := (supply + a) / TWO64;
    assert (supply + a) % TWO64 + b == supply + a + b + (-k) * TWO64;
    assert (supply + a + b + (-k) * TWO64) % TWO64 == (supply + a + b) % TWO64;
  }

  lemma AddToZero(supply: Uint64)
    ensures AddTo(supply, 0) == supply
  {
    SmallMod(supply);
  }

  lemma SupplyRestored(supply: Uint64, net: int)
    ensures AddTo(AddTo(supply, net), 0 - net) == supply
  {
    SupplyAdds(supply, net, 0 - net);
    AddToZero(supply);
  }

  lemma TipRestored(tips: map<Thread, OutPoint>, thread: Thread, before: OutPoint, after: OutPoint)
    requires thread in tips && tips[thread] == before
    ensures tips[thread := after][thread := before] == tips
  {
  }

  /** Disconnecting a transaction restores everything but perhaps the last key ID. */
  lemma TransactionRestored(v: View, w: View, tx: Tx)
    requires Fitting(v, tx) && Alike(w, Connect(v, tx))
    ensures HasInputs(tx) && Alike(Disconnect(w, tx), v)
  {
    if tx.thread.Some? {
      OpsKeepTheRest(v, KeyOps(tx));
      OpsKeepTheRest(w, KeyOps(tx));
      RegistersRestored(v, w, KeyOps(tx));
      SupplyRestored(v.supply, NetIssuance(tx));
      TipRestored(v.tips, tx.thread.value, tx.inputs[0], OutPoint(tx.hash, 0));
    }
  }

  // ----- the last key ID -----

  lemma InOrderPrefix(v: View, ops: seq<Op>)
    requires InOrder(v, ops) && ops != []
    ensures InOrder(v, ops[..|ops| - 1])
    ensures IsAspAdd(ops[|ops| - 1]) ==> ops[|ops| - 1].keyID == CountedOn(v.lastKeyID, AspAdds(ops))
  {
    var init := ops[..|ops| - 1];
    forall i | 0 <= i < |init| ensures CountsOn(v.lastKeyID, init, i) {
      assert CountsOn(v.lastKeyID, ops, i);
      CountsOnPrefix(v.lastKeyID, ops, i);
    }
    assert CountsOn(v.lastKeyID, ops, |ops| - 1);
    assert ops[..|ops|] == ops;
  }

  lemma CountsOnPrefix(lastKeyID: Uint32, ops: seq<Op>, i: nat)
    requires i + 1 < |ops|
    ensures CountsOn(lastKeyID, ops[..|ops| - 1], i) == CountsOn(lastKeyID, ops, i)
  {
    assert ops[..|ops| - 1][..i + 1] == ops[..i + 1];
  }

  /** Connecting counts the last key ID on by the number of added ones. */
  lemma {:induction false} AppliedKeyID(v: View, ops: seq<Op>)
    requires InOrder(v, ops)
    ensures ApplyAll(v, ops).lastKeyID == CountedOn(v.lastKeyID, AspAdds(ops))
  {
    if ops != [] {
      InOrderPrefix(v, ops);
      AppliedKeyID(v, ops[..|ops| - 1]);
    }
  }

  /** The forward undo ends just below the last added key ID, not below the first. */
  lemma {:induction false} UndoneKeyID(v: View, w: View, ops: seq<Op>)
    requires InOrder(v, ops)
    ensures UndoAll(w, ops).lastKeyID ==
      if AspAdds(ops) == 0 then w.lastKeyID else CountedOn(v.lastKeyID, AspAdds(ops) - 1)
  {
    if ops != [] {
      InOrderPrefix(v, ops);
      UndoneKeyID(v, w, ops[..|ops| - 1]);
    }
  }

  /** One, as far as 32-bit key IDs can tell. */
  predicate Single(n: nat) {
    n > 0 && (n - 1) % TWO32 == 0
  }

  lemma SingleIsOne(n: nat)
    requires n <= TWO32
    ensures Single(n) <==> n == 1
  {
    if n > 0 {
      SmallMod32(n - 1);
    }
  }

  lemma NextModulo(n: nat)
    ensures Next(n % TWO32) == (n + 1) % TWO32
  {
    var q, r := n / TWO32, n % TWO32;
    assert n + 1 == TWO32 * q + (r + 1);
  }

  lemma {:induction false} CountedOnIs(lastKeyID: Uint32, n: nat)
    ensures CountedOn(lastKeyID, n) == (lastKeyID + n) % TWO32
  {
    if n == 0 {
      SmallMod32(lastKeyID);
    } else {
      CountedOnIs(lastKeyID, n - 1);
      NextModulo(lastKeyID + (n - 1));
    }
  }

  lemma SameModulo(n: Uint32, k: nat)
    ensures (n + k) % TWO32 == n <==> k % TWO32 == 0
  {
    var q, r := k / TWO32, k % TWO32;
    assert n + k == TWO32 * q + (n + r);
    if n + r >= TWO32 {
      assert n + k == TWO32 * (q + 1) + (n + r - TWO32);
    }
  }

  /** The last key ID around a transaction: undoing it ends just below the last key ID it added. */
  lemma TransactionKeyID(v: View, w: View, tx: Tx)
    requires Acceptable(v, tx)
    ensures HasInputs(tx)
    ensures Connect(v, tx).lastKeyID == CountedOn(v.lastKeyID, AspAdds(KeyOps(tx)))
    ensures Disconnect(w, tx).lastKeyID ==
      if AspAdds(KeyOps(tx)) == 0 then w.lastKeyID else CountedOn(v.lastKeyID, AspAdds(KeyOps(tx)) - 1)
  {
    AppliedKeyID(v, KeyOps(tx));
    UndoneKeyID(v, w, KeyOps(tx));
  }

  /** Exactly one added key ID, or none, survives the undo. */
  lemma RestoredKeyID(lastKeyID: Uint32, n: nat)
    requires n > 0
    ensures CountedOn(lastKeyID, n - 1) == lastKeyID <==> Single(n)
  {
    CountedOnIs(lastKeyID, n - 1);
    SameModulo(lastKeyID, n - 1);
  }

  // ----- undoing a block -----

  predicate FittingAt(v: View, txs: seq<Tx>, i: nat)
    requires i < |txs|
  {
    Fitting(ConnectAll(v, txs[..i]), txs[i])
  }

  predicate AllFitting(v: View, txs: seq<Tx>) {
    forall i {:trigger FittingAt(v, txs, i)} :: 0 <= i < |txs| ==> FittingAt(v, txs, i)
  }

  lemma FittingPrefix(v: View, txs: seq<Tx>)
    requires txs != [] && AllFitting(v, txs)
    ensures AllFitting(v, txs[..|txs| - 1]) && Fitting(ConnectAll(v, txs[..|txs| - 1]), txs[|txs| - 1])
  {
    var init := txs[..|txs| - 1];
    assert FittingAt(v, txs, |txs| - 1);
    forall i | 0 <= i < |init| ensures FittingAt(v, init, i) {
      assert FittingAt(v, txs, i);
      assert init[..i] == txs[..i];
    }
  }

  lemma AcceptablePrefix(v: View, txs: seq<Tx>)
    requires txs != [] && AllAcceptable(v, txs)
    ensures AllAcceptable(v, txs[..|txs| - 1]) && Acceptable(ConnectAll(v, txs[..|txs| - 1]), txs[|txs| - 1])
  {
    var init := txs[..|txs| - 1];
    assert AcceptableAt(v, txs, |txs| - 1);
    forall i | 0 <= i < |init| ensures AcceptableAt(v, init, i) {
      assert AcceptableAt(v, txs, i);
      assert init[..i] == txs[..i];
    }
  }

  lemma AcceptableIsFitting(v: View, txs: seq<Tx>)
    requires AllAcceptable(v, txs)
    ensures AllFitting(v, txs)
  {
    forall i | 0 <= i < |txs| ensures FittingAt(v, txs, i) {
      assert AcceptableAt(v, txs, i);
    }
  }

  /** Disconnecting a block restores everything but perhaps the last key ID. */
  lemma {:induction false} BlockRestored(v: View, w: View, txs: seq<Tx>)
    requires AllFitting(v, txs) && Alike(w, ConnectAll(v, txs))
    ensures AllHaveInputs(txs) && Alike(DisconnectAll(w, txs), v)
    decreases |txs|
  {
    if txs != [] {
      var init, tx := txs[..|txs| - 1], txs[|txs| - 1];
      FittingPrefix(v, txs);
      TransactionRestored(ConnectAll(v, init), w, tx);
      BlockRestored(v, Disconnect(w, tx), init);
    }
  }

  /** How many key IDs the first transaction that adds any adds. */
  function FirstAdds(txs: seq<Tx>): (n: nat) {
    if txs == [] then
      0
    else
      var earlier := FirstAdds(txs[..|txs| - 1]);
      if earlier > 0 then earlier else AspAdds(KeyOps(txs[|txs| - 1]))
  }

  /** The first transaction of the block that adds key IDs, if any, adds a single one. */
  predicate Restorable(txs: seq<Tx>) {
    FirstAdds(txs) == 0 || Single(FirstAdds(txs))
  }

  lemma {:induction false} BlockKeyID(v: View, w: View, txs: seq<Tx>)
    requires AllAcceptable(v, txs) && AllHaveInputs(txs)
    ensures FirstAdds(txs) == 0 ==> ConnectAll(v, txs).lastKeyID == v.lastKeyID
    ensures DisconnectAll(w, txs).lastKeyID ==
      if FirstAdds(txs) == 0 then w.lastKeyID else CountedOn(v.lastKeyID, FirstAdds(txs) - 1)
    decreases |txs|
  {
    if txs != [] {
      var init, tx := txs[..|txs| - 1], txs[|txs| - 1];
      AcceptablePrefix(v, txs);
      TransactionKeyID(ConnectAll(v, init), w, tx);
      BlockKeyID(v, Disconnect(w, tx), init);
      var below, undone := ConnectAll(v, init), DisconnectAll(Disconnect(w, tx), init);
      assert DisconnectAll(w, txs) == undone && ConnectAll(v, txs) == Connect(below, tx);
      if FirstAdds(init) > 0 {
        assert FirstAdds(txs) == FirstAdds(init);
      } else {
        assert FirstAdds(txs) == AspAdds(KeyOps(tx)) && below.lastKeyID == v.lastKeyID;
      }
    }
  }

  /** Connecting and disconnecting a block gives the same state back exactly when the block is restorable. */
  lemma BlockRoundTrip(v: View, txs: seq<Tx>)
    requires AllAcceptable(v, txs)
    ensures AllHaveInputs(txs) && Alike(DisconnectAll(ConnectAll(v, txs), txs), v)
    ensures DisconnectAll(ConnectAll(v, txs), txs) == v <==> Restorable(txs)
  {
    AcceptableIsFitting(v, txs);
    BlockRestored(v, ConnectAll(v, txs), txs);
    BlockKeyID(v, ConnectAll(v, txs), txs);
    if FirstAdds(txs) > 0 {
      RestoredKeyID(v.lastKeyID, FirstAdds(txs));
    }
  }
}
