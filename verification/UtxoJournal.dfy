/**
 The records of a connected block in the spend journal (blockchain/utxoviewpoint.go, blockchain/chainio.go): they
 are what the journal format can carry, and reading them back undoes the block.
 */
module UtxoJournal {
  import opened Bytes
  import opened Curve
  import opened UtxoView
  import Amount
  import Script
  import StoredOut = TxOut
  import SpendJournal

  // ----- what the records of a block say -----

  /** The origins of the inputs of each transaction. */
  function InputHashes(txs: seq<Tx>): (hashes: seq<seq<Hash>>)
    ensures |hashes| == |txs|
    ensures forall i {:trigger hashes[i]} :: 0 <= i < |txs| ==> hashes[i] == HashesOf(InputsOf(txs[i]))
  {
    seq(|txs|, i requires 0 <= i < |txs| => HashesOf(InputsOf(txs[i])))
  }

  /** The transactions the spends of a block take from, in order. */
  function OriginsOf(txs: seq<Tx>): (origins: seq<Hash>) {
    SpendJournal.Origins(InputHashes(txs))
  }

  lemma OriginsSnoc(txs: seq<Tx>)
    requires txs != []
    ensures OriginsOf(txs) == OriginsOf(txs[..|txs| - 1]) + HashesOf(InputsOf(txs[|txs| - 1]))
  {
    assert InputHashes(txs)[..|txs| - 1] == InputHashes(txs[..|txs| - 1]);
  }

  /** The coinbase in front makes no difference. */
  lemma {:induction false} OriginsWithoutCoinbase(txs: seq<Tx>)
    requires txs != [] && txs[0].isCoinBase
    ensures OriginsOf(txs[1..]) == OriginsOf(txs)
  {
    OriginsSnoc(txs);
    if |txs| == 1 {
      assert txs[..0] == txs[1..] == [];
    } else {
      OriginsSnoc(txs[1..]);
      OriginsWithoutCoinbase(txs[..|txs| - 1]);
      assert txs[1..][..|txs| - 2] == txs[..|txs| - 1][1..];
    }
  }

  function HashesOf(inputs: seq<OutPoint>): (hashes: seq<Hash>)
    ensures |hashes| == |inputs|
  {
    if inputs == [] then [] else HashesOf(inputs[..|inputs| - 1]) + [inputs[|inputs| - 1].hash]
  }

  /** A record has the version of its entry, and the rest of it exactly if it is the last one of a fully spent entry. */
  ghost predicate RecordAt(f: Entries, origins: seq<Hash>, stxos: seq<Stxo>, i: nat)
    requires i < |origins| == |stxos|
  {
    && origins[i] in f
    && stxos[i].version == f[origins[i]].version
    && if SpendJournal.LastSpend(origins, origins[i]) == i && FullySpent(f[origins[i]])
       then stxos[i].height == f[origins[i]].height
       else stxos[i].height == 0 && !stxos[i].isCoinBase
  }

  ghost predicate Records(f: Entries, origins: seq<Hash>, stxos: seq<Stxo>) {
    && |origins| == |stxos|
    && forall i {:trigger RecordAt(f, origins, stxos, i)} :: 0 <= i < |stxos| ==> RecordAt(f, origins, stxos, i)
  }

  lemma LastSpendSnoc(origins: seq<Hash>, h: Hash, g: Hash)
    ensures SpendJournal.LastSpend(origins + [h], g) == if g == h then |origins| else SpendJournal.LastSpend(origins, g)
  {
    assert (origins + [h])[..|origins|] == origins;
  }

  /** Spending one more output adds its record. */
  lemma SpendRecords(f: Entries, op: OutPoint, origins: seq<Hash>, stxos: seq<Stxo>)
    requires Records(f, origins, stxos) && CoinAt(f, op).Some?
    ensures var r := SpendInput(f, op).value; Records(r.0, origins + [op.hash], stxos + [r.1])
  {
    var (f', stxo) := SpendInput(f, op).value;
    var origins', stxos' := origins + [op.hash], stxos + [stxo];
    assert !FullySpent(f[op.hash]);
    forall i | 0 <= i < |stxos'| ensures RecordAt(f', origins', stxos', i) {
      LastSpendSnoc(origins, op.hash, origins'[i]);
      if i < |stxos| {
        assert RecordAt(f, origins, stxos, i);
      }
    }
  }

  lemma {:induction false} InputsRecords(f: Entries, inputs: seq<OutPoint>, origins: seq<Hash>, stxos: seq<Stxo>)
    requires Records(f, origins, stxos) && Spendable(f, inputs) && SpendInputs(f, inputs).Some?
    ensures var r := SpendInputs(f, inputs).value; Records(r.0, origins + HashesOf(inputs), stxos + r.1)
  {
    if inputs == [] {
      assert origins + [] == origins && stxos + [] == stxos;
    } else {
      var init, op := inputs[..|inputs| - 1], inputs[|inputs| - 1];
      SpendablePrefix(f, inputs);
      InputsRecords(f, init, origins, stxos);
      var before := SpendInputs(f, init).value;
      SpendRecords(before.0, op, origins + HashesOf(init), stxos + before.1);
      Associative(origins, HashesOf(init), [op.hash]);
      Associative(stxos, before.1, [SpendInput(before.0, op).value.1]);
    }
  }

  /** A new transaction leaves the records of the others alone. */
  lemma CreateRecords(f: Entries, tx: Tx, height: Uint32, origins: seq<Hash>, stxos: seq<Stxo>)
    requires Records(f, origins, stxos) && tx.hash !in f
    ensures Records(AddTxOuts(f, tx, height), origins, stxos)
  {
    var f' := AddTxOuts(f, tx, height);
    forall i | 0 <= i < |stxos| ensures RecordAt(f', origins, stxos, i) {
      assert RecordAt(f, origins, stxos, i);
    }
  }

  lemma {:induction false} BlockRecords(f: Entries, txs: seq<Tx>, height: Uint32)
    requires ValidBlock(f, txs, height) && ConnectTxs(f, txs, height).Some?
    ensures var r := ConnectTxs(f, txs, height).value; Records(r.0, OriginsOf(txs), r.1)
  {
    if txs != [] {
      var init, tx := txs[..|txs| - 1], txs[|txs| - 1];
      OriginsSnoc(txs);
      ValidPrefix(f, txs, height);
      BlockRecords(f, init, height);
      var before := ConnectTxs(f, init, height).value;
      InputsRecords(before.0, InputsOf(tx), OriginsOf(init), before.1);
      var spent := SpendInputs(before.0, InputsOf(tx)).value;
      SpendKeepsKeys(before.0, InputsOf(tx));
      CreateRecords(spent.0, tx, height, OriginsOf(init) + HashesOf(InputsOf(tx)), before.1 + spent.1);
    }
  }

  // ----- the journal -----

  /** A record as the journal takes it. */
  function ToSpent(stxo: Stxo): (r: SpendJournal.SpentTxOut) {
    var out := StoredOut.Output(false, stxo.value.amount, stxo.value.script);
    SpendJournal.SpentTxOut(out, stxo.version, stxo.height, stxo.isCoinBase)
  }

  function AllToSpent(stxos: seq<Stxo>): (r: seq<SpendJournal.SpentTxOut>)
    ensures |r| == |stxos|
    ensures forall i {:trigger r[i]} :: 0 <= i < |r| ==> r[i] == ToSpent(stxos[i])
  {
    seq(|stxos|, i requires 0 <= i < |stxos| => ToSpent(stxos[i]))
  }

  /** The versions a view over the stored set knows. */
  function Versions(entries: Entries): (view: SpendJournal.View) {
    map h | h in entries :: entries[h].version
  }

  /** What the stored set says about the origin of a record. */
  ghost predicate KnownAt(f: Entries, view: SpendJournal.View, h: Hash) {
    && (h in view <==> h in f && !FullySpent(f[h]))
    && (h in view ==> view[h] == f[h].version)
  }

  lemma StoredVersions(f: Entries, h: Hash)
    ensures KnownAt(f, Versions(Pruned(f)), h)
  {
  }

  /** dbFetchSpendJournalEntry: reads the journal of a block along its transactions after the coinbase. */
  method FetchSpendJournal(serialized: Bytes, txs: seq<Tx>, stored: Entries)
    returns (r: StoredOut.Result<seq<SpendJournal.SpentTxOut>>)
    requires txs != [] && txs[0].isCoinBase
    ensures r == SpendJournal.Entries(SpendJournal.Deserialize(serialized, Versions(stored), OriginsOf(txs)))
  {
    OriginsWithoutCoinbase(txs);
    r := SpendJournal.DeserializeJournal(serialized, InputHashes(txs[1..]), Versions(stored));
  }

  /** What reading spend `i` back needs: a height on the last spend from a transaction, or else a version. */
  ghost predicate JournaledAt(after: Entries, origins: seq<Hash>, i: nat)
    requires i < |origins| && origins[i] in after
  {
    if SpendJournal.LastSpend(origins, origins[i]) == i && FullySpent(after[origins[i]])
    then after[origins[i]].height != 0
    else after[origins[i]].version != 0
  }

  /** Every spend of a block can be read back from its journal, given the entries after the block. */
  ghost predicate Journaled(after: Entries, origins: seq<Hash>) {
    forall i {:trigger JournaledAt(after, origins, i)} :: 0 <= i < |origins| ==>
      origins[i] in after && JournaledAt(after, origins, i)
  }

  lemma RecordIsResolvable(f: Entries, view: SpendJournal.View, origins: seq<Hash>, stxos: seq<Stxo>, i: nat)
    requires Records(f, origins, stxos) && i < |stxos| && KnownAt(f, view, origins[i])
    ensures origins[i] in f
    ensures SpendJournal.Honest(view, origins, AllToSpent(stxos), i)
    ensures SpendJournal.Resolvable(view, origins, AllToSpent(stxos), i) <==> JournaledAt(f, origins, i)
  {
    assert RecordAt(f, origins, stxos, i);
    var j := SpendJournal.LastSpend(origins, origins[i]);
    assert RecordAt(f, origins, stxos, j);
    assert AllToSpent(stxos)[i] == ToSpent(stxos[i]) && AllToSpent(stxos)[j] == ToSpent(stxos[j]);
  }

  /** What undoing a block reads from its journal. */
  ghost function ReadBack(curve: Curve, f: Entries, txs: seq<Tx>, height: Uint32)
    : (r: StoredOut.Result<(seq<SpendJournal.SpentTxOut>, Bytes)>)
    requires ConnectTxs(f, txs, height).Some?
  {
    var (after, stxos) := ConnectTxs(f, txs, height).value;
    SpendJournal.Deserialize(
      SpendJournal.Serialize(curve, AllToSpent(stxos)), Versions(Pruned(after)), OriginsOf(txs))
  }

  /** The journal of a valid block is read back if and only if every spend is journaled, and refused otherwise. */
  lemma JournalReads(curve: Curve, f: Entries, txs: seq<Tx>, height: Uint32)
    requires ValidBlock(f, txs, height)
    requires ConnectTxs(f, txs, height).Some?
    requires SpendJournal.AllStorable(AllToSpent(ConnectTxs(f, txs, height).value.1))
    ensures var (after, stxos) := ConnectTxs(f, txs, height).value;
      var read := ReadBack(curve, f, txs, height);
      && (read == StoredOut.Ok((SpendJournal.StoredAll(curve, AllToSpent(stxos)), [])) <==>
        Journaled(after, OriginsOf(txs)))
      && (read == StoredOut.Err(StoredOut.MissingVersion) <==> !Journaled(after, OriginsOf(txs)))
  {
    var (after, stxos) := ConnectTxs(f, txs, height).value;
    BlockRecords(f, txs, height);
    RecordsRead(curve, after, OriginsOf(txs), stxos);
  }

  lemma RecordsRead(curve: Curve, after: Entries, origins: seq<Hash>, stxos: seq<Stxo>)
    requires Records(after, origins, stxos) && SpendJournal.AllStorable(AllToSpent(stxos))
    ensures var spent := AllToSpent(stxos);
      var read := SpendJournal.Deserialize(SpendJournal.Serialize(curve, spent), Versions(Pruned(after)), origins);
      && (read == StoredOut.Ok((SpendJournal.StoredAll(curve, spent), [])) <==> Journaled(after, origins))
      && (read == StoredOut.Err(StoredOut.MissingVersion) <==> !Journaled(after, origins))
  {
    var view, spent := Versions(Pruned(after)), AllToSpent(stxos);
    forall i | 0 <= i < |spent|
      ensures origins[i] in after && SpendJournal.Honest(view, origins, spent, i)
      ensures SpendJournal.Resolvable(view, origins, spent, i) <==> JournaledAt(after, origins, i)
    {
      StoredVersions(after, origins[i]);
      RecordIsResolvable(after, view, origins, stxos, i);
    }
    SpendJournal.RoundTrip(curve, view, origins, spent);
    SpendJournal.ReadOrRefused(curve, view, origins, spent);
  }

  // ----- there and back -----

  /** An amount and a script the compressed form can hold. */
  predicate Ordinary(v: Value) {
    Amount.Compress(ToUint64(v.amount)) < TWO64 && |v.script| < TWO63 - 10
  }

  const MAX_ATOMS: nat := 2_100_000_000_000_000

  /** Every amount that validation allows is one the compressed form can hold. */
  lemma AllowedIsOrdinary(v: Value)
    requires 0 <= v.amount <= MAX_ATOMS && |v.script| < TWO63 - 10
    ensures Ordinary(v)
  {
    Amount.CompressBound(v.amount);
  }

  ghost predicate OrdinaryAt(f: Entries, h: Hash)
    requires h in f
  {
    forall i :: i in f[h].outputs ==> Ordinary(f[h].outputs[i].value)
  }

  ghost predicate AllOrdinary(f: Entries) {
    forall h {:trigger OrdinaryAt(f, h)} :: h in f ==> OrdinaryAt(f, h)
  }

  ghost predicate OrdinaryRecords(stxos: seq<Stxo>) {
    forall i :: 0 <= i < |stxos| ==> Ordinary(stxos[i].value)
  }

  lemma SpendIsOrdinary(f: Entries, op: OutPoint)
    requires AllOrdinary(f) && SpendInput(f, op).Some?
    ensures AllOrdinary(SpendInput(f, op).value.0) && Ordinary(SpendInput(f, op).value.1.value)
  {
    var f' := SpendInput(f, op).value.0;
    assert OrdinaryAt(f, op.hash);
    forall h | h in f' ensures OrdinaryAt(f', h) {
      assert OrdinaryAt(f, h);
    }
  }

  lemma {:induction false} SpendsAreOrdinary(f: Entries, inputs: seq<OutPoint>)
    requires AllOrdinary(f) && SpendInputs(f, inputs).Some?
    ensures AllOrdinary(SpendInputs(f, inputs).value.0) && OrdinaryRecords(SpendInputs(f, inputs).value.1)
  {
    if inputs != [] {
      SpendsAreOrdinary(f, inputs[..|inputs| - 1]);
      SpendIsOrdinary(SpendInputs(f, inputs[..|inputs| - 1]).value.0, inputs[|inputs| - 1]);
    }
  }

  ghost predicate OrdinaryOutputs(tx: Tx) {
    forall i :: 0 <= i < |tx.outputs| ==> Ordinary(tx.outputs[i].value)
  }

  lemma {:induction false} CreatedIsOrdinary(tx: Tx, n: nat)
    requires OrdinaryOutputs(tx) && n <= |tx.outputs|
    ensures forall i :: i in Created(tx.outputs, n) ==> Ordinary(Created(tx.outputs, n)[i].value)
  {
    if n > 0 {
      CreatedIsOrdinary(tx, n - 1);
    }
  }

  lemma AddIsOrdinary(f: Entries, tx: Tx, height: Uint32)
    requires AllOrdinary(f) && OrdinaryOutputs(tx)
    ensures AllOrdinary(AddTxOuts(f, tx, height))
  {
    var f' := AddTxOuts(f, tx, height);
    CreatedIsOrdinary(tx, |tx.outputs|);
    forall h | h in f' ensures OrdinaryAt(f', h) {
      if h in f {
        assert OrdinaryAt(f, h);
      }
    }
  }

  lemma {:induction false} BlockIsOrdinary(f: Entries, txs: seq<Tx>, height: Uint32)
    requires AllOrdinary(f) && ConnectTxs(f, txs, height).Some?
    requires forall i :: 0 <= i < |txs| ==> OrdinaryOutputs(txs[i])
    ensures AllOrdinary(ConnectTxs(f, txs, height).value.0) && OrdinaryRecords(ConnectTxs(f, txs, height).value.1)
  {
    if txs != [] {
      var init, tx := txs[..|txs| - 1], txs[|txs| - 1];
      BlockIsOrdinary(f, init, height);
      var before := ConnectTxs(f, init, height).value.0;
      SpendsAreOrdinary(before, InputsOf(tx));
      AddIsOrdinary(SpendInputs(before, InputsOf(tx)).value.0, tx, height);
    }
  }

  /** A record read from the journal, with its output decompressed when it is looked at. */
  ghost function FromSpent(curve: Curve, s: SpendJournal.SpentTxOut): (stxo: Stxo) {
    Stxo(s.version, s.isCoinBase, s.height, Decompressed(curve, s.out))
  }

  /** maybeDecompress. */
  ghost function Decompressed(curve: Curve, out: StoredOut.Output): (v: Value) {
    if !out.compressed then
      Value(out.amount, out.script)
    else
      var script := if Script.Framed(out.script) then Script.Decompress(curve, out.script) else None;
      Value(ToInt64(Amount.Decompress(ToUint64(out.amount)) % TWO64), if script.Some? then script.value else [])
  }

  ghost function AllFromSpent(curve: Curve, s: seq<SpendJournal.SpentTxOut>): (stxos: seq<Stxo>)
    ensures |stxos| == |s|
    ensures forall i {:trigger stxos[i]} :: 0 <= i < |s| ==> stxos[i] == FromSpent(curve, s[i])
  {
    seq(|s|, i requires 0 <= i < |s| => FromSpent(curve, s[i]))
  }

  lemma StoredRecord(curve: Curve, stxo: Stxo)
    requires Lawful(curve) && Ordinary(stxo.value)
    ensures FromSpent(curve, SpendJournal.Stored(curve, ToSpent(stxo))) == stxo
  {
    StoredOut.DecompressStored(curve, ToSpent(stxo).out);
  }

  lemma StoredRecords(curve: Curve, stxos: seq<Stxo>)
    requires Lawful(curve) && OrdinaryRecords(stxos)
    ensures AllFromSpent(curve, SpendJournal.StoredAll(curve, AllToSpent(stxos))) == stxos
  {
    forall i | 0 <= i < |stxos|
      ensures AllFromSpent(curve, SpendJournal.StoredAll(curve, AllToSpent(stxos)))[i] == stxos[i]
    {
      StoredRecord(curve, stxos[i]);
    }
  }

  /**
   Undoing a block with what is read back from its journal restores the stored set it was connected to; it can be
   read back if and only if every spend is journaled.
   */
  lemma JournalRestores(curve: Curve, f: Entries, txs: seq<Tx>, height: Uint32)
    requires Lawful(curve) && ValidBlock(f, txs, height) && AllOrdinary(f)
    requires forall i :: 0 <= i < |txs| ==> OrdinaryOutputs(txs[i])
    ensures ConnectTxs(f, txs, height).Some?
    ensures var after, read := ConnectTxs(f, txs, height).value.0, ReadBack(curve, f, txs, height);
      && (read.Ok? <==> Journaled(after, OriginsOf(txs)))
      && (read.Ok? ==>
            && |read.value.0| == CountInputs(txs)
            && Pruned(DisconnectTxs(Pruned(after), txs, AllFromSpent(curve, read.value.0), height)) == Pruned(f))
  {
    ValidConnects(f, txs, height);
    BlockIsOrdinary(f, txs, height);
    var (after, stxos) := ConnectTxs(f, txs, height).value;
    JournalReads(curve, f, txs, height);
    StoredRecords(curve, stxos);
    BlockRestored(f, txs, height);
  }

  // ----- blocks that cannot be undone -----

  /** A coinbase and a transaction with one input, both new, with any outputs. */
  ghost predicate SpendingBlock(f: Entries, txs: seq<Tx>, op: OutPoint) {
    && |txs| == 2 && txs[0].isCoinBase && !txs[1].isCoinBase && txs[1].inputs == [op]
    && CoinAt(f, op).Some? && txs[0].hash !in f && txs[1].hash !in f && txs[0].hash != txs[1].hash
  }

  lemma OneInput(f: Entries, op: OutPoint)
    requires CoinAt(f, op).Some?
    ensures Spendable(f, [op])
    ensures var e := Spend(f[op.hash], op.index);
      SpendInputs(f, [op]) == Some((f[op.hash := e], [Record(e, op.index)]))
  {
    var inputs := [op];
    assert inputs[..0] == [] && SpendInputs(f, []) == Some((f, []));
    assert SpendableAt(f, inputs, 0);
    var stxo := Record(Spend(f[op.hash], op.index), op.index);
    assert SpendInput(f, op).value.1 == stxo && [] + [stxo] == [stxo];
  }

  lemma TwoTransactions(f: Entries, txs: seq<Tx>, height: Uint32)
    requires |txs| == 2 && txs[0].isCoinBase && txs[0].hash !in f
    requires var first := AddTxOuts(f, txs[0], height); txs[1].hash !in first && Spendable(first, InputsOf(txs[1]))
    ensures ValidBlock(f, txs, height)
    ensures ConnectTxs(f, txs, height) == ConnectTx(AddTxOuts(f, txs[0], height), txs[1], height)
  {
    var first := AddTxOuts(f, txs[0], height);
    assert txs[..0] == [] && txs[..1] == [txs[0]] && [txs[0]][..0] == [];
    assert ConnectTx(f, txs[0], height) == Some((first, []));
    assert ConnectTxs(f, txs[..1], height) == Some((first, []));
    SpendableSpends(first, InputsOf(txs[1]));
    var last := ConnectTx(first, txs[1], height);
    assert last.Some? && [] + last.value.1 == last.value.1;
    assert ValidAt(f, txs, height, 0) && ValidAt(f, txs, height, 1);
  }

  lemma SpendingBlockOrigins(f: Entries, txs: seq<Tx>, op: OutPoint)
    requires SpendingBlock(f, txs, op)
    ensures OriginsOf(txs) == [op.hash]
  {
    OriginsWithoutCoinbase(txs);
    OriginsSnoc(txs[1..]);
    assert txs[1..][..0] == [] && OriginsOf([]) == [];
    assert HashesOf([op]) == HashesOf([]) + [op.hash];
  }

  lemma SpendingBlockConnects(f: Entries, txs: seq<Tx>, op: OutPoint, height: Uint32)
    requires SpendingBlock(f, txs, op)
    ensures ValidBlock(f, txs, height) && ConnectTxs(f, txs, height).Some?
    ensures var (after, stxos) := ConnectTxs(f, txs, height).value;
      && op.hash in after && after[op.hash] == Spend(f[op.hash], op.index)
      && |stxos| == 1 && stxos[0].value == f[op.hash].outputs[op.index].value
  {
    var first := AddTxOuts(f, txs[0], height);
    assert first[op.hash] == f[op.hash];
    OneInput(first, op);
    TwoTransactions(f, txs, height);
  }

  lemma OneSpendIsJournaled(after: Entries, h: Hash)
    requires h in after
    ensures Journaled(after, [h]) <==> if FullySpent(after[h]) then after[h].height != 0 else after[h].version != 0
  {
    assert SpendJournal.LastSpend([h], h) == 0;
    assert Journaled(after, [h]) <==> JournaledAt(after, [h], 0);
  }

  /** The journal of such a block is refused exactly when what is left of the entry cannot tell what it should. */
  lemma SpendingBlockRefused(curve: Curve, f: Entries, txs: seq<Tx>, op: OutPoint, height: Uint32)
    requires SpendingBlock(f, txs, op) && |f[op.hash].outputs[op.index].value.script| < TWO63 - 10
    ensures ValidBlock(f, txs, height) && ConnectTxs(f, txs, height).Some?
    ensures ReadBack(curve, f, txs, height) == StoredOut.Err(StoredOut.MissingVersion) <==>
      var e := f[op.hash]; if FullySpent(Spend(e, op.index)) then e.height == 0 else e.version == 0
  {
    SpendingBlockConnects(f, txs, op, height);
    SpendingBlockOrigins(f, txs, op);
    var (after, stxos) := ConnectTxs(f, txs, height).value;
    assert AllToSpent(stxos)[0] == ToSpent(stxos[0]);
    JournalReads(curve, f, txs, height);
    OneSpendIsJournaled(after, op.hash);
  }

  /** A block that spends the last output of the genesis coinbase, or of another entry of height zero, is stuck. */
  lemma LastOutputAtHeightZero(curve: Curve, f: Entries, txs: seq<Tx>, op: OutPoint, height: Uint32)
    requires SpendingBlock(f, txs, op) && |f[op.hash].outputs[op.index].value.script| < TWO63 - 10
    requires f[op.hash].height == 0 && f[op.hash].outputs.Keys == {op.index}
    ensures ValidBlock(f, txs, height) && ConnectTxs(f, txs, height).Some?
    ensures ReadBack(curve, f, txs, height) == StoredOut.Err(StoredOut.MissingVersion)
  {
    SpendingBlockRefused(curve, f, txs, op, height);
  }

  /** So is one that spends some but not all outputs of a transaction with version zero. */
  lemma PartOfVersionZero(curve: Curve, f: Entries, txs: seq<Tx>, op: OutPoint, other: Uint32, height: Uint32)
    requires SpendingBlock(f, txs, op) && |f[op.hash].outputs[op.index].value.script| < TWO63 - 10
    requires f[op.hash].version == 0 && CoinAt(f, OutPoint(op.hash, other)).Some? && other != op.index
    ensures ValidBlock(f, txs, height) && ConnectTxs(f, txs, height).Some?
    ensures ReadBack(curve, f, txs, height) == StoredOut.Err(StoredOut.MissingVersion)
  {
    SpendingBlockRefused(curve, f, txs, op, height);
    assert !Spend(f[op.hash], op.index).outputs[other].spent;
  }

  /** A block whose transactions have inputs and outputs, as validation asks. */
  function SoundBlock(op: OutPoint, v: Value): (txs: seq<Tx>) {
    [Tx(Hash(1), 1, true, [OutPoint(Hash(9), 0)], [Output(v, false)]), Tx(Hash(2), 1, false, [op], [Output(v, false)])]
  }

  /** It is stuck on a set that is down to the last output of a transaction of height zero. */
  lemma StuckAtHeightZero(curve: Curve, v: Value, height: Uint32)
    requires |v.script| < TWO63 - 10
    ensures var op := OutPoint(Hash(0), 0);
      var f := map[op.hash := Entry(1, true, 0, map[0 := Utxo(false, v)])];
      && ValidBlock(f, SoundBlock(op, v), height) && ConnectTxs(f, SoundBlock(op, v), height).Some?
      && ReadBack(curve, f, SoundBlock(op, v), height) == StoredOut.Err(StoredOut.MissingVersion)
  {
    var op := OutPoint(Hash(0), 0);
    var f := map[op.hash := Entry(1, true, 0, map[0 := Utxo(false, v)])];
    LastOutputAtHeightZero(curve, f, SoundBlock(op, v), op, height);
  }

  /** And on one with two outputs of a transaction of version zero. */
  lemma StuckAtVersionZero(curve: Curve, v: Value, height: Uint32)
    requires |v.script| < TWO63 - 10
    ensures var op := OutPoint(Hash(0), 0);
      var f := map[op.hash := Entry(0, false, 1, map[0 := Utxo(false, v), 1 := Utxo(false, v)])];
      && ValidBlock(f, SoundBlock(op, v), height) && ConnectTxs(f, SoundBlock(op, v), height).Some?
      && ReadBack(curve, f, SoundBlock(op, v), height) == StoredOut.Err(StoredOut.MissingVersion)
  {
    var op := OutPoint(Hash(0), 0);
    var f := map[op.hash := Entry(0, false, 1, map[0 := Utxo(false, v), 1 := Utxo(false, v)])];
    PartOfVersionZero(curve, f, SoundBlock(op, v), op, 1, height);
  }
}
