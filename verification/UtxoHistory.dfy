/**
 Runs of the stored set through the bytes of the spend journal (blockchain/chain.go, blockchain/chainio.go): every
 connected block leaves its journal behind, and taking it off again reads that journal.
 */
module UtxoHistory {
  import opened Bytes
  import opened Curve
  import opened UtxoView
  import opened UtxoJournal
  import SpendJournal

  /** The chain and its stored sets, with the journal of every connected block. */
  datatype Recorded = Recorded(history: History, journals: seq<Bytes>)

  /** The outputs of a block have amounts and scripts that their compressed form can hold. */
  ghost predicate OrdinaryBlock(b: Block) {
    forall i :: 0 <= i < |b.txs| ==> OrdinaryOutputs(b.txs[i])
  }

  /** What is written for a block when it is connected. */
  function JournalOf(curve: Curve, entries: Entries, b: Block): (journal: Bytes)
    requires ConnectTxs(entries, b.txs, b.height).Some?
  {
    SpendJournal.Serialize(curve, AllToSpent(ConnectTxs(entries, b.txs, b.height).value.1))
  }

  /** Block `k` has its journal, and both it and the set it was connected to are ordinary. */
  ghost predicate JournalAt(curve: Curve, r: Recorded, k: nat)
    requires k < |r.journals| == |r.history.blocks| && k < |r.history.sets|
  {
    var entries, b := r.history.sets[k], r.history.blocks[k];
    && AllOrdinary(entries) && OrdinaryBlock(b)
    && ConnectTxs(entries, b.txs, b.height).Some? && r.journals[k] == JournalOf(curve, entries, b)
  }

  /** What every move keeps. */
  ghost predicate Kept(curve: Curve, r: Recorded) {
    var h := r.history;
    && Consistent(h) && |r.journals| == |h.blocks|
    && Pruned(h.sets[|h.blocks|]) == h.sets[|h.blocks|] && AllOrdinary(h.sets[|h.blocks|])
    && forall k {:trigger JournalAt(curve, r, k)} :: 0 <= k < |h.blocks| ==> JournalAt(curve, r, k)
  }

  // ----- connecting -----

  lemma PrunedIsOrdinary(f: Entries)
    requires AllOrdinary(f)
    ensures AllOrdinary(Pruned(f))
  {
    forall h | h in Pruned(f) ensures OrdinaryAt(Pruned(f), h) {
      assert OrdinaryAt(f, h);
    }
  }

  ghost function Extended(curve: Curve, r: Recorded, b: Block): (r': Recorded)
    requires Consistent(r.history) && ConnectTxs(r.history.sets[|r.history.blocks|], b.txs, b.height).Some?
  {
    Recorded(Step(r.history, Extend(b)), r.journals + [JournalOf(curve, r.history.sets[|r.history.blocks|], b)])
  }

  /** A valid ordinary block leads to an ordinary stored set. */
  lemma StoredIsOrdinary(entries: Entries, b: Block)
    requires ValidBlock(entries, b.txs, b.height) && AllOrdinary(entries) && OrdinaryBlock(b)
    ensures ConnectTxs(entries, b.txs, b.height).Some?
    ensures AllOrdinary(Stored(entries, b)) && Pruned(Stored(entries, b)) == Stored(entries, b)
  {
    ValidConnects(entries, b.txs, b.height);
    var after := ConnectTxs(entries, b.txs, b.height).value.0;
    BlockIsOrdinary(entries, b.txs, b.height);
    PrunedIsOrdinary(after);
    PrunedTwice(after);
  }

  /** The journals below stay, and the new block has its own. */
  lemma ExtendedJournal(curve: Curve, r: Recorded, b: Block, r': Recorded, k: nat)
    requires Kept(curve, r) && OrdinaryBlock(b) && k <= |r.history.blocks|
    requires ConnectTxs(r.history.sets[|r.history.blocks|], b.txs, b.height).Some?
    requires r'.history.blocks == r.history.blocks + [b]
    requires |r'.history.sets| == |r.history.sets| + 1 && r.history.sets <= r'.history.sets
    requires r'.journals == r.journals + [JournalOf(curve, r.history.sets[|r.history.blocks|], b)]
    ensures JournalAt(curve, r', k)
  {
    if k < |r.history.blocks| {
      assert JournalAt(curve, r, k);
    }
  }

  lemma ExtendKeeps(curve: Curve, r: Recorded, b: Block)
    requires Kept(curve, r) && OrdinaryBlock(b)
    requires ValidBlock(r.history.sets[|r.history.blocks|], b.txs, b.height)
    ensures ConnectTxs(r.history.sets[|r.history.blocks|], b.txs, b.height).Some?
    ensures Kept(curve, Extended(curve, r, b))
  {
    StoredIsOrdinary(r.history.sets[|r.history.blocks|], b);
    ExtendConsistent(r.history, b);
    var r' := Extended(curve, r, b);
    forall k | 0 <= k < |r'.history.blocks| ensures JournalAt(curve, r', k) {
      ExtendedJournal(curve, r, b, r', k);
    }
  }

  // ----- taking the tip off -----

  /** Whether every spend of the tip can be read back from its journal. */
  ghost predicate TipJournaled(h: History)
    requires Consistent(h) && h.blocks != []
  {
    var n := |h.blocks| - 1;
    assert LeadsOn(h, n);
    Journaled(ConnectTxs(h.sets[n], h.blocks[n].txs, h.blocks[n].height).value.0, OriginsOf(h.blocks[n].txs))
  }

  /** The tip is taken off with what its journal tells over the stored set, unless that cannot be read. */
  ghost function Retracted(curve: Curve, r: Recorded): (r': Option<Recorded>)
    requires Kept(curve, r) && r.history.blocks != []
  {
    var h, n := r.history, |r.history.blocks| - 1;
    var b, current := h.blocks[n], h.sets[n + 1];
    var read := SpendJournal.Deserialize(r.journals[n], Versions(current), OriginsOf(b.txs));
    if read.Err? || |read.value.0| != CountInputs(b.txs) then
      None
    else
      var entries := Pruned(DisconnectTxs(current, b.txs, AllFromSpent(curve, read.value.0), b.height));
      Some(Recorded(History(h.blocks[..n], h.sets[..n] + [entries]), r.journals[..n]))
  }

  /** That works exactly when every spend of the tip is journaled, and then undoes the connect. */
  lemma RetractedIs(curve: Curve, r: Recorded)
    requires Lawful(curve) && Kept(curve, r) && r.history.blocks != []
    ensures Retracted(curve, r) ==
      if TipJournaled(r.history)
      then Some(Recorded(Step(r.history, Retract), r.journals[..|r.history.blocks| - 1]))
      else None
  {
    var h, n := r.history, |r.history.blocks| - 1;
    var b := h.blocks[n];
    assert LeadsOn(h, n) && JournalAt(curve, r, n);
    JournalRestores(curve, h.sets[n], b.txs, b.height);
    BlockRestored(h.sets[n], b.txs, b.height);
  }

  lemma RetractKeeps(curve: Curve, r: Recorded)
    requires Lawful(curve) && Kept(curve, r) && r.history.blocks != [] && Retracted(curve, r).Some?
    ensures Kept(curve, Retracted(curve, r).value)
  {
    RetractedIs(curve, r);
    RetractConsistent(r.history);
    RetractRestores(r.history);
    var r', n := Retracted(curve, r).value, |r.history.blocks| - 1;
    assert JournalAt(curve, r, n);
    forall k | 0 <= k < n ensures JournalAt(curve, r', k) {
      assert JournalAt(curve, r, k);
    }
  }

  // ----- runs -----

  /** A block is connected if it is valid; the tip is taken off if its journal can be read. */
  ghost function RecordedStep(curve: Curve, r: Recorded, m: Move): (r': Recorded)
    requires Lawful(curve) && Kept(curve, r)
    ensures Kept(curve, r')
  {
    match m
    case Extend(b) =>
      if ValidBlock(r.history.sets[|r.history.blocks|], b.txs, b.height) && OrdinaryBlock(b) then
        ExtendKeeps(curve, r, b);
        Extended(curve, r, b)
      else
        r
    case Retract =>
      if r.history.blocks == [] || Retracted(curve, r).None? then
        r
      else
        RetractKeeps(curve, r);
        Retracted(curve, r).value
  }

  ghost function RecordedRun(curve: Curve, entries: Entries, moves: seq<Move>): (r: Recorded)
    requires Lawful(curve) && AllOrdinary(entries)
    ensures Kept(curve, r)
  {
    if moves == [] then
      PrunedTwice(entries);
      PrunedIsOrdinary(entries);
      Recorded(History([], [Pruned(entries)]), [])
    else
      RecordedStep(curve, RecordedRun(curve, entries, moves[..|moves| - 1]), moves[|moves| - 1])
  }

  lemma StartKept(curve: Curve, r: Recorded, m: Move)
    requires Lawful(curve) && Kept(curve, r)
    ensures RecordedStep(curve, r, m).history.sets[0] == r.history.sets[0]
  {
    if m.Retract? && r.history.blocks != [] {
      RetractedIs(curve, r);
      RetractRestores(r.history);
    }
  }

  lemma {:induction false} RunStart(curve: Curve, entries: Entries, moves: seq<Move>)
    requires Lawful(curve) && AllOrdinary(entries)
    ensures RecordedRun(curve, entries, moves).history.sets[0] == Pruned(entries)
  {
    if moves != [] {
      RunStart(curve, entries, moves[..|moves| - 1]);
      StartKept(curve, RecordedRun(curve, entries, moves[..|moves| - 1]), moves[|moves| - 1]);
    }
  }

  /**
   After any run of connects and of disconnects through the journal, the stored set is that of connecting only the
   current chain; and the tip can be taken off exactly when all its spends are journaled.
   */
  lemma JournaledHistory(curve: Curve, entries: Entries, moves: seq<Move>)
    requires Lawful(curve) && AllOrdinary(entries)
    ensures var h := RecordedRun(curve, entries, moves).history;
      Replays(Pruned(entries), h.blocks, h.sets[|h.blocks|])
    ensures var r := RecordedRun(curve, entries, moves);
      r.history.blocks != [] ==> (Retracted(curve, r).Some? <==> TipJournaled(r.history))
  {
    var r := RecordedRun(curve, entries, moves);
    RunStart(curve, entries, moves);
    ConsistentReplays(r.history, 0);
    assert r.history.blocks[0..] == r.history.blocks;
    if r.history.blocks != [] {
      RetractedIs(curve, r);
    }
  }
}
