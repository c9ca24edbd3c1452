/**
 Runs of the admin state (blockchain/keyviewpoint.go): every sequence of blocks connected at the tip and
 disconnected from it.
 */
module KeyHistory {
  import opened Bytes
  import opened KeyView
  import opened KeyParts

  type TxBlock = seq<Tx>

  /** The state obtained by connecting only the given blocks. */
  function Replay(v: View, blocks: seq<TxBlock>): (v': View) {
    if blocks == [] then v else ConnectAll(Replay(v, blocks[..|blocks| - 1]), blocks[|blocks| - 1])
  }

  datatype Move = Extend(txs: TxBlock) | Retract

  /**
   The connected blocks; the view each was connected to, with the current one last; and for each view whether its
   last key ID is to be trusted.
   */
  datatype History = History(blocks: seq<TxBlock>, views: seq<View>, exact: seq<bool>) {
    function Current(): (v: View)
      requires views != []
    {
      views[|views| - 1]
    }
  }

  // ----- runs -----

  /** Block `k` is acceptable to the view it was connected to. */
  ghost predicate AcceptedAt(h: History, k: nat)
    requires k < |h.blocks| && k < |h.views|
  {
    AllAcceptable(h.views[k], h.blocks[k])
  }

  /** View `k` is that of connecting only the blocks below it, but perhaps for the last key ID. */
  ghost predicate TracksAt(v: View, h: History, k: nat)
    requires k < |h.views| && k <= |h.blocks|
  {
    Alike(h.views[k], Replay(v, h.blocks[..k]))
  }

  /** What every move keeps. */
  ghost predicate Tracks(v: View, h: History) {
    && |h.views| == |h.exact| == |h.blocks| + 1
    && (forall k {:trigger AcceptedAt(h, k)} :: 0 <= k < |h.blocks| ==> AcceptedAt(h, k))
    && (forall k {:trigger TracksAt(v, h, k)} :: 0 <= k <= |h.blocks| ==> TracksAt(v, h, k))
  }

  ghost predicate Retractable(h: History) {
    && |h.views| == |h.exact| == |h.blocks| + 1
    && (h.blocks != [] ==> AllHaveInputs(h.blocks[|h.blocks| - 1]))
  }

  /**
   A block is connected at the tip if it is acceptable there; the tip can always be disconnected. The last key ID
   is to be trusted again once a block adds one; after undoing a block that added some it is if it was before that
   block, and the first transaction to add any added a single one.
   */
  function Step(h: History, m: Move): (h': History)
    requires Retractable(h)
  {
    match m
    case Extend(txs) =>
      if AllAcceptable(h.Current(), txs) then
        History(h.blocks + [txs], h.views + [ConnectAll(h.Current(), txs)],
                h.exact + [TotalAdds(txs) > 0 || h.exact[|h.blocks|]])
      else
        h
    case Retract =>
      if h.blocks == [] then
        h
      else
        var n := |h.blocks| - 1;
        History(h.blocks[..n], h.views[..n] + [DisconnectAll(h.Current(), h.blocks[n])],
                h.exact[..n] + [if FirstAdds(h.blocks[n]) == 0 then h.exact[n + 1]
                                else h.exact[n] && FirstAdds(h.blocks[n]) == 1])
  }

  /** Taking the tip off always works, and restores the view below it but perhaps for the last key ID. */
  lemma TipRestored(v: View, h: History)
    requires Tracks(v, h) && h.blocks != []
    ensures var n := |h.blocks| - 1;
      && AllAcceptable(h.views[n], h.blocks[n]) && AllHaveInputs(h.blocks[n])
      && Alike(DisconnectAll(h.Current(), h.blocks[n]), h.views[n])
  {
    var n := |h.blocks| - 1;
    assert AcceptedAt(h, n) && TracksAt(v, h, n) && TracksAt(v, h, n + 1);
    assert h.blocks[..n + 1] == h.blocks && h.blocks[..n + 1][..n] == h.blocks[..n];
    AlikeAfterAll(h.views[n], Replay(v, h.blocks[..n]), h.blocks[n]);
    AcceptableIsFitting(h.views[n], h.blocks[n]);
    BlockRestored(h.views[n], h.Current(), h.blocks[n]);
  }

  lemma ExtendTracks(v: View, h: History, txs: TxBlock)
    requires Tracks(v, h) && Retractable(h) && AllAcceptable(h.Current(), txs)
    ensures Tracks(v, Step(h, Extend(txs)))
  {
    var h', n := Step(h, Extend(txs)), |h.blocks|;
    assert h'.blocks[..n + 1] == h'.blocks && h'.blocks[..n + 1][..n] == h.blocks == h.blocks[..n];
    assert TracksAt(v, h, n);
    AlikeAfterAll(h.Current(), Replay(v, h.blocks), txs);
    forall k | 0 <= k <= n ensures TracksAt(v, h', k) {
      assert TracksAt(v, h, k);
      assert h'.blocks[..k] == h.blocks[..k];
    }
    forall k | 0 <= k <= n ensures AcceptedAt(h', k) {
      assert k < n ==> AcceptedAt(h, k);
    }
  }

  lemma RetractTracks(v: View, h: History)
    requires Tracks(v, h) && Retractable(h) && h.blocks != []
    ensures Tracks(v, Step(h, Retract))
  {
    var h', n := Step(h, Retract), |h.blocks| - 1;
    TipRestored(v, h);
    assert TracksAt(v, h, n) && TracksAt(v, h, n + 1);
    assert h.blocks[..n + 1] == h.blocks;
    forall k | 0 <= k <= n ensures TracksAt(v, h', k) {
      assert TracksAt(v, h, k);
      assert h'.blocks[..k] == h.blocks[..k];
    }
    forall k | 0 <= k < n ensures AcceptedAt(h', k) {
      assert AcceptedAt(h, k);
    }
  }

  lemma StepTracks(v: View, h: History, m: Move)
    requires Tracks(v, h)
    ensures Retractable(h) && Tracks(v, Step(h, m))
  {
    if h.blocks != [] {
      TipRestored(v, h);
    }
    match m
    case Extend(txs) =>
      if AllAcceptable(h.Current(), txs) {
        ExtendTracks(v, h, txs);
      }
    case Retract =>
      if h.blocks != [] {
        RetractTracks(v, h);
      }
  }

  /** The history after a run of moves. */
  ghost function Run(v: View, moves: seq<Move>): (h: History)
    ensures Tracks(v, h)
  {
    if moves == [] then
      var h := History([], [v], [true]);
      assert TracksAt(v, h, 0);
      h
    else
      var h := Run(v, moves[..|moves| - 1]);
      StepTracks(v, h, moves[|moves| - 1]);
      Step(h, moves[|moves| - 1])
  }

  // ----- where the last key ID is to be trusted -----

  /** The key IDs added over a whole run, taken off again or not. */
  function AddsOf(moves: seq<Move>): (n: nat) {
    if moves == [] then
      0
    else
      AddsOf(moves[..|moves| - 1]) + match moves[|moves| - 1] case Extend(txs) => TotalAdds(txs) case Retract => 0
  }

  /** Connecting block `k` counted the last key ID up to at most `cap`. */
  ghost predicate CappedAt(h: History, k: nat, cap: nat)
    requires k < |h.views|
  {
    h.views[k].lastKeyID + (if k < |h.blocks| then TotalAdds(h.blocks[k]) else 0) <= cap
  }

  /** Undoing a block never takes the last key ID below the view it was connected to, unless it leaves it alone. */
  lemma UndoneKeyIDRange(u: View, w: View, txs: TxBlock, cap: nat)
    requires AllAcceptable(u, txs) && AllHaveInputs(txs)
    requires u.lastKeyID + TotalAdds(txs) <= cap < TWO32 && w.lastKeyID <= cap
    ensures DisconnectAll(w, txs).lastKeyID <= cap
    ensures DisconnectAll(w, txs).lastKeyID == w.lastKeyID || DisconnectAll(w, txs).lastKeyID >= u.lastKeyID
  {
    BlockKeyID(u, w, txs);
    FirstIsPartOfTotal(txs);
    if FirstAdds(txs) > 0 {
      CountedOnSmall(u.lastKeyID, FirstAdds(txs) - 1);
    }
  }

  /**
   A last key ID that is to be trusted is right; if few key IDs were added none falls behind, and no other is right.
   */
  predicate Trusted(exact: bool, lastKeyID: Uint32, right: Uint32, cap: nat) {
    && (exact ==> lastKeyID == right)
    && (cap < TWO32 ==> right <= lastKeyID <= cap && (lastKeyID == right ==> exact))
  }

  lemma ExtendedKeyID(cur: View, right: View, txs: TxBlock, exact: bool, cap: nat)
    requires AllAcceptable(cur, txs) && Trusted(exact, cur.lastKeyID, right.lastKeyID, cap)
    ensures Trusted(TotalAdds(txs) > 0 || exact, ConnectAll(cur, txs).lastKeyID, ConnectAll(right, txs).lastKeyID,
      cap + TotalAdds(txs))
  {
    ConnectedKeyID(cur, right, txs);
    ConnectedKeyID(right, cur, txs);
    if cap + TotalAdds(txs) < TWO32 {
      CountedAfterAll(cur, txs);
      CountedOnSmall(cur.lastKeyID, TotalAdds(txs));
    }
  }

  /** Undoing a block whose first adding transaction added `n` key IDs to `id`. */
  lemma UndoneIsTrusted(id: Uint32, right: Uint32, n: nat, exact: bool, cap: nat)
    requires n > 0 && Trusted(exact, id, right, cap) && (cap < TWO32 ==> id + n <= cap)
    ensures Trusted(exact && n == 1, CountedOn(id, n - 1), right, cap)
  {
    if cap < TWO32 {
      CountedOnSmall(id, n - 1);
    }
  }

  /** What undoing a block makes of it: `u` is the view it was connected to, and `w` the one it is taken off. */
  lemma RetractedKeyID(u: View, w: View, right: View, txs: TxBlock, before: bool, after: bool, cap: nat)
    requires AllAcceptable(u, txs) && AllHaveInputs(txs)
    requires Trusted(before, u.lastKeyID, right.lastKeyID, cap)
    requires cap < TWO32 ==> u.lastKeyID + TotalAdds(txs) <= cap
    requires Trusted(after, w.lastKeyID, ConnectAll(right, txs).lastKeyID, cap)
    ensures var first := FirstAdds(txs);
      Trusted(if first == 0 then after else before && first == 1, DisconnectAll(w, txs).lastKeyID, right.lastKeyID, cap)
  {
    var first, undone := FirstAdds(txs), DisconnectAll(w, txs).lastKeyID;
    assert undone == if first == 0 then w.lastKeyID else CountedOn(u.lastKeyID, first - 1) by {
      BlockKeyID(u, w, txs);
    }
    if first == 0 {
      NoneIsNoFirst(txs);
      ConnectedKeyID(right, u, txs);
    } else {
      FirstIsPartOfTotal(txs);
      UndoneIsTrusted(u.lastKeyID, right.lastKeyID, first, before, cap);
    }
  }

  ghost predicate TrustedAt(v: View, h: History, k: nat, cap: nat)
    requires k < |h.views| && k <= |h.blocks| && k < |h.exact|
  {
    && Trusted(h.exact[k], h.views[k].lastKeyID, Replay(v, h.blocks[..k]).lastKeyID, cap)
    && (cap < TWO32 ==> CappedAt(h, k, cap))
  }

  ghost predicate AllTrusted(v: View, h: History, cap: nat) {
    && |h.views| == |h.exact| == |h.blocks| + 1
    && forall k {:trigger TrustedAt(v, h, k, cap)} :: 0 <= k <= |h.blocks| ==> TrustedAt(v, h, k, cap)
  }

  lemma ExtendedIsTrusted(v: View, h: History, txs: TxBlock, cap: nat, h': History)
    requires Retractable(h) && AllAcceptable(h.Current(), txs)
    requires TrustedAt(v, h, |h.blocks|, cap) && h' == Step(h, Extend(txs))
    ensures TrustedAt(v, h', |h.blocks| + 1, cap + TotalAdds(txs))
  {
    var n := |h.blocks|;
    assert h'.blocks[..n + 1] == h'.blocks && h'.blocks[..n] == h.blocks[..n] == h.blocks;
    ExtendedKeyID(h.Current(), Replay(v, h.blocks), txs, h.exact[n], cap);
  }

  lemma PrefixIsTrusted(v: View, h: History, txs: TxBlock, cap: nat, h': History, k: nat)
    requires Retractable(h) && AllAcceptable(h.Current(), txs) && h' == Step(h, Extend(txs))
    requires k <= |h.blocks| && TrustedAt(v, h, k, cap)
    ensures TrustedAt(v, h', k, cap + TotalAdds(txs))
  {
    assert h'.blocks[..k] == h.blocks[..k];
  }

  lemma ExtendTrusted(v: View, h: History, txs: TxBlock, cap: nat, h': History, cap': nat)
    requires Retractable(h) && AllAcceptable(h.Current(), txs)
    requires AllTrusted(v, h, cap) && cap' == cap + TotalAdds(txs) && h' == Step(h, Extend(txs))
    ensures AllTrusted(v, h', cap')
  {
    forall k | 0 <= k <= |h'.blocks| ensures TrustedAt(v, h', k, cap') {
      if k <= |h.blocks| {
        assert TrustedAt(v, h, k, cap);
        PrefixIsTrusted(v, h, txs, cap, h', k);
      } else {
        assert TrustedAt(v, h, |h.blocks|, cap);
        ExtendedIsTrusted(v, h, txs, cap, h');
      }
    }
  }

  lemma RetractedIsTrusted(v: View, h: History, cap: nat)
    requires Tracks(v, h) && Retractable(h) && h.blocks != [] && AllTrusted(v, h, cap)
    ensures var n := |h.blocks| - 1;
      var exact := if FirstAdds(h.blocks[n]) == 0 then h.exact[n + 1] else h.exact[n] && FirstAdds(h.blocks[n]) == 1;
      Trusted(exact, DisconnectAll(h.Current(), h.blocks[n]).lastKeyID, Replay(v, h.blocks[..n]).lastKeyID, cap)
  {
    var n := |h.blocks| - 1;
    assert AcceptedAt(h, n);
    assert TrustedAt(v, h, n, cap) && TrustedAt(v, h, n + 1, cap);
    assert h.blocks[..n + 1] == h.blocks;
    RetractedKeyID(h.views[n], h.Current(), Replay(v, h.blocks[..n]), h.blocks[n], h.exact[n], h.exact[n + 1], cap);
  }

  lemma RetractTrusted(v: View, h: History, cap: nat, h': History)
    requires Tracks(v, h) && Retractable(h) && h.blocks != [] && AllTrusted(v, h, cap) && h' == Step(h, Retract)
    ensures AllTrusted(v, h', cap)
  {
    var n := |h.blocks| - 1;
    assert h'.blocks == h.blocks[..n] == h'.blocks[..n];
    RetractedIsTrusted(v, h, cap);
    assert TrustedAt(v, h', n, cap);
    forall k | 0 <= k < n ensures TrustedAt(v, h', k, cap) {
      assert TrustedAt(v, h, k, cap);
      assert h'.blocks[..k] == h.blocks[..k];
    }
  }

  lemma TrustedStep(v: View, h: History, m: Move, cap: nat, h': History, cap': nat)
    requires Tracks(v, h) && Retractable(h) && AllTrusted(v, h, cap) && h' == Step(h, m)
    requires cap' == cap + match m case Extend(txs) => TotalAdds(txs) case Retract => 0
    ensures AllTrusted(v, h', cap')
  {
    match m
    case Extend(txs) =>
      if AllAcceptable(h.Current(), txs) {
        ExtendTrusted(v, h, txs, cap, h', cap');
      } else {
        forall k | 0 <= k <= |h.blocks| ensures TrustedAt(v, h, k, cap') {
          assert TrustedAt(v, h, k, cap);
        }
      }
    case Retract =>
      if h.blocks != [] {
        RetractTrusted(v, h, cap, h');
      }
  }

  lemma {:induction false} RunTrusted(v: View, moves: seq<Move>, cap: nat)
    requires cap == v.lastKeyID + AddsOf(moves)
    ensures AllTrusted(v, Run(v, moves), cap)
  {
    var h' := Run(v, moves);
    if moves == [] {
      assert TrustedAt(v, h', 0, cap);
    } else {
      var h, m := Run(v, moves[..|moves| - 1]), moves[|moves| - 1];
      var cap0 := v.lastKeyID + AddsOf(moves[..|moves| - 1]);
      RunTrusted(v, moves[..|moves| - 1], cap0);
      StepTracks(v, h, m);
      TrustedStep(v, h, m, cap0, h', cap);
    }
  }

  /**
   After any run the supply, the thread tips, the key sets and the key-ID map are those of connecting only the
   current chain. So is the last key ID where it is to be trusted; over a run that adds fewer than 2^32 key IDs it
   is nowhere else.
   */
  lemma HistoryIndependent(v: View, moves: seq<Move>)
    ensures var h := Run(v, moves); Alike(h.Current(), Replay(v, h.blocks))
    ensures var h := Run(v, moves); h.exact[|h.blocks|] ==> h.Current() == Replay(v, h.blocks)
    ensures var h := Run(v, moves);
      v.lastKeyID + AddsOf(moves) < TWO32 ==> (h.exact[|h.blocks|] <==> h.Current() == Replay(v, h.blocks))
  {
    var h, cap := Run(v, moves), v.lastKeyID + AddsOf(moves);
    RunTrusted(v, moves, cap);
    assert TracksAt(v, h, |h.blocks|) && TrustedAt(v, h, |h.blocks|, cap);
    assert h.blocks[..|h.blocks|] == h.blocks;
  }

  // ----- key IDs stay below the last one -----

  ghost predicate IdsBelow(registers: Registers, bound: Uint32) {
    forall id: Uint32 :: AspKey(id) in registers ==> id <= bound
  }

  lemma AddedIdIsBelow(lastKeyID: Uint32, ops: seq<Op>, i: nat)
    requires i < |ops| && IsAspAdd(ops[i]) && CountsOn(lastKeyID, ops, i) && lastKeyID + AspAdds(ops) < TWO32
    ensures ops[i].keyID <= lastKeyID + AspAdds(ops)
  {
    PrefixAdds(ops, i + 1);
    CountedOnSmall(lastKeyID, AspAdds(ops[..i + 1]));
  }

  lemma AppliedIdsBelow(v: View, ops: seq<Op>, id: Uint32)
    requires IdsBelow(v.registers, v.lastKeyID) && InOrder(v, ops) && v.lastKeyID + AspAdds(ops) < TWO32
    requires AspKey(id) in ApplyAll(v, ops).registers
    ensures id <= v.lastKeyID + AspAdds(ops)
  {
    AppliedAt(v, ops, AspKey(id));
    var last := LastOn(ops, AspKey(id));
    if last.Some? {
      var i :| 0 <= i < |ops| && ops[i] == last.value;
      assert CountsOn(v.lastKeyID, ops, i);
      AddedIdIsBelow(v.lastKeyID, ops, i);
    } else {
      assert AspKey(id) in v.registers;
    }
  }

  lemma BelowAfter(v: View, tx: Tx)
    requires IdsBelow(v.registers, v.lastKeyID) && Acceptable(v, tx) && v.lastKeyID + AspAdds(KeyOps(tx)) < TWO32
    ensures Connect(v, tx).lastKeyID == v.lastKeyID + AspAdds(KeyOps(tx))
    ensures IdsBelow(Connect(v, tx).registers, Connect(v, tx).lastKeyID)
  {
    var ops := KeyOps(tx);
    TransactionKeyID(v, v, tx);
    CountedOnSmall(v.lastKeyID, AspAdds(ops));
    forall id: Uint32 | AspKey(id) in ApplyAll(v, ops).registers ensures id <= v.lastKeyID + AspAdds(ops) {
      AppliedIdsBelow(v, ops, id);
    }
  }

  lemma {:induction false} BelowAfterAll(v: View, txs: seq<Tx>)
    requires IdsBelow(v.registers, v.lastKeyID) && AllAcceptable(v, txs) && v.lastKeyID + TotalAdds(txs) < TWO32
    ensures ConnectAll(v, txs).lastKeyID == v.lastKeyID + TotalAdds(txs)
    ensures IdsBelow(ConnectAll(v, txs).registers, ConnectAll(v, txs).lastKeyID)
  {
    if txs != [] {
      AcceptablePrefix(v, txs);
      BelowAfterAll(v, txs[..|txs| - 1]);
      BelowAfter(ConnectAll(v, txs[..|txs| - 1]), txs[|txs| - 1]);
    }
  }

  /** The last key ID of view `k` covers the key IDs of that view and of every one below it. */
  ghost predicate CoversAt(h: History, k: nat)
    requires k < |h.views|
  {
    forall j {:trigger h.views[j]} :: 0 <= j <= k ==> IdsBelow(h.views[j].registers, h.views[k].lastKeyID)
  }

  ghost predicate Covered(h: History, cap: nat) {
    && |h.views| == |h.blocks| + 1 && cap < TWO32
    && (forall k {:trigger CoversAt(h, k)} :: 0 <= k <= |h.blocks| ==> CoversAt(h, k))
    && (forall k {:trigger CappedAt(h, k, cap)} :: 0 <= k <= |h.blocks| ==> CappedAt(h, k, cap))
  }

  lemma ExtendCovers(v: View, h: History, txs: TxBlock, cap: nat, k: nat)
    requires Tracks(v, h) && Retractable(h) && AllAcceptable(h.Current(), txs)
    requires Covered(h, cap) && cap + TotalAdds(txs) < TWO32 && k <= |h.blocks| + 1
    ensures CoversAt(Step(h, Extend(txs)), k) && CappedAt(Step(h, Extend(txs)), k, cap + TotalAdds(txs))
  {
    var h', n := Step(h, Extend(txs)), |h.blocks|;
    assert CoversAt(h, n) && CappedAt(h, n, cap);
    BelowAfterAll(h.Current(), txs);
    if k <= n {
      assert CoversAt(h, k) && CappedAt(h, k, cap);
    }
    forall j | 0 <= j <= k ensures IdsBelow(h'.views[j].registers, h'.views[k].lastKeyID) {
      if j <= n {
        assert h'.views[j] == h.views[j];
      }
    }
  }

  lemma ExtendCovered(v: View, h: History, txs: TxBlock, cap: nat, h': History, cap': nat)
    requires Tracks(v, h) && Retractable(h) && AllAcceptable(h.Current(), txs)
    requires Covered(h, cap) && cap' == cap + TotalAdds(txs) < TWO32 && h' == Step(h, Extend(txs))
    ensures Covered(h', cap')
  {
    forall k | 0 <= k <= |h'.blocks| ensures CoversAt(h', k) && CappedAt(h', k, cap') {
      ExtendCovers(v, h, txs, cap, k);
    }
  }

  /** The view after the tip was taken off still covers the key IDs of those below it. */
  lemma RetractedCovers(v: View, h: History, cap: nat, w: View)
    requires Tracks(v, h) && Retractable(h) && h.blocks != [] && Covered(h, cap)
    requires w == DisconnectAll(h.Current(), h.blocks[|h.blocks| - 1])
    ensures w.registers == h.views[|h.blocks| - 1].registers && w.lastKeyID <= cap
    ensures forall j {:trigger h.views[j]} :: 0 <= j < |h.blocks| ==> IdsBelow(h.views[j].registers, w.lastKeyID)
  {
    var n := |h.blocks| - 1;
    TipRestored(v, h);
    assert CoversAt(h, n) && CoversAt(h, n + 1) && CappedAt(h, n, cap) && CappedAt(h, n + 1, cap);
    UndoneKeyIDRange(h.views[n], h.Current(), h.blocks[n], cap);
  }

  lemma RetractCovered(v: View, h: History, cap: nat, h': History)
    requires Tracks(v, h) && Retractable(h) && h.blocks != [] && Covered(h, cap) && h' == Step(h, Retract)
    ensures Covered(h', cap)
  {
    var n := |h.blocks| - 1;
    RetractedCovers(v, h, cap, h'.Current());
    forall j | 0 <= j <= n
      ensures h'.views[j].registers == h.views[j].registers && (j < n ==> h'.views[j] == h.views[j])
    {
    }
    forall k | 0 <= k <= n ensures CoversAt(h', k) {
      assert CoversAt(h, k);
    }
    forall k | 0 <= k <= n ensures CappedAt(h', k, cap) {
      assert CappedAt(h, k, cap);
    }
  }

  lemma CoveredStep(v: View, h: History, m: Move, cap: nat, h': History, cap': nat)
    requires Tracks(v, h) && Retractable(h) && Covered(h, cap) && h' == Step(h, m)
    requires cap' == cap + (match m case Extend(txs) => TotalAdds(txs) case Retract => 0) < TWO32
    ensures Covered(h', cap')
  {
    match m
    case Extend(txs) =>
      if AllAcceptable(h.Current(), txs) {
        ExtendCovered(v, h, txs, cap, h', cap');
      } else {
        forall k | 0 <= k <= |h.blocks| ensures CappedAt(h, k, cap') {
          assert CappedAt(h, k, cap);
        }
      }
    case Retract =>
      if h.blocks != [] {
        RetractCovered(v, h, cap, h');
      }
  }

  lemma {:induction false} RunCovered(v: View, moves: seq<Move>, cap: nat)
    requires IdsBelow(v.registers, v.lastKeyID) && cap == v.lastKeyID + AddsOf(moves) < TWO32
    ensures Covered(Run(v, moves), cap)
  {
    var h' := Run(v, moves);
    if moves == [] {
      assert h'.views == [v];
      assert CoversAt(h', 0) && CappedAt(h', 0, cap);
    } else {
      var h, m := Run(v, moves[..|moves| - 1]), moves[|moves| - 1];
      var cap0 := v.lastKeyID + AddsOf(moves[..|moves| - 1]);
      RunCovered(v, moves[..|moves| - 1], cap0);
      StepTracks(v, h, m);
      CoveredStep(v, h, m, cap0, h', cap);
    }
  }

  /** Over every run that adds fewer than 2^32 key IDs, none of those in use exceeds the last one. */
  lemma KeyIDsNeverExceedLast(v: View, moves: seq<Move>)
    requires IdsBelow(v.registers, v.lastKeyID) && v.lastKeyID + AddsOf(moves) < TWO32
    ensures IdsBelow(Run(v, moves).Current().registers, Run(v, moves).Current().lastKeyID)
  {
    RunCovered(v, moves, v.lastKeyID + AddsOf(moves));
    assert CoversAt(Run(v, moves), |Run(v, moves).blocks|);
  }

  // ----- where key IDs wrap around -----

  /** A provisioning transaction that adds the next key ID. */
  function OneAdd(v: View, hash: Hash): (tx: Tx)
    requires ProvisionThread in v.tips
  {
    var op := Op(true, AspKeySet, Key(1), Next(v.lastKeyID));
    Tx(hash, [v.tips[ProvisionThread]], Some(ProvisionThread), [Output(0, false, op), Output(0, true, op)])
  }

  lemma OneAddConnects(v: View, hash: Hash)
    requires ProvisionThread in v.tips && AspKey(Next(v.lastKeyID)) !in v.registers
    ensures AllAcceptable(v, [OneAdd(v, hash)]) && TotalAdds([OneAdd(v, hash)]) == 1
    ensures ConnectAll(v, [OneAdd(v, hash)]).registers == v.registers[AspKey(Next(v.lastKeyID)) := Key(1)]
    ensures ConnectAll(v, [OneAdd(v, hash)]).lastKeyID == Next(v.lastKeyID)
  {
    var tx := OneAdd(v, hash);
    var ops := KeyOps(tx);
    assert ops == [tx.outputs[1].op] && ops[..0] == [] && ops[..1] == ops;
    assert AspAdds(ops) == 1 && ApplyAll(v, ops) == Apply(v, ops[0]);
    assert CountedOn(v.lastKeyID, 1) == Next(CountedOn(v.lastKeyID, 0));
    assert CountsOn(v.lastKeyID, ops, 0);
    assert [tx][..0] == [] && ConnectAll(v, [tx][..0]) == v;
    assert AcceptableAt(v, [tx], 0);
    assert TotalAdds([tx]) == TotalAdds([tx][..0]) + AspAdds(ops);
  }

  /** One key ID more is too many: the next one after the largest is zero, which the largest in use exceeds. */
  lemma WrappedKeyIDExceeds(v: View, hash: Hash)
    requires ProvisionThread in v.tips && v.lastKeyID == TWO32 - 1
    requires AspKey(TWO32 - 1) in v.registers && AspKey(0) !in v.registers
    ensures IdsBelow(v.registers, v.lastKeyID)
    ensures var moves := [Extend([OneAdd(v, hash)])];
      && v.lastKeyID + AddsOf(moves) == TWO32
      && !IdsBelow(Run(v, moves).Current().registers, Run(v, moves).Current().lastKeyID)
  {
    var moves := [Extend([OneAdd(v, hash)])];
    OneAddConnects(v, hash);
    assert moves[..0] == [] && AddsOf(moves) == AddsOf(moves[..0]) + 1;
    assert Run(v, moves[..0]) == History([], [v], [true]);
    var after := ConnectAll(v, [OneAdd(v, hash)]);
    assert Run(v, moves).Current() == after;
    assert AspKey(TWO32 - 1) in after.registers && after.lastKeyID == 0;
  }
}
