/**
 What a list of admin transactions does to each part of the admin state (blockchain/keyviewpoint.go), whatever the
 state it is connected to.
 */
module KeyParts {
  import opened Bytes
  import opened KeyView

  // ----- equal but for the last key ID -----

  lemma {:induction false} SameRegistersAfter(v: View, w: View, ops: seq<Op>)
    requires v.registers == w.registers
    ensures ApplyAll(v, ops).registers == ApplyAll(w, ops).registers
  {
    if ops != [] {
      SameRegistersAfter(v, w, ops[..|ops| - 1]);
    }
  }

  lemma AlikeAfter(v: View, w: View, tx: Tx)
    requires Alike(v, w)
    ensures Alike(Connect(v, tx), Connect(w, tx))
    ensures Fitting(v, tx) <==> Fitting(w, tx)
  {
    SameRegistersAfter(v, w, KeyOps(tx));
  }

  lemma {:induction false} AlikeAfterAll(v: View, w: View, txs: seq<Tx>)
    requires Alike(v, w)
    ensures Alike(ConnectAll(v, txs), ConnectAll(w, txs))
  {
    if txs != [] {
      AlikeAfterAll(v, w, txs[..|txs| - 1]);
      AlikeAfter(ConnectAll(v, txs[..|txs| - 1]), ConnectAll(w, txs[..|txs| - 1]), txs[|txs| - 1]);
    }
  }

  // ----- added key IDs -----

  function TotalAdds(txs: seq<Tx>): (n: nat) {
    if txs == [] then 0 else TotalAdds(txs[..|txs| - 1]) + AspAdds(KeyOps(txs[|txs| - 1]))
  }

  lemma {:induction false} PrefixAdds(ops: seq<Op>, i: nat)
    requires i <= |ops|
    ensures AspAdds(ops[..i]) <= AspAdds(ops)
  {
    if i == |ops| {
      assert ops[..i] == ops;
    } else {
      assert ops[..i] == ops[..|ops| - 1][..i];
      PrefixAdds(ops[..|ops| - 1], i);
    }
  }

  lemma {:induction false} FirstIsPartOfTotal(txs: seq<Tx>)
    ensures FirstAdds(txs) <= TotalAdds(txs)
  {
    if txs != [] {
      FirstIsPartOfTotal(txs[..|txs| - 1]);
    }
  }

  lemma {:induction false} NoneIsNoFirst(txs: seq<Tx>)
    ensures FirstAdds(txs) == 0 <==> TotalAdds(txs) == 0
  {
    if txs != [] {
      NoneIsNoFirst(txs[..|txs| - 1]);
    }
  }

  lemma {:induction false} CountedOnSmall(lastKeyID: Uint32, n: nat)
    requires lastKeyID + n < TWO32
    ensures CountedOn(lastKeyID, n) == lastKeyID + n
  {
    if n > 0 {
      CountedOnSmall(lastKeyID, n - 1);
    }
  }

  lemma {:induction false} LastKeyIDIsAbsolute(v: View, w: View, ops: seq<Op>)
    ensures AspAdds(ops) > 0 ==> ApplyAll(v, ops).lastKeyID == ApplyAll(w, ops).lastKeyID
    ensures AspAdds(ops) == 0 ==> ApplyAll(v, ops).lastKeyID == v.lastKeyID
  {
    if ops != [] {
      LastKeyIDIsAbsolute(v, w, ops[..|ops| - 1]);
    }
  }

  /** Connecting transactions that add key IDs makes the last one what they say, and others leave it alone. */
  lemma {:induction false} ConnectedKeyID(v: View, w: View, txs: seq<Tx>)
    ensures TotalAdds(txs) > 0 ==> ConnectAll(v, txs).lastKeyID == ConnectAll(w, txs).lastKeyID
    ensures TotalAdds(txs) == 0 ==> ConnectAll(v, txs).lastKeyID == v.lastKeyID
  {
    if txs != [] {
      var init, tx := txs[..|txs| - 1], txs[|txs| - 1];
      ConnectedKeyID(v, w, init);
      LastKeyIDIsAbsolute(ConnectAll(v, init), ConnectAll(w, init), KeyOps(tx));
      LastKeyIDIsAbsolute(ConnectAll(w, init), ConnectAll(v, init), KeyOps(tx));
    }
  }

  lemma CountedOnTwice(lastKeyID: Uint32, m: nat, n: nat)
    ensures CountedOn(CountedOn(lastKeyID, m), n) == CountedOn(lastKeyID, m + n)
  {
  }

  /** Connecting acceptable transactions counts the last key ID on. */
  lemma {:induction false} CountedAfterAll(v: View, txs: seq<Tx>)
    requires AllAcceptable(v, txs)
    ensures ConnectAll(v, txs).lastKeyID == CountedOn(v.lastKeyID, TotalAdds(txs))
  {
    if txs != [] {
      var init, tx := txs[..|txs| - 1], txs[|txs| - 1];
      AcceptablePrefix(v, txs);
      CountedAfterAll(v, init);
      var m, n := TotalAdds(init), AspAdds(KeyOps(tx));
      assert ConnectAll(v, txs).lastKeyID == CountedOn(CountedOn(v.lastKeyID, m), n) by {
        TransactionKeyID(ConnectAll(v, init), v, tx);
      }
      CountedOnTwice(v.lastKeyID, m, n);
    }
  }

  // ----- part by part -----

  function AllOps(txs: seq<Tx>): (ops: seq<Op>) {
    if txs == [] then [] else AllOps(txs[..|txs| - 1]) + KeyOps(txs[|txs| - 1])
  }

  function NetOf(txs: seq<Tx>): (net: int) {
    if txs == [] then 0 else NetOf(txs[..|txs| - 1]) + NetIssuance(txs[|txs| - 1])
  }

  /** The thread tips a list of transactions leaves behind. */
  function TipsOf(txs: seq<Tx>): (tips: map<Thread, OutPoint>) {
    if txs == [] then
      map[]
    else
      var tx := txs[|txs| - 1];
      var earlier := TipsOf(txs[..|txs| - 1]);
      if tx.thread.Some? then earlier[tx.thread.value := OutPoint(tx.hash, 0)] else earlier
  }

  lemma {:induction false} ApplyInTwo(v: View, a: seq<Op>, b: seq<Op>)
    ensures ApplyAll(v, a + b) == ApplyAll(ApplyAll(v, a), b)
  {
    if b == [] {
      assert a + b == a;
    } else {
      assert (a + b)[..|a + b| - 1] == a + b[..|b| - 1];
      ApplyInTwo(v, a, b[..|b| - 1]);
    }
  }

  lemma {:induction false} SameOpsAfter(v: View, w: View, ops: seq<Op>)
    requires v.registers == w.registers && v.lastKeyID == w.lastKeyID
    ensures ApplyAll(v, ops).registers == ApplyAll(w, ops).registers
    ensures ApplyAll(v, ops).lastKeyID == ApplyAll(w, ops).lastKeyID
  {
    if ops != [] {
      SameOpsAfter(v, w, ops[..|ops| - 1]);
    }
  }

  lemma {:induction false} ConnectedOps(v: View, txs: seq<Tx>)
    ensures ConnectAll(v, txs).registers == ApplyAll(v, AllOps(txs)).registers
    ensures ConnectAll(v, txs).lastKeyID == ApplyAll(v, AllOps(txs)).lastKeyID
  {
    if txs != [] {
      var init, tx := txs[..|txs| - 1], txs[|txs| - 1];
      ConnectedOps(v, init);
      ApplyInTwo(v, AllOps(init), KeyOps(tx));
      SameOpsAfter(ConnectAll(v, init), ApplyAll(v, AllOps(init)), KeyOps(tx));
    }
  }

  lemma {:induction false} ConnectedSupply(v: View, txs: seq<Tx>)
    ensures ConnectAll(v, txs).supply == AddTo(v.supply, NetOf(txs))
  {
    if txs == [] {
      AddToZero(v.supply);
    } else {
      ConnectedSupply(v, txs[..|txs| - 1]);
      SupplyAdds(v.supply, NetOf(txs[..|txs| - 1]), NetIssuance(txs[|txs| - 1]));
    }
  }

  lemma {:induction false} ConnectedTips(v: View, txs: seq<Tx>)
    ensures ConnectAll(v, txs).tips == v.tips + TipsOf(txs)
  {
    if txs != [] {
      ConnectedTips(v, txs[..|txs| - 1]);
    }
  }

  /** What connecting a list of transactions does, part by part. */
  lemma ConnectedParts(v: View, txs: seq<Tx>)
    ensures ConnectAll(v, txs).registers == ApplyAll(v, AllOps(txs)).registers
    ensures ConnectAll(v, txs).lastKeyID == ApplyAll(v, AllOps(txs)).lastKeyID
    ensures ConnectAll(v, txs).supply == AddTo(v.supply, NetOf(txs))
    ensures ConnectAll(v, txs).tips == v.tips + TipsOf(txs)
  {
    ConnectedOps(v, txs);
    ConnectedSupply(v, txs);
    ConnectedTips(v, txs);
  }
}
