/**
 The spend journal (blockchain/chainio.go): the outputs a block spends, serialized last spend first. Only
 the spend of a transaction's final unspent output carries the transaction's height, coinbase flag and
 version; for every other spend the decoder takes the version from the utxo view or from the entry of that
 final spend, which it has already read.
 */
module SpendJournal {
  import opened Bytes
  import Vlq
  import TxOut
  import opened Curve

  /** spentTxOut. */
  datatype SpentTxOut = SpentTxOut(out: TxOut.Output, version: Int32, height: Uint32, isCoinBase: bool)

  /** The versions of the transactions the view still has entries for. */
  type View = map<Hash, Int32>

  type Result<T> = TxOut.Result<T>

  // ----- one entry -----

  /** spentTxOutHeaderCode. */
  function HeaderCode(stxo: SpentTxOut): (code: Uint64)
  {
    if stxo.height == 0 then 0 else stxo.height * 2 + if stxo.isCoinBase then 1 else 0
  }

  function EncodeEntry(curve: Curve, stxo: SpentTxOut): (s: Bytes) {
    EncodeHeader(stxo) + TxOut.Encode(curve, stxo.out)
  }

  function EncodeHeader(stxo: SpentTxOut): (s: Bytes) {
    Vlq.Encode(HeaderCode(stxo)) + EncodeVersion(stxo)
  }

  function EncodeVersion(stxo: SpentTxOut): (s: Bytes) {
    if HeaderCode(stxo) != 0 then Vlq.Encode(ToUint64(stxo.version)) else []
  }

  /** spentTxOutSerializeSize. */
  method EntrySize(curve: Curve, stxo: SpentTxOut) returns (size: nat)
    requires TxOut.Storable(stxo.out)
    ensures size == |EncodeEntry(curve, stxo)|
  {
    size := Vlq.SerializeSize(HeaderCode(stxo));
    if HeaderCode(stxo) != 0 {
      var versionSize := Vlq.SerializeSize(ToUint64(stxo.version));
      size := size + versionSize;
    }
    var outSize := TxOut.CompressedSize(curve, stxo.out);
    size := size + outSize;
  }

  /** putSpentTxOut on the slice target[at..]. */
  method PutEntry(target: array<Byte>, at: nat, curve: Curve, stxo: SpentTxOut) returns (written: nat)
    requires TxOut.Storable(stxo.out)
    requires at + |EncodeEntry(curve, stxo)| <= target.Length
    modifies target
    ensures written == |EncodeEntry(curve, stxo)|
    ensures Spliced(target[..], old(target[..]), at, EncodeEntry(curve, stxo))
  {
    ghost var first := target[..];
    var offset := PutHeader(target, at, stxo);
    var size := TxOut.Append(target, at + offset, curve, stxo.out, first, at, EncodeHeader(stxo));
    written := offset + size;
  }

  method PutHeader(target: array<Byte>, at: nat, stxo: SpentTxOut) returns (written: nat)
    requires at + |EncodeHeader(stxo)| <= target.Length
    modifies target
    ensures written == |EncodeHeader(stxo)|
    ensures Spliced(target[..], old(target[..]), at, EncodeHeader(stxo))
  {
    ghost var first := target[..];
    written := Vlq.Put(target, at, HeaderCode(stxo));
    if HeaderCode(stxo) != 0 {
      ghost var mid := target[..];
      var size := Vlq.Put(target, at + written, ToUint64(stxo.version));
      SplicedTwice(target[..], mid, first, at, at + written, Vlq.Encode(HeaderCode(stxo)), EncodeVersion(stxo));
      written := written + size;
    } else {
      assert Vlq.Encode(HeaderCode(stxo)) + [] == Vlq.Encode(HeaderCode(stxo));
    }
  }

  /** decodeSpentTxOut: the entry and the bytes left, given the version known from elsewhere (0 if none is). */
  function DecodeEntry(serialized: Bytes, txVersion: Int32): (r: Result<(SpentTxOut, Bytes)>)
    ensures r.Ok? ==> |r.value.1| <= |serialized|
  {
    var (code, rest) := Vlq.Decode(serialized);
    DecodeAfterCode(code, rest, txVersion)
  }

  function DecodeAfterCode(code: Uint64, rest: Bytes, txVersion: Int32): (r: Result<(SpentTxOut, Bytes)>)
    ensures r.Ok? ==> |r.value.1| <= |rest|
  {
    if rest == [] then TxOut.Err(TxOut.UnexpectedEnd)
    else if code != 0 then
      var (version, rest') := Vlq.Decode(rest);
      if rest' == [] then TxOut.Err(TxOut.UnexpectedEnd)
      else DecodeOutput(rest', ToInt32(version), code / 2 % TWO32, code % 2 == 1)
    else if txVersion == 0 then TxOut.Err(TxOut.MissingVersion)
    else DecodeOutput(rest, txVersion, 0, false)
  }

  function DecodeOutput(serialized: Bytes, version: Int32, height: Uint32, isCoinBase: bool)
    : (r: Result<(SpentTxOut, Bytes)>)
    ensures r.Ok? ==> |r.value.1| <= |serialized|
  {
    match TxOut.Decode(serialized)
    case Err(e) => TxOut.Err(e)
    case Ok((amount, script, rest)) =>
      TxOut.Ok((SpentTxOut(TxOut.Output(true, ToInt64(amount), script), version, height, isCoinBase), rest))
  }

  /** The entry as it is stored: its output in compressed form. */
  function Stored(curve: Curve, stxo: SpentTxOut): (r: SpentTxOut) {
    stxo.(out := TxOut.Stored(curve, stxo.out))
  }

  /** What decoding an entry gives: without context of its own it takes the version it is told. */
  function Recovered(curve: Curve, stxo: SpentTxOut, txVersion: Int32): (r: Result<SpentTxOut>) {
    if stxo.height != 0 then TxOut.Ok(Stored(curve, stxo))
    else if txVersion == 0 then TxOut.Err(TxOut.MissingVersion)
    else TxOut.Ok(Stored(curve, stxo).(version := txVersion, isCoinBase := false))
  }

  lemma HeaderParts(stxo: SpentTxOut)
    requires stxo.height != 0
    ensures HeaderCode(stxo) != 0
    ensures HeaderCode(stxo) / 2 % TWO32 == stxo.height && (HeaderCode(stxo) % 2 == 1) == stxo.isCoinBase
  {
  }

  lemma DecodeWithContext(curve: Curve, stxo: SpentTxOut, txVersion: Int32, rest: Bytes)
    requires TxOut.Storable(stxo.out) && stxo.height != 0
    ensures DecodeAfterCode(HeaderCode(stxo), EncodeVersion(stxo) + (TxOut.Encode(curve, stxo.out) + rest), txVersion)
         == TxOut.Ok((Stored(curve, stxo), rest))
  {
    var out := TxOut.Encode(curve, stxo.out) + rest;
    TxOut.EncodeIsNonempty(curve, stxo.out);
    HeaderParts(stxo);
    Vlq.DecodeEncode(ToUint64(stxo.version), out);
    Int32RoundTrip(stxo.version);
    TxOut.DecodeEncode(curve, stxo.out, rest);
  }

  lemma DecodeWithoutContext(curve: Curve, stxo: SpentTxOut, txVersion: Int32, rest: Bytes)
    requires TxOut.Storable(stxo.out)
    ensures DecodeAfterCode(0, TxOut.Encode(curve, stxo.out) + rest, txVersion)
         == if txVersion == 0 then TxOut.Err(TxOut.MissingVersion)
            else TxOut.Ok((Stored(curve, stxo).(version := txVersion, height := 0, isCoinBase := false), rest))
  {
    TxOut.EncodeIsNonempty(curve, stxo.out);
    TxOut.DecodeEncode(curve, stxo.out, rest);
  }

  lemma DecodeCode(code: Uint64, rest: Bytes, txVersion: Int32)
    ensures DecodeEntry(Vlq.Encode(code) + rest, txVersion) == DecodeAfterCode(code, rest, txVersion)
  {
    Vlq.DecodeEncode(code, rest);
  }

  /** Where the fields of an entry lie. */
  lemma EntryLayout(curve: Curve, stxo: SpentTxOut, rest: Bytes)
    ensures EncodeEntry(curve, stxo) + rest
         == Vlq.Encode(HeaderCode(stxo)) + (EncodeVersion(stxo) + (TxOut.Encode(curve, stxo.out) + rest))
    ensures stxo.height == 0 ==>
      EncodeVersion(stxo) + (TxOut.Encode(curve, stxo.out) + rest) == TxOut.Encode(curve, stxo.out) + rest
  {
    var code, ver, out := Vlq.Encode(HeaderCode(stxo)), EncodeVersion(stxo), TxOut.Encode(curve, stxo.out);
    Associative(code + ver, out, rest);
    Associative(code, ver, out + rest);
  }

  /** An entry at the front of any data decodes to itself in stored form, as far as it carries its own context. */
  lemma DecodeEncodeEntry(curve: Curve, stxo: SpentTxOut, txVersion: Int32, rest: Bytes)
    requires TxOut.Storable(stxo.out)
    ensures DecodeEntry(EncodeEntry(curve, stxo) + rest, txVersion)
         == match Recovered(curve, stxo, txVersion)
            case Ok(r) => TxOut.Ok((r, rest))
            case Err(e) => TxOut.Err(e)
  {
    EntryLayout(curve, stxo, rest);
    DecodeCode(HeaderCode(stxo), EncodeVersion(stxo) + (TxOut.Encode(curve, stxo.out) + rest), txVersion);
    if stxo.height != 0 {
      DecodeWithContext(curve, stxo, txVersion, rest);
    } else {
      DecodeWithoutContext(curve, stxo, txVersion, rest);
    }
  }

  // ----- the journal of a block -----

  /** serializeSpendJournalEntry's format: the entries from the last spend to the first. */
  function Serialize(curve: Curve, stxos: seq<SpentTxOut>): (s: Bytes) {
    if stxos == [] then []
    else EncodeEntry(curve, stxos[|stxos| - 1]) + Serialize(curve, stxos[..|stxos| - 1])
  }

  ghost predicate AllStorable(stxos: seq<SpentTxOut>) {
    forall i :: 0 <= i < |stxos| ==> TxOut.Storable(stxos[i].out)
  }

  lemma SerializeSnoc(curve: Curve, stxos: seq<SpentTxOut>, i: nat)
    requires i < |stxos|
    ensures Serialize(curve, stxos[..i + 1]) == EncodeEntry(curve, stxos[i]) + Serialize(curve, stxos[..i])
  {
    assert stxos[..i + 1][..i] == stxos[..i];
  }

  /** serializeSpendJournalEntry: sizes first, then every entry into place, last one first. */
  method SerializeJournal(curve: Curve, stxos: seq<SpentTxOut>) returns (serialized: Bytes)
    requires AllStorable(stxos)
    ensures serialized == Serialize(curve, stxos)
  {
    if stxos == [] {
      return [];
    }
    var size := JournalSize(curve, stxos);
    var target := new Byte[size];
    FillJournal(target, curve, stxos);
    return target[..];
  }

  method JournalSize(curve: Curve, stxos: seq<SpentTxOut>) returns (size: nat)
    requires AllStorable(stxos)
    ensures size == |Serialize(curve, stxos)|
  {
    size := 0;
    for i := 0 to |stxos|
      invariant size == |Serialize(curve, stxos[..i])|
    {
      var entrySize := EntrySize(curve, stxos[i]);
      SerializeSnoc(curve, stxos, i);
      size := size + entrySize;
    }
    assert stxos[..|stxos|] == stxos;
  }

  /** Writes an entry behind the bytes written before. */
  method AppendEntry(target: array<Byte>, at: nat, curve: Curve, stxo: SpentTxOut) returns (end: nat)
    requires TxOut.Storable(stxo.out)
    requires at + |EncodeEntry(curve, stxo)| <= target.Length
    modifies target
    ensures end == at + |EncodeEntry(curve, stxo)|
    ensures target[..end] == old(target[..at]) + EncodeEntry(curve, stxo)
  {
    ghost var before := target[..];
    var written := PutEntry(target, at, curve, stxo);
    PrefixGrows(target[..], before, at, EncodeEntry(curve, stxo));
    end := at + written;
  }

  method FillJournal(target: array<Byte>, curve: Curve, stxos: seq<SpentTxOut>)
    requires AllStorable(stxos)
    requires target.Length == |Serialize(curve, stxos)|
    modifies target
    ensures target[..] == Serialize(curve, stxos)
  {
    ghost var all := Serialize(curve, stxos);
    assert stxos[..|stxos|] == stxos;
    var offset := 0;
    for i := |stxos| downto 0
      invariant 0 <= offset <= target.Length
      invariant all == target[..offset] + Serialize(curve, stxos[..i])
    {
      SerializeSnoc(curve, stxos, i);
      ghost var done, rest, entry := target[..offset], Serialize(curve, stxos[..i]), EncodeEntry(curve, stxos[i]);
      Associative(done, entry, rest);
      offset := AppendEntry(target, offset, curve, stxos[i]);
      assert target[..offset] == done + entry;
    }
    assert target[..offset] == target[..];
  }

  /** The last input that spends from the transaction `origin`, or -1. */
  function LastSpend(origins: seq<Hash>, origin: Hash): (j: int)
    ensures -1 <= j < |origins|
    ensures j >= 0 ==> origins[j] == origin
    ensures forall i :: j < i < |origins| ==> origins[i] != origin
  {
    if origins == [] then -1
    else if origins[|origins| - 1] == origin then |origins| - 1
    else LastSpend(origins[..|origins| - 1], origin)
  }

  /** The version the decoder knows for entry `i` before reading it, when `later` are the entries after it. */
  function KnownVersion(view: View, origins: seq<Hash>, i: nat, later: seq<SpentTxOut>): (version: Int32)
    requires i + 1 + |later| == |origins|
  {
    var origin := origins[i];
    var j := LastSpend(origins, origin);
    if origin in view then view[origin]
    else if j > i then later[j - i - 1].version
    else 0
  }

  /** The decoding loop once the entries `later` have been read: all entries and the bytes left over. */
  function DeserializeFrom(data: Bytes, view: View, origins: seq<Hash>, later: seq<SpentTxOut>)
    : (r: Result<(seq<SpentTxOut>, Bytes)>)
    requires |later| <= |origins|
    ensures r.Ok? ==> |r.value.0| == |origins| && r.value.0[|origins| - |later|..] == later
    decreases |origins| - |later|
  {
    if |later| == |origins| then TxOut.Ok((later, data))
    else
      var i := |origins| - |later| - 1;
      match DecodeEntry(data, KnownVersion(view, origins, i, later))
      case Err(e) => TxOut.Err(e)
      case Ok((stxo, rest)) =>
        var r := DeserializeFrom(rest, view, origins, [stxo] + later);
        assert r.Ok? ==> r.value.0[|origins| - |later|..] == r.value.0[i..][1..] == later;
        r
  }

  /** deserializeSpendJournalEntry for the inputs with the given origins, with the bytes it leaves unread. */
  function Deserialize(serialized: Bytes, view: View, origins: seq<Hash>): (r: Result<(seq<SpentTxOut>, Bytes)>)
  {
    if serialized == [] then
      if origins == [] then TxOut.Ok(([], [])) else TxOut.Err(TxOut.MismatchedSize)
    else DeserializeFrom(serialized, view, origins, [])
  }

  /** The origins of all inputs of a list of transactions, each given by the origins of its inputs. */
  function Origins(txns: seq<seq<Hash>>): (origins: seq<Hash>) {
    if txns == [] then [] else Origins(txns[..|txns| - 1]) + txns[|txns| - 1]
  }

  lemma OriginsSnoc(txns: seq<seq<Hash>>, t: nat)
    requires t < |txns|
    ensures Origins(txns[..t + 1]) == Origins(txns[..t]) + txns[t]
  {
    assert txns[..t + 1][..t] == txns[..t];
  }

  lemma {:induction false} OriginsPrefix(txns: seq<seq<Hash>>, t: nat)
    requires t <= |txns|
    ensures Origins(txns[..t]) <= Origins(txns)
    decreases |txns| - t
  {
    if t == |txns| {
      assert txns[..t] == txns;
    } else {
      OriginsSnoc(txns, t);
      OriginsPrefix(txns, t + 1);
    }
  }

  /** The inputs of transaction `t` among all inputs. */
  lemma OriginsOf(txns: seq<seq<Hash>>, t: nat)
    requires t < |txns|
    ensures |Origins(txns[..t])| + |txns[t]| == |Origins(txns[..t + 1])| <= |Origins(txns)|
    ensures forall j :: 0 <= j < |txns[t]| ==> Origins(txns)[j + |Origins(txns[..t])|] == txns[t][j]
  {
    OriginsSnoc(txns, t);
    OriginsPrefix(txns, t + 1);
  }

  /** The in-flight map knows, for every origin met so far that the view lacks, where its last spend was read. */
  ghost predicate InFlight(inFlight: map<Hash, nat>, view: View, origins: seq<Hash>, from: nat)
    requires from <= |origins|
  {
    && (forall h :: h in inFlight ==> inFlight[h] == LastSpend(origins, h) >= from)
    && (forall j :: from <= j < |origins| && origins[j] !in view ==> origins[j] in inFlight)
  }

  /** Where the version of the next entry comes from; an origin met for the first time is entered in the map. */
  method NextVersion(view: View, inFlight: map<Hash, nat>, origin: Hash, later: seq<SpentTxOut>,
      ghost origins: seq<Hash>, i: nat)
    returns (txVersion: Int32, inFlight': map<Hash, nat>)
    requires i + 1 + |later| == |origins| && origins[i] == origin
    requires InFlight(inFlight, view, origins, i + 1)
    ensures txVersion == KnownVersion(view, origins, i, later)
    ensures InFlight(inFlight', view, origins, i)
  {
    if origin in view {
      return view[origin], inFlight;
    } else if origin in inFlight {
      return later[inFlight[origin] - i - 1].version, inFlight;
    } else {
      return 0, inFlight[origin := i];
    }
  }

  /** The entries of a decoding, without the bytes it left unread. */
  function Entries(r: Result<(seq<SpentTxOut>, Bytes)>): (stxos: Result<seq<SpentTxOut>>) {
    match r
    case Ok((stxos, _)) => TxOut.Ok(stxos)
    case Err(e) => TxOut.Err(e)
  }

  /** The decoding loop resumed with what a part of it returned. */
  function Resume(view: View, origins: seq<Hash>, part: Result<(seq<SpentTxOut>, Bytes)>)
    : (r: Result<(seq<SpentTxOut>, Bytes)>)
    requires part.Ok? ==> |part.value.0| <= |origins|
  {
    match part
    case Err(e) => TxOut.Err(e)
    case Ok(p) => DeserializeFrom(p.1, view, origins, p.0)
  }

  /** One step of the decoding loop. */
  function Step(data: Bytes, later: seq<SpentTxOut>, txVersion: Int32): (r: Result<(seq<SpentTxOut>, Bytes)>)
    ensures r.Ok? ==> |r.value.0| == |later| + 1
  {
    match DecodeEntry(data, txVersion)
    case Err(e) => TxOut.Err(e)
    case Ok(p) => TxOut.Ok(([p.0] + later, p.1))
  }

  lemma DeserializeStep(data: Bytes, view: View, origins: seq<Hash>, later: seq<SpentTxOut>, i: nat, txVersion: Int32)
    requires i + 1 + |later| == |origins| && txVersion == KnownVersion(view, origins, i, later)
    ensures DeserializeFrom(data, view, origins, later) == Resume(view, origins, Step(data, later, txVersion))
  {
  }

  /** The inner loop of deserializeSpendJournalEntry: reads the entries of one transaction, last input first. */
  method ReadTx(data: Bytes, tx: seq<Hash>, view: View, flying: map<Hash, nat>, later: seq<SpentTxOut>,
      ghost origins: seq<Hash>, base: nat)
    returns (r: Result<(seq<SpentTxOut>, Bytes)>, inFlight: map<Hash, nat>)
    requires base + |tx| + |later| == |origins|
    requires forall j :: 0 <= j < |tx| ==> origins[j + base] == tx[j]
    requires InFlight(flying, view, origins, base + |tx|)
    ensures r.Ok? ==> |r.value.0| + base == |origins| && InFlight(inFlight, view, origins, base)
    ensures DeserializeFrom(data, view, origins, later) == Resume(view, origins, r)
  {
    var stxos, rest := later, data;
    inFlight := flying;
    for txInIdx := |tx| downto 0
      invariant base + txInIdx + |stxos| == |origins|
      invariant InFlight(inFlight, view, origins, base + txInIdx)
      invariant DeserializeFrom(data, view, origins, later) == DeserializeFrom(rest, view, origins, stxos)
    {
      var txVersion;
      txVersion, inFlight := NextVersion(view, inFlight, tx[txInIdx], stxos, origins, base + txInIdx);
      DeserializeStep(rest, view, origins, stxos, base + txInIdx, txVersion);
      r := Step(rest, stxos, txVersion);
      if r.Err? {
        return;
      }
      stxos, rest := r.value.0, r.value.1;
    }
    r := TxOut.Ok((stxos, rest));
  }

  /** The outer loop: the transactions from the last to the first. */
  method ReadTxns(serialized: Bytes, txns: seq<seq<Hash>>, view: View, numStxos: nat, ghost origins: seq<Hash>)
    returns (r: Result<(seq<SpentTxOut>, Bytes)>)
    requires origins == Origins(txns) && numStxos == |origins|
    ensures r == DeserializeFrom(serialized, view, origins, [])
  {
    var stxos: seq<SpentTxOut> := [];
    var inFlight: map<Hash, nat> := map[];
    var rest := serialized;
    ghost var all := DeserializeFrom(serialized, view, origins, []);
    assert txns[..|txns|] == txns;
    for txIdx := |txns| downto 0
      invariant |stxos| + |Origins(txns[..txIdx])| == |origins|
      invariant InFlight(inFlight, view, origins, |origins| - |stxos|)
      invariant all == DeserializeFrom(rest, view, origins, stxos)
    {
      OriginsOf(txns, txIdx);
      var base := numStxos - |stxos| - |txns[txIdx]|;
      assert base == |Origins(txns[..txIdx])|;
      r, inFlight := ReadTx(rest, txns[txIdx], view, inFlight, stxos, origins, base);
      if r.Err? {
        return;
      }
      stxos, rest := r.value.0, r.value.1;
    }
    r := TxOut.Ok((stxos, rest));
  }

  /** deserializeSpendJournalEntry: reads the entries backwards along the transactions that made the spends. */
  method DeserializeJournal(serialized: Bytes, txns: seq<seq<Hash>>, view: View) returns (r: Result<seq<SpentTxOut>>)
    ensures r == Entries(Deserialize(serialized, view, Origins(txns)))
  {
    var numStxos := NumStxos(txns);
    if serialized == [] {
      return if numStxos != 0 then TxOut.Err(TxOut.MismatchedSize) else TxOut.Ok([]);
    }
    var read := ReadTxns(serialized, txns, view, numStxos, Origins(txns));
    r := Entries(read);
  }

  method NumStxos(txns: seq<seq<Hash>>) returns (numStxos: nat)
    ensures numStxos == |Origins(txns)|
  {
    numStxos := 0;
    for i := 0 to |txns|
      invariant numStxos == |Origins(txns[..i])|
    {
      OriginsSnoc(txns, i);
      numStxos := numStxos + |txns[i]|;
    }
    assert txns[..|txns|] == txns;
  }

  // ----- the round trip -----

  function StoredAll(curve: Curve, stxos: seq<SpentTxOut>): (r: seq<SpentTxOut>)
    ensures |r| == |stxos|
    ensures forall i {:trigger r[i]} :: 0 <= i < |stxos| ==> r[i] == Stored(curve, stxos[i])
  {
    seq(|stxos|, i requires 0 <= i < |stxos| => Stored(curve, stxos[i]))
  }

  /** The version that can be found for a spend without context: in the view, or with the last spend of its origin. */
  ghost function AvailableVersion(view: View, origins: seq<Hash>, stxos: seq<SpentTxOut>, i: nat): (version: Int32)
    requires i < |stxos| == |origins|
  {
    var origin := origins[i];
    if origin in view then view[origin]
    else if exists j :: i < j < |origins| && origins[j] == origin
    then stxos[LastSpend(origins, origin)].version
    else 0
  }

  /** A spend carries its own context, or its non-zero version is the one available elsewhere. */
  ghost predicate Resolvable(view: View, origins: seq<Hash>, stxos: seq<SpentTxOut>, i: nat)
    requires i < |stxos| == |origins|
  {
    || stxos[i].height != 0
    || (!stxos[i].isCoinBase && stxos[i].version == AvailableVersion(view, origins, stxos, i) != 0)
  }

  lemma KnownIsAvailable(curve: Curve, view: View, origins: seq<Hash>, stxos: seq<SpentTxOut>, i: nat)
    requires i < |stxos| == |origins|
    ensures KnownVersion(view, origins, i, StoredAll(curve, stxos)[i + 1..])
         == AvailableVersion(view, origins, stxos, i)
  {
    var j := LastSpend(origins, origins[i]);
    if j > i {
      assert StoredAll(curve, stxos)[i + 1..][j - i - 1] == StoredAll(curve, stxos)[j];
    }
  }

  /** One entry is recovered exactly when it is resolvable. */
  lemma RecoveredExactly(curve: Curve, view: View, origins: seq<Hash>, stxos: seq<SpentTxOut>, i: nat)
    requires i < |stxos| == |origins|
    ensures Recovered(curve, stxos[i], AvailableVersion(view, origins, stxos, i)) == TxOut.Ok(Stored(curve, stxos[i]))
       <==> Resolvable(view, origins, stxos, i)
  {
  }

  /** Decoding entry `i` once the later ones are there. */
  lemma StepDecodes(curve: Curve, view: View, origins: seq<Hash>, stxos: seq<SpentTxOut>, i: nat)
    requires i < |stxos| == |origins| && AllStorable(stxos)
    ensures DeserializeFrom(Serialize(curve, stxos[..i + 1]), view, origins, StoredAll(curve, stxos)[i + 1..])
         == match Recovered(curve, stxos[i], AvailableVersion(view, origins, stxos, i))
            case Err(e) => TxOut.Err(e)
            case Ok(r) =>
              DeserializeFrom(Serialize(curve, stxos[..i]), view, origins, [r] + StoredAll(curve, stxos)[i + 1..])
  {
    var later, version := StoredAll(curve, stxos)[i + 1..], AvailableVersion(view, origins, stxos, i);
    SerializeSnoc(curve, stxos, i);
    KnownIsAvailable(curve, view, origins, stxos, i);
    DecodeEncodeEntry(curve, stxos[i], version, Serialize(curve, stxos[..i]));
    DeserializeStep(Serialize(curve, stxos[..i + 1]), view, origins, later, i, version);
  }

  /** Once the entries from `k` on are read correctly, so are all the others. */
  ghost predicate RecoversFrom(curve: Curve, view: View, origins: seq<Hash>, stxos: seq<SpentTxOut>, k: nat)
    requires k <= |stxos| == |origins|
  {
    DeserializeFrom(Serialize(curve, stxos[..k]), view, origins, StoredAll(curve, stxos)[k..])
    == TxOut.Ok((StoredAll(curve, stxos), []))
  }

  lemma ConsSlice<T>(all: seq<T>, i: nat)
    requires i < |all|
    ensures [all[i]] + all[i + 1..] == all[i..]
  {
  }

  lemma RecoversStep(curve: Curve, view: View, origins: seq<Hash>, stxos: seq<SpentTxOut>, i: nat)
    requires i < |stxos| == |origins| && AllStorable(stxos)
    ensures RecoversFrom(curve, view, origins, stxos, i + 1)
       <==> Resolvable(view, origins, stxos, i) && RecoversFrom(curve, view, origins, stxos, i)
  {
    StepDecodes(curve, view, origins, stxos, i);
    RecoveredExactly(curve, view, origins, stxos, i);
    ConsSlice(StoredAll(curve, stxos), i);
    match Recovered(curve, stxos[i], AvailableVersion(view, origins, stxos, i))
    case Err(_) =>
    case Ok(r) =>
      if r != Stored(curve, stxos[i]) {
        MismatchStays(view, origins, StoredAll(curve, stxos), i, Serialize(curve, stxos[..i]), r);
      }
  }

  /** An entry read wrongly is never repaired by reading on. */
  lemma MismatchStays(view: View, origins: seq<Hash>, all: seq<SpentTxOut>, i: nat, data: Bytes, r: SpentTxOut)
    requires i < |all| == |origins| && r != all[i]
    ensures DeserializeFrom(data, view, origins, [r] + all[i + 1..]) != TxOut.Ok((all, []))
  {
    var result := DeserializeFrom(data, view, origins, [r] + all[i + 1..]);
    if result.Ok? {
      assert result.value.0[i..][0] == r;
    }
  }

  lemma RecoversFromNone(curve: Curve, view: View, origins: seq<Hash>, stxos: seq<SpentTxOut>)
    requires |stxos| == |origins|
    ensures RecoversFrom(curve, view, origins, stxos, 0)
  {
    assert StoredAll(curve, stxos)[0..] == StoredAll(curve, stxos);
  }

  /** A chain of equivalences, link by link. */
  lemma {:induction false} Chain(whole: seq<bool>, links: seq<bool>)
    requires |whole| == |links| + 1 && whole[0]
    requires forall i :: 0 <= i < |links| ==> (whole[i + 1] <==> links[i] && whole[i])
    ensures whole[|links|] <==> forall i :: 0 <= i < |links| ==> links[i]
  {
    if links != [] {
      var n := |links| - 1;
      Chain(whole[..n + 1], links[..n]);
      assert forall i :: 0 <= i < n ==> links[..n][i] == links[i];
      assert whole[n + 1] <==> links[n] && whole[n];
    }
  }

  /**
   The journal of a block is read back in stored form, with every byte consumed, if and only if each spend
   without context finds its version in the view or with the last spend from the same transaction.
   */
  lemma RoundTrip(curve: Curve, view: View, origins: seq<Hash>, stxos: seq<SpentTxOut>)
    requires |stxos| == |origins| && AllStorable(stxos)
    ensures Deserialize(Serialize(curve, stxos), view, origins) == TxOut.Ok((StoredAll(curve, stxos), []))
       <==> forall i :: 0 <= i < |stxos| ==> Resolvable(view, origins, stxos, i)
  {
    var n := |stxos|;
    var whole := seq(n + 1, k requires 0 <= k <= n => RecoversFrom(curve, view, origins, stxos, k));
    var links := seq(n, i requires 0 <= i < n => Resolvable(view, origins, stxos, i));
    RecoversFromNone(curve, view, origins, stxos);
    forall i | 0 <= i < n ensures whole[i + 1] <==> links[i] && whole[i] {
      RecoversStep(curve, view, origins, stxos, i);
    }
    Chain(whole, links);
    ReadFromEnd(curve, view, origins, stxos, n);
    assert forall i :: 0 <= i < n ==> links[i] == Resolvable(view, origins, stxos, i);
  }

  /** A spend that finds a version elsewhere finds its own. */
  ghost predicate Honest(view: View, origins: seq<Hash>, stxos: seq<SpentTxOut>, i: nat)
    requires i < |stxos| == |origins|
  {
    || stxos[i].height != 0
    || AvailableVersion(view, origins, stxos, i) == 0
    || (!stxos[i].isCoinBase && stxos[i].version == AvailableVersion(view, origins, stxos, i))
  }

  /** Once the entries from `k` on are read correctly, one before them is refused for want of a version. */
  ghost predicate RefusedFrom(curve: Curve, view: View, origins: seq<Hash>, stxos: seq<SpentTxOut>, k: nat)
    requires k <= |stxos| == |origins|
  {
    DeserializeFrom(Serialize(curve, stxos[..k]), view, origins, StoredAll(curve, stxos)[k..])
    == TxOut.Err(TxOut.MissingVersion)
  }

  lemma RefusedStep(curve: Curve, view: View, origins: seq<Hash>, stxos: seq<SpentTxOut>, i: nat)
    requires i < |stxos| == |origins| && AllStorable(stxos) && Honest(view, origins, stxos, i)
    ensures !RefusedFrom(curve, view, origins, stxos, i + 1)
       <==> Resolvable(view, origins, stxos, i) && !RefusedFrom(curve, view, origins, stxos, i)
  {
    StepDecodes(curve, view, origins, stxos, i);
    RecoveredExactly(curve, view, origins, stxos, i);
    ConsSlice(StoredAll(curve, stxos), i);
  }

  lemma RefusedFromNone(curve: Curve, view: View, origins: seq<Hash>, stxos: seq<SpentTxOut>)
    requires |stxos| == |origins|
    ensures !RefusedFrom(curve, view, origins, stxos, 0)
  {
    RecoversFromNone(curve, view, origins, stxos);
  }

  /** A journal that is not empty is read from its last entry on. */
  lemma ReadFromEnd(curve: Curve, view: View, origins: seq<Hash>, stxos: seq<SpentTxOut>, n: nat)
    requires n == |stxos| == |origins|
    ensures DeserializeFrom(Serialize(curve, stxos[..n]), view, origins, StoredAll(curve, stxos)[n..])
         == Deserialize(Serialize(curve, stxos), view, origins)
  {
    assert stxos[..n] == stxos && StoredAll(curve, stxos)[n..] == [];
    if n > 0 {
      EntryIsNonempty(curve, stxos[n - 1]);
      assert Serialize(curve, stxos) != [];
    }
  }

  /** A journal of spends that find no wrong version is refused for a missing version whenever it is not read back. */
  lemma ReadOrRefused(curve: Curve, view: View, origins: seq<Hash>, stxos: seq<SpentTxOut>)
    requires |stxos| == |origins| && AllStorable(stxos)
    requires forall i :: 0 <= i < |stxos| ==> Honest(view, origins, stxos, i)
    ensures Deserialize(Serialize(curve, stxos), view, origins) == TxOut.Err(TxOut.MissingVersion)
       <==> !(forall i :: 0 <= i < |stxos| ==> Resolvable(view, origins, stxos, i))
  {
    var n := |stxos|;
    var whole := seq(n + 1, k requires 0 <= k <= n => !RefusedFrom(curve, view, origins, stxos, k));
    var links := seq(n, i requires 0 <= i < n => Resolvable(view, origins, stxos, i));
    forall i | 0 <= i < n ensures whole[i + 1] <==> links[i] && whole[i] {
      RefusedStep(curve, view, origins, stxos, i);
    }
    RefusedFromNone(curve, view, origins, stxos);
    Chain(whole, links);
    ReadFromEnd(curve, view, origins, stxos, n);
    assert forall i :: 0 <= i < n ==> links[i] == Resolvable(view, origins, stxos, i);
  }

  lemma EntryIsNonempty(curve: Curve, stxo: SpentTxOut)
    ensures |EncodeEntry(curve, stxo)| > 0
  {
    TxOut.EncodeIsNonempty(curve, stxo.out);
  }

  /**
   What connecting a block promises: exactly the last spend from a transaction that the view no longer has
   carries its height and coinbase flag, and all spends from one transaction agree on a non-zero version.
   */
  ghost predicate Connected(view: View, origins: seq<Hash>, stxos: seq<SpentTxOut>)
    requires |stxos| == |origins|
  {
    && (forall i :: 0 <= i < |stxos| ==>
          if origins[i] !in view && LastSpend(origins, origins[i]) == i then stxos[i].height != 0
          else stxos[i].height == 0 && !stxos[i].isCoinBase)
    && (forall i :: 0 <= i < |stxos| ==> stxos[i].version != 0)
    && (forall i :: 0 <= i < |stxos| && origins[i] in view ==> stxos[i].version == view[origins[i]])
    && (forall i, j :: 0 <= i < j < |stxos| && origins[i] == origins[j] ==> stxos[i].version == stxos[j].version)
  }

  lemma ConnectedIsResolvable(view: View, origins: seq<Hash>, stxos: seq<SpentTxOut>, i: nat)
    requires i < |stxos| == |origins| && Connected(view, origins, stxos)
    ensures Resolvable(view, origins, stxos, i)
  {
    var j := LastSpend(origins, origins[i]);
    if origins[i] !in view && j > i {
      assert stxos[i].version == stxos[j].version;
    }
  }

  /** The journal written when a block is connected is read back when it is disconnected. */
  lemma ConnectedRoundTrip(curve: Curve, view: View, origins: seq<Hash>, stxos: seq<SpentTxOut>)
    requires |stxos| == |origins| && AllStorable(stxos)
    requires Connected(view, origins, stxos)
    ensures Deserialize(Serialize(curve, stxos), view, origins) == TxOut.Ok((StoredAll(curve, stxos), []))
  {
    forall i | 0 <= i < |stxos| ensures Resolvable(view, origins, stxos, i) {
      ConnectedIsResolvable(view, origins, stxos, i);
    }
    RoundTrip(curve, view, origins, stxos);
  }

  /** The last spend of a fully spent height-zero transaction, such as genesis, makes the journal unreadable. */
  lemma HeightZeroIsLost(curve: Curve, view: View, origins: seq<Hash>, stxos: seq<SpentTxOut>, i: nat)
    requires i < |stxos| == |origins| && AllStorable(stxos)
    requires origins[i] !in view && LastSpend(origins, origins[i]) == i && stxos[i].height == 0
    ensures Deserialize(Serialize(curve, stxos), view, origins) != TxOut.Ok((StoredAll(curve, stxos), []))
  {
    RoundTrip(curve, view, origins, stxos);
    assert !Resolvable(view, origins, stxos, i);
  }
}
