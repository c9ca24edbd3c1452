/**
 Utxo set entries (blockchain/chainio.go): the unspent outputs of one transaction behind a header whose low
 bits say which of the first two outputs are unspent and how long the bitmap for the others is.
 */
module UtxoEntry {
  import opened Bytes
  import Vlq
  import TxOut
  import opened Curve

  datatype UtxoOutput = UtxoOutput(spent: bool, out: TxOut.Output)

  datatype UtxoEntry =
    UtxoEntry(version: Int32, isCoinBase: bool, blockHeight: Uint32, outputs: map<Uint32, UtxoOutput>)
  {
    /** IsOutputSpent: outputs the entry does not have count as spent. */
    predicate Unspent(i: int) {
      i in outputs && !outputs[i].spent
    }

    /** IsFullySpent. */
    predicate FullySpent() {
      forall i :: i in outputs ==> outputs[i].spent
    }
  }

  type Result<T> = TxOut.Result<T>

  // ----- flags and bitmaps -----

  /** Bits packed into a number, the first one lowest. */
  function Pack(bits: seq<bool>): (n: nat) {
    if bits == [] then 0 else (if bits[0] then 1 else 0) + 2 * Pack(bits[1..])
  }

  /** The lowest `count` bits of a number. */
  function Unpack(n: nat, count: nat): (bits: seq<bool>)
    ensures |bits| == count
    decreases count
  {
    if count == 0 then [] else [n % 2 == 1] + Unpack(n / 2, count - 1)
  }

  lemma {:induction false} PackBound(bits: seq<bool>)
    ensures Pack(bits) < Pow2(|bits|)
  {
    if bits != [] {
      PackBound(bits[1..]);
    }
  }

  lemma {:induction false} UnpackPack(bits: seq<bool>)
    ensures Unpack(Pack(bits), |bits|) == bits
  {
    if bits != [] {
      UnpackPack(bits[1..]);
      assert bits == [bits[0]] + bits[1..];
    }
  }

  /** The bits packed into a bitmap, eight to a byte. */
  function Bitmap(flags: seq<bool>): (s: Bytes)
    requires |flags| % 8 == 0
    ensures |s| == |flags| / 8
  {
    if flags == [] then []
    else
      var byte := flags[..8];
      PackBound(byte);
      assert Pow2(8) == 256;
      [Pack(byte)] + Bitmap(flags[8..])
  }

  function BitmapFlags(s: Bytes): (flags: seq<bool>)
    ensures |flags| == 8 * |s|
  {
    if s == [] then [] else Unpack(s[0], 8) + BitmapFlags(s[1..])
  }

  lemma {:induction false} BitmapRoundTrip(flags: seq<bool>)
    requires |flags| % 8 == 0
    ensures BitmapFlags(Bitmap(flags)) == flags
  {
    if flags != [] {
      UnpackPack(flags[..8]);
      BitmapRoundTrip(flags[8..]);
      assert flags == flags[..8] + flags[8..];
    }
  }

  /** The positions of the set flags, in ascending order, as 32-bit indexes. */
  function Indexes(flags: seq<bool>): (indexes: seq<Uint32>) {
    if flags == [] then []
    else
      var n := |flags| - 1;
      if flags[n] then Indexes(flags[..n]) + [n % TWO32] else Indexes(flags[..n])
  }

  // ----- the format -----

  /** Which of the first `n` outputs are unspent. */
  function Flags(entry: UtxoEntry, n: nat): (flags: seq<bool>)
    ensures |flags| == n
    ensures forall i :: 0 <= i < n ==> flags[i] == entry.Unspent(i)
  {
    seq(n, i => entry.Unspent(i))
  }

  /** The bitmap length for a highest output index, in 32-bit arithmetic. */
  function BitmapLength(high: Uint32): (n: nat) {
    (high + 6) % TWO32 / 8
  }

  /** utxoEntryHeaderCode. */
  function HeaderCode(entry: UtxoEntry, high: Uint32): (r: Result<(Uint64, nat)>) {
    var n := BitmapLength(high);
    var out0, out1 := entry.Unspent(0), entry.Unspent(1);
    if !out0 && !out1 && n == 0 then TxOut.Err(TxOut.FullySpent)
    else
      var adjustment := if !out0 && !out1 then 1 else 0;
      TxOut.Ok(((n - adjustment) * 8
                + (if entry.isCoinBase then 1 else 0)
                + (if out0 then 2 else 0)
                + (if out1 then 4 else 0), n))
  }

  /** The outputs at the given indexes, one after the other. */
  function EncodeOutputs(curve: Curve, entry: UtxoEntry, indexes: seq<Uint32>): (s: Bytes)
    requires forall i :: i in indexes ==> i in entry.outputs
  {
    if indexes == [] then []
    else TxOut.Encode(curve, entry.outputs[indexes[0]].out) + EncodeOutputs(curve, entry, indexes[1..])
  }

  // ----- decoding -----

  /** The decoded header: coinbase flag, whether outputs zero and one are unspent, and the bitmap length. */
  function DecodeCode(code: Uint64): (r: (bool, bool, bool, nat)) {
    var out0, out1 := code / 2 % 2 == 1, code / 4 % 2 == 1;
    (code % 2 == 1, out0, out1, code / 8 + if !out0 && !out1 then 1 else 0)
  }

  lemma CodeBits(n: nat, bit0: bool, bit1: bool, bit2: bool, code: nat)
    requires code == n * 8 + (if bit0 then 1 else 0) + (if bit1 then 2 else 0) + (if bit2 then 4 else 0)
    ensures code / 8 == n && (code % 2 == 1 <==> bit0) && (code / 2 % 2 == 1 <==> bit1) && (code / 4 % 2 == 1 <==> bit2)
  {
    var b0, b1, b2 := if bit0 then 1 else 0, if bit1 then 1 else 0, if bit2 then 1 else 0;
    LastBit(2 * (2 * n + b2) + b1, b0);
    LastBit(2 * n + b2, b1);
    LastBit(n, b2);
    HalvedTwice(code);
  }

  lemma LastBit(n: nat, bit: nat)
    requires bit < 2
    ensures (2 * n + bit) / 2 == n && (2 * n + bit) % 2 == bit
  {
  }

  lemma HalvedTwice(n: nat)
    ensures n / 4 == n / 2 / 2 && n / 8 == n / 2 / 2 / 2
  {
  }

  lemma HeaderCodeRoundTrip(entry: UtxoEntry, high: Uint32)
    requires HeaderCode(entry, high).Ok?
    ensures DecodeCode(HeaderCode(entry, high).value.0)
         == (entry.isCoinBase, entry.Unspent(0), entry.Unspent(1), BitmapLength(high))
  {
    var n, out0, out1 := BitmapLength(high), entry.Unspent(0), entry.Unspent(1);
    CodeBits(if !out0 && !out1 then n - 1 else n, entry.isCoinBase, out0, out1, HeaderCode(entry, high).value.0);
  }

  /** Reads an output for each index. */
  function DecodeOutputs(s: Bytes, indexes: seq<Uint32>, outputs: map<Uint32, UtxoOutput>)
    : (r: Result<(map<Uint32, UtxoOutput>, Bytes)>)
    decreases |indexes|
  {
    if indexes == [] then TxOut.Ok((outputs, s))
    else
      match TxOut.Decode(s)
      case Err(e) => TxOut.Err(e)
      case Ok((amount, script, rest)) =>
        var output := UtxoOutput(false, TxOut.Output(true, ToInt64(amount), script));
        DecodeOutputs(rest, indexes[1..], outputs[indexes[0] := output])
  }

  /** deserializeUtxoEntry, with the bytes it leaves unread. */
  function Deserialize(serialized: Bytes): (r: Result<(UtxoEntry, Bytes)>) {
    var (version, rest) := Vlq.Decode(serialized);
    if rest == [] then TxOut.Err(TxOut.UnexpectedEnd)
    else DeserializeAfterVersion(version, rest)
  }

  function DeserializeAfterVersion(version: Uint64, serialized: Bytes): (r: Result<(UtxoEntry, Bytes)>) {
    var (height, rest) := Vlq.Decode(serialized);
    if rest == [] then TxOut.Err(TxOut.UnexpectedEnd)
    else DeserializeAfterHeight(version, height, rest)
  }

  function DeserializeAfterHeight(version: Uint64, height: Uint64, serialized: Bytes): (r: Result<(UtxoEntry, Bytes)>) {
    var (code, rest) := Vlq.Decode(serialized);
    if rest == [] then TxOut.Err(TxOut.UnexpectedEnd)
    else DeserializeAfterCode(version, height, code, rest)
  }

  function DeserializeAfterCode(version: Uint64, height: Uint64, code: Uint64, serialized: Bytes)
    : (r: Result<(UtxoEntry, Bytes)>)
  {
    var (isCoinBase, out0, out1, n) := DecodeCode(code);
    if |serialized| < n then TxOut.Err(TxOut.UnexpectedEnd)
    else
      // the loop counter is a 32-bit number
      var k := n % TWO32;
      DeserializeOutputs(ToInt32(version), height % TWO32, isCoinBase, [out0, out1] + BitmapFlags(serialized[..k]),
        serialized[k..])
  }

  function DeserializeOutputs(version: Int32, height: Uint32, isCoinBase: bool, flags: seq<bool>, serialized: Bytes)
    : (r: Result<(UtxoEntry, Bytes)>)
  {
    match DecodeOutputs(serialized, Indexes(flags), map[])
    case Err(e) => TxOut.Err(e)
    case Ok(p) => TxOut.Ok((UtxoEntry(version, isCoinBase, height, p.0), p.1))
  }

  // ----- the serialized entry -----

  ghost predicate IsHighest(entry: UtxoEntry, high: Uint32) {
    high in entry.outputs && forall i :: i in entry.outputs ==> i <= high
  }

  ghost predicate AllStorable(entry: UtxoEntry) {
    forall i :: i in entry.outputs ==> TxOut.Storable(entry.outputs[i].out)
  }

  /** The unspent outputs in ascending order. */
  function UnspentIndexes(entry: UtxoEntry, high: Uint32): (indexes: seq<Uint32>)
    ensures forall i :: i in indexes ==> entry.Unspent(i)
  {
    IndexesAreSet(Flags(entry, high + 1));
    Indexes(Flags(entry, high + 1))
  }

  lemma {:induction false} IndexesAreSet(flags: seq<bool>)
    requires |flags| <= TWO32
    ensures forall i :: i in Indexes(flags) <==> 0 <= i < |flags| && flags[i]
  {
    if flags != [] {
      var n := |flags| - 1;
      IndexesAreSet(flags[..n]);
    }
  }

  /** The bitmap of an entry: the flags of the outputs from the third on. */
  function EntryBitmap(entry: UtxoEntry, length: nat): (s: Bytes)
    ensures |s| == length
  {
    Bitmap(Flags(entry, 2 + 8 * length)[2..])
  }

  /** serializeUtxoEntry for an entry that is not fully spent and whose highest output index is `high`. */
  function Serialize(curve: Curve, entry: UtxoEntry, high: Uint32): (r: Result<Bytes>) {
    match HeaderCode(entry, high)
    case Err(e) => TxOut.Err(e)
    case Ok((code, length)) =>
      TxOut.Ok(Vlq.Encode(ToUint64(entry.version))
               + (Vlq.Encode(entry.blockHeight)
                  + (Vlq.Encode(code)
                     + (EntryBitmap(entry, length) + EncodeOutputs(curve, entry, UnspentIndexes(entry, high))))))
  }

  // ----- the round trip -----

  /** The entry as it is stored: only its unspent outputs, in compressed form. */
  function Stored(curve: Curve, entry: UtxoEntry): (r: UtxoEntry) {
    entry.(outputs := map i | i in entry.outputs && !entry.outputs[i].spent :: StoredOutput(curve, entry, i))
  }

  function StoredOutput(curve: Curve, entry: UtxoEntry, i: Uint32): (output: UtxoOutput)
    requires i in entry.outputs
  {
    UtxoOutput(false, TxOut.Stored(curve, entry.outputs[i].out))
  }

  /** `outputs` with the stored outputs at the given indexes added. */
  function WithStored(curve: Curve, entry: UtxoEntry, indexes: seq<Uint32>, outputs: map<Uint32, UtxoOutput>)
    : (r: map<Uint32, UtxoOutput>)
    requires forall i :: i in indexes ==> i in entry.outputs
    ensures forall i :: i in r <==> i in outputs || i in indexes
    ensures forall i :: i in r ==> r[i] == if i in indexes then StoredOutput(curve, entry, i) else outputs[i]
  {
    if indexes == [] then outputs
    else WithStored(curve, entry, indexes[1..], outputs[indexes[0] := StoredOutput(curve, entry, indexes[0])])
  }

  lemma {:induction false} DecodeEncodeOutputs(curve: Curve, entry: UtxoEntry, indexes: seq<Uint32>,
                                               outputs: map<Uint32, UtxoOutput>, rest: Bytes)
    requires AllStorable(entry)
    requires forall i :: i in indexes ==> i in entry.outputs
    ensures DecodeOutputs(EncodeOutputs(curve, entry, indexes) + rest, indexes, outputs)
         == TxOut.Ok((WithStored(curve, entry, indexes, outputs), rest))
    decreases |indexes|
  {
    if indexes == [] {
      assert [] + rest == rest;
    } else {
      var out, tail := entry.outputs[indexes[0]].out, EncodeOutputs(curve, entry, indexes[1..]);
      Associative(TxOut.Encode(curve, out), tail, rest);
      TxOut.DecodeEncode(curve, out, tail + rest);
      DecodeEncodeOutputs(curve, entry, indexes[1..], outputs[indexes[0] := StoredOutput(curve, entry, indexes[0])],
        rest);
    }
  }

  lemma {:induction false} DecodedKeys(s: Bytes, indexes: seq<Uint32>, outputs: map<Uint32, UtxoOutput>)
    ensures var r := DecodeOutputs(s, indexes, outputs);
      r.Ok? ==> forall i :: i in r.value.0 ==> i in outputs || i in indexes
    decreases |indexes|
  {
    if indexes != [] {
      match TxOut.Decode(s)
      case Err(_) =>
      case Ok((amount, script, rest)) =>
        var output := UtxoOutput(false, TxOut.Output(true, ToInt64(amount), script));
        DecodedKeys(rest, indexes[1..], outputs[indexes[0] := output]);
    }
  }

  /** Flags that are not set add no index. */
  lemma {:induction false} IndexesExtend(entry: UtxoEntry, m: nat, n: nat)
    requires m <= n && forall i :: m <= i < n ==> !entry.Unspent(i)
    ensures Indexes(Flags(entry, n)) == Indexes(Flags(entry, m))
    decreases n
  {
    if m < n {
      assert Flags(entry, n)[..n - 1] == Flags(entry, n - 1);
      IndexesExtend(entry, m, n - 1);
    }
  }

  /** The bitmap and the two header bits give back the flags. */
  lemma FlagsRecovered(entry: UtxoEntry, length: nat)
    ensures [entry.Unspent(0), entry.Unspent(1)] + BitmapFlags(EntryBitmap(entry, length))
         == Flags(entry, 2 + 8 * length)
  {
    BitmapRoundTrip(Flags(entry, 2 + 8 * length)[2..]);
  }

  /** The bitmap length computed in 32 bits covers all unspent outputs. */
  ghost predicate Representable(entry: UtxoEntry, high: Uint32) {
    high + 6 < TWO32 || forall i :: entry.Unspent(i) ==> i < 2
  }

  /** What the decoder makes of the bytes behind the header. */
  function Body(curve: Curve, entry: UtxoEntry, high: Uint32, length: nat): (s: Bytes) {
    EntryBitmap(entry, length) + EncodeOutputs(curve, entry, UnspentIndexes(entry, high))
  }

  lemma OutputsNonempty(curve: Curve, entry: UtxoEntry, high: Uint32)
    requires IsHighest(entry, high) && !entry.FullySpent()
    ensures |EncodeOutputs(curve, entry, UnspentIndexes(entry, high))| > 0
  {
    var i :| i in entry.outputs && !entry.outputs[i].spent;
    IndexesAreSet(Flags(entry, high + 1));
    var indexes := UnspentIndexes(entry, high);
    assert i in indexes;
    assert indexes[0] in indexes;
    TxOut.EncodeIsNonempty(curve, entry.outputs[indexes[0]].out);
  }

  /** The three numbers of the header are read back. */
  lemma DeserializeHeader(curve: Curve, entry: UtxoEntry, high: Uint32)
    requires IsHighest(entry, high) && !entry.FullySpent()
    requires HeaderCode(entry, high).Ok?
    ensures Deserialize(Serialize(curve, entry, high).value)
         == DeserializeAfterCode(ToUint64(entry.version), entry.blockHeight, HeaderCode(entry, high).value.0,
                                 Body(curve, entry, high, BitmapLength(high)))
  {
    var body := Body(curve, entry, high, BitmapLength(high));
    var code := HeaderCode(entry, high).value.0;
    OutputsNonempty(curve, entry, high);
    ReadCode(ToUint64(entry.version), entry.blockHeight, code, body);
    ReadHeight(ToUint64(entry.version), entry.blockHeight, Vlq.Encode(code) + body);
    ReadVersion(ToUint64(entry.version), Vlq.Encode(entry.blockHeight) + (Vlq.Encode(code) + body));
    Vlq.EncodeLength(entry.blockHeight);
    Vlq.EncodeLength(code);
  }

  lemma ReadVersion(version: Uint64, rest: Bytes)
    requires rest != []
    ensures Deserialize(Vlq.Encode(version) + rest) == DeserializeAfterVersion(version, rest)
  {
    Vlq.DecodeEncode(version, rest);
  }

  lemma ReadHeight(version: Uint64, height: Uint64, rest: Bytes)
    requires rest != []
    ensures DeserializeAfterVersion(version, Vlq.Encode(height) + rest) == DeserializeAfterHeight(version, height, rest)
  {
    Vlq.DecodeEncode(height, rest);
  }

  lemma ReadCode(version: Uint64, height: Uint64, code: Uint64, rest: Bytes)
    requires rest != []
    ensures DeserializeAfterHeight(version, height, Vlq.Encode(code) + rest)
         == DeserializeAfterCode(version, height, code, rest)
  {
    Vlq.DecodeEncode(code, rest);
  }

  lemma SplitBitmap(version: Uint64, height: Uint64, code: Uint64, bitmap: Bytes, rest: Bytes)
    requires |bitmap| == DecodeCode(code).3 < TWO32
    ensures DeserializeAfterCode(version, height, code, bitmap + rest)
         == DeserializeOutputs(ToInt32(version), height % TWO32, DecodeCode(code).0,
                               [DecodeCode(code).1, DecodeCode(code).2] + BitmapFlags(bitmap), rest)
  {
    var s, k := bitmap + rest, DecodeCode(code).3 % TWO32;
    SmallMod32(|bitmap|);
    TakeDrop(bitmap, rest);
    assert s[..k] == bitmap;
    assert s[k..] == rest;
  }

  /** The bitmap is read back as the flags of the entry. */
  lemma DeserializeBitmap(curve: Curve, entry: UtxoEntry, high: Uint32, code: Uint64, length: nat)
    requires length < TWO32
    requires DecodeCode(code) == (entry.isCoinBase, entry.Unspent(0), entry.Unspent(1), length)
    ensures DeserializeAfterCode(ToUint64(entry.version), entry.blockHeight, code, Body(curve, entry, high, length))
         == DeserializeOutputs(entry.version, entry.blockHeight, entry.isCoinBase, Flags(entry, 2 + 8 * length),
                               EncodeOutputs(curve, entry, UnspentIndexes(entry, high)))
  {
    SplitBitmap(ToUint64(entry.version), entry.blockHeight, code, EntryBitmap(entry, length),
                EncodeOutputs(curve, entry, UnspentIndexes(entry, high)));
    FlagsRecovered(entry, length);
    Int32RoundTrip(entry.version);
    SmallMod32(entry.blockHeight);
  }

  /** With the right flags the decoder restores the stored entry and reads every byte. */
  lemma DeserializeUnspent(curve: Curve, entry: UtxoEntry, high: Uint32, flags: seq<bool>)
    requires IsHighest(entry, high) && AllStorable(entry)
    requires Indexes(flags) == UnspentIndexes(entry, high)
    ensures DeserializeOutputs(entry.version, entry.blockHeight, entry.isCoinBase, flags,
                               EncodeOutputs(curve, entry, UnspentIndexes(entry, high)))
         == TxOut.Ok((Stored(curve, entry), []))
  {
    var indexes := UnspentIndexes(entry, high);
    var outputs := EncodeOutputs(curve, entry, indexes);
    assert outputs + [] == outputs;
    DecodeEncodeOutputs(curve, entry, indexes, map[], []);
    AllStored(curve, entry, high);
  }

  lemma AllStored(curve: Curve, entry: UtxoEntry, high: Uint32)
    requires IsHighest(entry, high)
    ensures WithStored(curve, entry, UnspentIndexes(entry, high), map[]) == Stored(curve, entry).outputs
  {
    IndexesAreSet(Flags(entry, high + 1));
  }

  lemma HeaderExists(entry: UtxoEntry, high: Uint32)
    requires IsHighest(entry, high) && !entry.FullySpent() && Representable(entry, high)
    ensures HeaderCode(entry, high).Ok?
  {
    if !entry.Unspent(0) && !entry.Unspent(1) {
      var i :| i in entry.outputs && !entry.outputs[i].spent;
      assert entry.Unspent(i);
    }
  }

  lemma IndexesAgree(entry: UtxoEntry, high: Uint32)
    requires IsHighest(entry, high) && Representable(entry, high)
    ensures Indexes(Flags(entry, 2 + 8 * BitmapLength(high))) == UnspentIndexes(entry, high)
  {
    var n := 2 + 8 * BitmapLength(high);
    if high + 1 <= n {
      IndexesExtend(entry, high + 1, n);
    } else {
      IndexesExtend(entry, n, high + 1);
    }
  }

  /**
   An entry with at least one unspent output is read back as its version, height, coinbase flag and exactly its
   unspent outputs, with every byte consumed, if and only if its bitmap length does not wrap around.
   */
  lemma RoundTrip(curve: Curve, entry: UtxoEntry, high: Uint32)
    requires IsHighest(entry, high) && !entry.FullySpent() && AllStorable(entry)
    ensures (var r := Serialize(curve, entry, high);
             r.Ok? && Deserialize(r.value) == TxOut.Ok((Stored(curve, entry), [])))
       <==> Representable(entry, high)
  {
    if Representable(entry, high) {
      Restored(curve, entry, high);
    } else {
      NotRestored(curve, entry, high);
    }
  }

  lemma Restored(curve: Curve, entry: UtxoEntry, high: Uint32)
    requires IsHighest(entry, high) && !entry.FullySpent() && AllStorable(entry) && Representable(entry, high)
    ensures Serialize(curve, entry, high).Ok?
    ensures Deserialize(Serialize(curve, entry, high).value) == TxOut.Ok((Stored(curve, entry), []))
  {
    HeaderExists(entry, high);
    HeaderCodeRoundTrip(entry, high);
    DeserializeHeader(curve, entry, high);
    RestoredAfterCode(curve, entry, high, HeaderCode(entry, high).value.0);
  }

  lemma RestoredAfterCode(curve: Curve, entry: UtxoEntry, high: Uint32, code: Uint64)
    requires IsHighest(entry, high) && AllStorable(entry) && Representable(entry, high)
    requires DecodeCode(code) == (entry.isCoinBase, entry.Unspent(0), entry.Unspent(1), BitmapLength(high))
    ensures DeserializeAfterCode(ToUint64(entry.version), entry.blockHeight, code,
      Body(curve, entry, high, BitmapLength(high)))
         == TxOut.Ok((Stored(curve, entry), []))
  {
    DeserializeBitmap(curve, entry, high, code, BitmapLength(high));
    IndexesAgree(entry, high);
    DeserializeUnspent(curve, entry, high, Flags(entry, 2 + 8 * BitmapLength(high)));
  }

  lemma NotRestored(curve: Curve, entry: UtxoEntry, high: Uint32)
    requires IsHighest(entry, high) && AllStorable(entry) && !Representable(entry, high)
    ensures var r := Serialize(curve, entry, high);
      r.Ok? ==> Deserialize(r.value) != TxOut.Ok((Stored(curve, entry), []))
  {
    if HeaderCode(entry, high).Ok? {
      HeaderCodeRoundTrip(entry, high);
      DeserializeHeader(curve, entry, high);
      OutputsLost(curve, entry, high, HeaderCode(entry, high).value.0);
    }
  }

  /** When the bitmap length wraps around, only outputs zero and one can be read back. */
  lemma OutputsLost(curve: Curve, entry: UtxoEntry, high: Uint32, code: Uint64)
    requires !Representable(entry, high)
    requires DecodeCode(code) == (entry.isCoinBase, entry.Unspent(0), entry.Unspent(1), BitmapLength(high))
    ensures DeserializeAfterCode(ToUint64(entry.version), entry.blockHeight, code,
      Body(curve, entry, high, BitmapLength(high)))
         != TxOut.Ok((Stored(curve, entry), []))
  {
    var i :| entry.Unspent(i) && i >= 2;
    var body := Body(curve, entry, high, BitmapLength(high));
    var flags := [entry.Unspent(0), entry.Unspent(1)];
    assert BitmapLength(high) == 0;
    assert body[..0] == [] && body[0..] == body;
    assert flags + BitmapFlags([]) == flags;
    IndexesAreSet(flags);
    DecodedKeys(body, Indexes(flags), map[]);
    assert i in Stored(curve, entry).outputs;
  }
}
