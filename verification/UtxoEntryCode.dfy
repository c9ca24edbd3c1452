/** The loops of serializeUtxoEntry and deserializeUtxoEntry (blockchain/chainio.go), proved to follow the format. */
module UtxoEntryCode {
  import opened Bytes
  import opened Sorting
  import opened UtxoEntry
  import Vlq
  import TxOut
  import opened Curve

  // ----- the output order -----

  /** The keys of the sparse output map, sorted: sort.Ints over a range of the map. */
  method SortedKeys(outputs: map<Uint32, UtxoOutput>) returns (order: seq<Uint32>)
    ensures IsAscending(order)
    ensures forall i :: i in order <==> i in outputs
  {
    var collected: seq<int> := [];
    var keys := outputs.Keys;
    while keys != {}
      invariant keys <= outputs.Keys
      invariant forall i :: i in collected <==> i in outputs && i !in keys
      invariant forall i, j :: 0 <= i < j < |collected| ==> collected[i] != collected[j]
      decreases keys
    {
      var k :| k in keys;
      keys := keys - {k};
      collected := collected + [k];
    }
    var sorted := Sort(collected);
    SortIsSorted(collected);
    SortKeepsMembers(collected);
    SortKeepsDistinct(collected);
    forall i | 0 <= i < |sorted| ensures 0 <= sorted[i] < TWO32 {
      assert sorted[i] in sorted;
      assert sorted[i] in outputs;
    }
    order := sorted;
  }

  lemma SortKeepsMembers(s: seq<int>)
    ensures forall x :: x in Sort(s) <==> x in s
  {
    SortIsPermutation(s);
    forall x
      ensures x in Sort(s) <==> x in s
    {
      assert x in multiset(Sort(s)) <==> x in multiset(s);
    }
  }

  lemma SortKeepsDistinct(s: seq<int>)
    requires forall i, j :: 0 <= i < j < |s| ==> s[i] != s[j]
    ensures IsAscending(Sort(s))
  {
    SortIsSorted(s);
    SortIsPermutation(s);
    var r := Sort(s);
    forall i, j | 0 <= i < j < |r| ensures r[i] < r[j] {
      if r[i] == r[j] {
        CountTwice(r, i, j);
        CountOnce(s, r[i]);
      }
    }
  }

  lemma CountTwice(r: seq<int>, i: nat, j: nat)
    requires i < j < |r| && r[i] == r[j]
    ensures multiset(r)[r[i]] >= 2
  {
    assert r == r[..j] + [r[j]] + r[j + 1..];
    assert r[..j][i] == r[i];
    assert r[i] in multiset(r[..j]);
  }

  lemma {:induction false} CountOnce(s: seq<int>, x: int)
    requires forall i, j :: 0 <= i < j < |s| ==> s[i] != s[j]
    ensures multiset(s)[x] <= 1
  {
    if s != [] {
      var n := |s| - 1;
      CountOnce(s[..n], x);
      assert s == s[..n] + [s[n]];
      assert x in multiset(s[..n]) <==> x in s[..n];
      assert x in s[..n] ==> exists i :: 0 <= i < n && s[i] == x;
    }
  }

  /** The unspent ones among the given indexes. */
  function UnspentOf(entry: UtxoEntry, order: seq<Uint32>): (indexes: seq<Uint32>)
    ensures forall i :: i in indexes <==> i in order && entry.Unspent(i)
  {
    if order == [] then []
    else
      var n := |order| - 1;
      if entry.Unspent(order[n]) then UnspentOf(entry, order[..n]) + [order[n]] else UnspentOf(entry, order[..n])
  }

  lemma {:induction false} UnspentOfIsAscending(entry: UtxoEntry, order: seq<Uint32>)
    requires IsAscending(order)
    ensures IsAscending(UnspentOf(entry, order))
  {
    if order != [] {
      var n := |order| - 1;
      UnspentOfIsAscending(entry, order[..n]);
      var r := UnspentOf(entry, order[..n]);
      forall i | 0 <= i < |r| ensures r[i] < order[n] {
        assert r[i] in order[..n];
      }
    }
  }

  lemma {:induction false} IndexesAreAscending(flags: seq<bool>)
    requires |flags| <= TWO32
    ensures IsAscending(Indexes(flags))
  {
    if flags != [] {
      var n := |flags| - 1;
      IndexesAreAscending(flags[..n]);
      IndexesAreSet(flags[..n]);
      var r := Indexes(flags[..n]);
      forall i | 0 <= i < |r| ensures r[i] < n {
        assert r[i] in r;
      }
    }
  }

  /** Walking the sorted keys and skipping the spent ones visits the unspent outputs in ascending order. */
  lemma UnspentOrder(entry: UtxoEntry, order: seq<Uint32>, high: Uint32)
    requires IsAscending(order) && IsHighest(entry, high)
    requires forall i :: i in order <==> i in entry.outputs
    ensures UnspentOf(entry, order) == UnspentIndexes(entry, high)
  {
    UnspentOfIsAscending(entry, order);
    IndexesAreAscending(Flags(entry, high + 1));
    IndexesAreSet(Flags(entry, high + 1));
    AscendingIsUnique(UnspentOf(entry, order), UnspentIndexes(entry, high));
  }

  // ----- writing -----

  lemma {:induction false} EncodeOutputsSnoc(curve: Curve, entry: UtxoEntry, indexes: seq<Uint32>, i: Uint32)
    requires i in entry.outputs && forall k :: k in indexes ==> k in entry.outputs
    ensures EncodeOutputs(curve, entry, indexes + [i]) == EncodeOutputs(curve, entry, indexes)
      + TxOut.Encode(curve, entry.outputs[i].out)
  {
    var last := TxOut.Encode(curve, entry.outputs[i].out);
    if indexes == [] {
      assert ([] + [i])[1..] == [];
      assert last + [] == [] + last;
    } else {
      assert (indexes + [i])[1..] == indexes[1..] + [i];
      EncodeOutputsSnoc(curve, entry, indexes[1..], i);
      Associative(TxOut.Encode(curve, entry.outputs[indexes[0]].out), EncodeOutputs(curve, entry, indexes[1..]), last);
    }
  }

  /** The unspent outputs among the first `k` of the order, encoded. */
  function Encoded(curve: Curve, entry: UtxoEntry, order: seq<Uint32>, k: nat): (s: Bytes)
    requires k <= |order|
  {
    EncodeOutputs(curve, entry, UnspentOf(entry, order[..k]))
  }

  lemma EncodedStep(curve: Curve, entry: UtxoEntry, order: seq<Uint32>, k: nat)
    requires k < |order|
    ensures entry.Unspent(order[k]) ==>
      Encoded(curve, entry, order, k + 1) == Encoded(curve, entry, order, k)
        + TxOut.Encode(curve, entry.outputs[order[k]].out)
    ensures !entry.Unspent(order[k]) ==> Encoded(curve, entry, order, k + 1) == Encoded(curve, entry, order, k)
  {
    assert order[..k + 1][..k] == order[..k];
    if entry.Unspent(order[k]) {
      EncodeOutputsSnoc(curve, entry, UnspentOf(entry, order[..k]), order[k]);
    }
  }

  lemma {:induction false} EncodedGrows(curve: Curve, entry: UtxoEntry, order: seq<Uint32>, k: nat)
    requires k <= |order|
    ensures |Encoded(curve, entry, order, k)| <= |Encoded(curve, entry, order, |order|)|
    decreases |order| - k
  {
    if k < |order| {
      EncodedStep(curve, entry, order, k);
      EncodedGrows(curve, entry, order, k + 1);
    }
  }

  /** The size loop over the outputs. */
  method OutputsSize(curve: Curve, entry: UtxoEntry, order: seq<Uint32>) returns (size: nat)
    requires AllStorable(entry) && forall i :: i in order ==> i in entry.outputs
    ensures size == |Encoded(curve, entry, order, |order|)|
  {
    size := 0;
    for k := 0 to |order|
      invariant size == |Encoded(curve, entry, order, k)|
    {
      var output := entry.outputs[order[k]];
      EncodedStep(curve, entry, order, k);
      if !output.spent {
        var outSize := TxOut.CompressedSize(curve, output.out);
        size := size + outSize;
      }
    }
  }

  /** The writing loop over the outputs, from offset `at` on. */
  method PutOutputs(target: array<Byte>, at: nat, curve: Curve, entry: UtxoEntry, order: seq<Uint32>)
    requires AllStorable(entry) && forall i :: i in order ==> i in entry.outputs
    requires at + |Encoded(curve, entry, order, |order|)| <= target.Length
    modifies target
    ensures Spliced(target[..], old(target[..]), at, Encoded(curve, entry, order, |order|))
  {
    ghost var first := target[..];
    var offset := at;
    for k := 0 to |order|
      invariant offset == at + |Encoded(curve, entry, order, k)|
      invariant Spliced(target[..], first, at, Encoded(curve, entry, order, k))
    {
      var output := entry.outputs[order[k]];
      EncodedStep(curve, entry, order, k);
      EncodedGrows(curve, entry, order, k + 1);
      if !output.spent {
        ghost var mid := target[..];
        var written := TxOut.Put(target, offset, curve, output.out);
        SplicedTwice(target[..], mid, first, at, offset, Encoded(curve, entry, order, k),
          TxOut.Encode(curve, output.out));
        offset := offset + written;
      }
    }
  }

  // ----- the bitmap -----

  lemma {:induction false} PackSnoc(bits: seq<bool>, b: bool)
    ensures Pack(bits + [b]) == Pack(bits) + if b then Pow2(|bits|) else 0
  {
    if bits == [] {
      assert ([] + [b])[1..] == [];
    } else {
      assert (bits + [b])[1..] == bits[1..] + [b];
      PackSnoc(bits[1..], b);
    }
  }

  lemma {:induction false} BitmapSnoc(flags: seq<bool>, byte: seq<bool>)
    requires |flags| % 8 == 0 && |byte| == 8
    ensures Pack(byte) < 256
    ensures Bitmap(flags + byte) == Bitmap(flags) + [Pack(byte)]
  {
    PackBound(byte);
    assert Pow2(8) == 256;
    if flags == [] {
      assert flags + byte == byte;
      assert byte[..8] == byte && byte[8..] == [];
    } else {
      assert (flags + byte)[..8] == flags[..8];
      assert (flags + byte)[8..] == flags[8..] + byte;
      BitmapSnoc(flags[8..], byte);
    }
  }

  /** The flags behind byte `i` of the bitmap. */
  function ByteFlags(entry: UtxoEntry, i: nat, count: nat): (flags: seq<bool>)
    ensures |flags| == count
  {
    Flags(entry, 2 + 8 * i + count)[2 + 8 * i..]
  }

  lemma EntryBitmapSnoc(entry: UtxoEntry, i: nat)
    ensures Pack(ByteFlags(entry, i, 8)) < 256
    ensures EntryBitmap(entry, i + 1) == EntryBitmap(entry, i) + [Pack(ByteFlags(entry, i, 8))]
  {
    BitmapSnoc(Flags(entry, 2 + 8 * i)[2..], ByteFlags(entry, i, 8));
    assert Flags(entry, 2 + 8 * (i + 1))[2..] == Flags(entry, 2 + 8 * i)[2..] + ByteFlags(entry, i, 8);
  }

  lemma ByteFlagsSnoc(entry: UtxoEntry, i: nat, j: nat)
    ensures ByteFlags(entry, i, j + 1) == ByteFlags(entry, i, j) + [entry.Unspent(2 + i * 8 + j)]
  {
  }

  /** The inner bitmap loop: sets bit `j` when output 2 + 8 i + j is unspent. */
  method UnspentBits(entry: UtxoEntry, i: nat) returns (bits: nat)
    ensures bits == Pack(ByteFlags(entry, i, 8)) < 256
  {
    bits := 0;
    var bit := 1;
    for j := 0 to 8
      invariant bits == Pack(ByteFlags(entry, i, j))
      invariant bit == Pow2(j)
    {
      ByteFlagsSnoc(entry, i, j);
      PackSnoc(ByteFlags(entry, i, j), entry.Unspent(2 + i * 8 + j));
      if entry.Unspent(2 + i * 8 + j) {
        bits := bits + bit;
      }
      bit := bit * 2;
    }
    EntryBitmapSnoc(entry, i);
  }

  /** The bitmap loop, from offset `at` on. */
  method PutBitmap(target: array<Byte>, at: nat, entry: UtxoEntry, length: nat)
    requires at + length <= target.Length
    modifies target
    ensures Spliced(target[..], old(target[..]), at, EntryBitmap(entry, length))
  {
    ghost var first := target[..];
    for i := 0 to length
      invariant Spliced(target[..], first, at, EntryBitmap(entry, i))
    {
      ghost var mid := target[..];
      var bits := UnspentBits(entry, i);
      EntryBitmapSnoc(entry, i);
      target[at + i] := bits;
      SplicedTwice(target[..], mid, first, at, at + i, EntryBitmap(entry, i), [bits]);
    }
  }

  // ----- serializeUtxoEntry -----

  method IsFullySpent(entry: UtxoEntry) returns (r: bool)
    ensures r == entry.FullySpent()
  {
    var keys := entry.outputs.Keys;
    while keys != {}
      invariant keys <= entry.outputs.Keys
      invariant forall i :: i in entry.outputs && i !in keys ==> entry.outputs[i].spent
      decreases keys
    {
      var i :| i in keys;
      if !entry.outputs[i].spent {
        return false;
      }
      keys := keys - {i};
    }
    return true;
  }

  /** The header numbers, one after the other. */
  method PutNumbers(target: array<Byte>, a: Uint64, b: Uint64, c: Uint64) returns (written: nat)
    requires |Vlq.Encode(a) + Vlq.Encode(b) + Vlq.Encode(c)| <= target.Length
    modifies target
    ensures written == |Vlq.Encode(a) + Vlq.Encode(b) + Vlq.Encode(c)|
    ensures Spliced(target[..], old(target[..]), 0, Vlq.Encode(a) + Vlq.Encode(b) + Vlq.Encode(c))
  {
    ghost var start := target[..];
    var first := Vlq.Put(target, 0, a);
    ghost var mid := target[..];
    var second := Vlq.Put(target, first, b);
    SplicedTwice(target[..], mid, start, 0, first, Vlq.Encode(a), Vlq.Encode(b));
    mid := target[..];
    var third := Vlq.Put(target, first + second, c);
    SplicedTwice(target[..], mid, start, 0, first + second, Vlq.Encode(a) + Vlq.Encode(b), Vlq.Encode(c));
    written := first + second + third;
  }

  /** The five parts of a serialized entry, grouped as they are written. */
  lemma SerializedParts(curve: Curve, entry: UtxoEntry, high: Uint32, code: Uint64, length: nat, outputs: Bytes)
    requires HeaderCode(entry, high) == TxOut.Ok((code, length))
    requires outputs == EncodeOutputs(curve, entry, UnspentIndexes(entry, high))
    ensures Serialize(curve, entry, high)
         == TxOut.Ok(Vlq.Encode(ToUint64(entry.version)) + Vlq.Encode(entry.blockHeight) + Vlq.Encode(code)
                     + EntryBitmap(entry, length) + outputs)
  {
    var a, b, c, d := Vlq.Encode(ToUint64(entry.version)), Vlq.Encode(entry.blockHeight), Vlq.Encode(code),
      EntryBitmap(entry, length);
    Associative(a + b + c, d, outputs);
    Associative(a + b, c, d + outputs);
    Associative(a, b, c + (d + outputs));
  }

  /** serializeUtxoEntry: None stands for the nil slice of a fully spent entry. */
  method SerializeEntry(curve: Curve, entry: UtxoEntry) returns (r: Result<Option<Bytes>>, ghost high: Uint32)
    requires AllStorable(entry)
    ensures entry.FullySpent() ==> r == TxOut.Ok(None)
    ensures !entry.FullySpent() ==> IsHighest(entry, high)
    ensures !entry.FullySpent() ==>
      r == match Serialize(curve, entry, high) case Ok(s) => TxOut.Ok(Some(s)) case Err(e) => TxOut.Err(e)
  {
    high := 0;
    var fullySpent := IsFullySpent(entry);
    if fullySpent {
      return TxOut.Ok(None), 0;
    }
    var order := SortedKeys(entry.outputs);
    var highIndex := HighestKey(entry, order);
    high := highIndex;
    match HeaderCode(entry, highIndex)
    case Err(e) =>
      r := TxOut.Err(e);
    case Ok((code, length)) =>
      var s := SerializeParts(curve, entry, order, code, length);
      UnspentOrder(entry, order, highIndex);
      assert order[..|order|] == order;
      SerializedParts(curve, entry, highIndex, code, length, Encoded(curve, entry, order, |order|));
      r := TxOut.Ok(Some(s));
  }

  method HighestKey(entry: UtxoEntry, order: seq<Uint32>) returns (high: Uint32)
    requires IsAscending(order) && (forall i :: i in order <==> i in entry.outputs)
    requires !entry.FullySpent()
    ensures IsHighest(entry, high)
  {
    ghost var i :| i in entry.outputs && !entry.outputs[i].spent;
    assert i in order;
    high := order[|order| - 1];
    assert high in order;
  }

  /** Version, height and header code, then the bitmap. */
  function EncodeHeader(entry: UtxoEntry, code: Uint64, length: nat): (s: Bytes) {
    Vlq.Encode(ToUint64(entry.version)) + Vlq.Encode(entry.blockHeight) + Vlq.Encode(code) + EntryBitmap(entry, length)
  }

  method PutHeader(target: array<Byte>, entry: UtxoEntry, code: Uint64, length: nat) returns (written: nat)
    requires |EncodeHeader(entry, code, length)| <= target.Length
    modifies target
    ensures written == |EncodeHeader(entry, code, length)|
    ensures Spliced(target[..], old(target[..]), 0, EncodeHeader(entry, code, length))
  {
    ghost var start := target[..];
    var offset := PutNumbers(target, ToUint64(entry.version), entry.blockHeight, code);
    ghost var mid := target[..];
    PutBitmap(target, offset, entry, length);
    SplicedTwice(target[..], mid, start, 0, offset,
                 Vlq.Encode(ToUint64(entry.version)) + Vlq.Encode(entry.blockHeight) + Vlq.Encode(code),
                 EntryBitmap(entry, length));
    written := offset + length;
  }

  /** Sizes the buffer and fills it. */
  method SerializeParts(curve: Curve, entry: UtxoEntry, order: seq<Uint32>, code: Uint64, length: nat)
      returns (s: Bytes)
    requires AllStorable(entry) && forall i :: i in order ==> i in entry.outputs
    ensures s == EncodeHeader(entry, code, length) + Encoded(curve, entry, order, |order|)
  {
    var size := HeaderSize(entry, code);
    var outputsSize := OutputsSize(curve, entry, order);
    size := size + length + outputsSize;
    var target := new Byte[size];
    ghost var start := target[..];
    var offset := PutHeader(target, entry, code, length);
    ghost var mid := target[..];
    PutOutputs(target, offset, curve, entry, order);
    SplicedTwice(target[..], mid, start, 0, offset, EncodeHeader(entry, code, length),
      Encoded(curve, entry, order, |order|));
    SplicedWhole(target[..], start, EncodeHeader(entry, code, length) + Encoded(curve, entry, order, |order|));
    return target[..];
  }

  /** Overwriting everything leaves what was written. */
  lemma SplicedWhole(after: Bytes, before: Bytes, s: Bytes)
    requires Spliced(after, before, 0, s) && |before| == |s|
    ensures after == s
  {
    SplicedSlices(after, before, 0, s);
  }

  method HeaderSize(entry: UtxoEntry, code: Uint64) returns (size: nat)
    ensures size == |Vlq.Encode(ToUint64(entry.version)) + Vlq.Encode(entry.blockHeight) + Vlq.Encode(code)|
  {
    var a := Vlq.SerializeSize(ToUint64(entry.version));
    var b := Vlq.SerializeSize(entry.blockHeight);
    var c := Vlq.SerializeSize(code);
    size := a + b + c;
  }

  // ----- deserializeUtxoEntry -----

  lemma {:induction false} BitmapFlagsSnoc(s: Bytes, b: Byte)
    ensures BitmapFlags(s + [b]) == BitmapFlags(s) + Unpack(b, 8)
  {
    if s == [] {
      assert ([] + [b])[1..] == [];
      assert Unpack(b, 8) + [] == [] + Unpack(b, 8);
    } else {
      assert (s + [b])[1..] == s[1..] + [b];
      BitmapFlagsSnoc(s[1..], b);
      Associative(Unpack(s[0], 8), BitmapFlags(s[1..]), Unpack(b, 8));
    }
  }

  lemma IndexesSnoc(flags: seq<bool>, b: bool)
    ensures Indexes(flags + [b]) == if b then Indexes(flags) + [|flags| % TWO32] else Indexes(flags)
  {
    assert (flags + [b])[..|flags|] == flags;
  }

  /** `n` shifted right `j` times. */
  function Shifted(n: nat, j: nat): (r: nat) {
    if j == 0 then n else Shifted(n, j - 1) / 2
  }

  lemma {:induction false} ShiftedFirst(n: nat, j: nat)
    ensures Shifted(n / 2, j) == Shifted(n, j + 1)
  {
    if j > 0 {
      ShiftedFirst(n, j - 1);
    }
  }

  lemma {:induction false} UnpackSnoc(n: nat, j: nat)
    ensures Unpack(n, j + 1) == Unpack(n, j) + [Shifted(n, j) % 2 == 1]
    decreases j
  {
    if j > 0 {
      UnpackSnoc(n / 2, j - 1);
      ShiftedFirst(n, j - 1);
      Associative([n % 2 == 1], Unpack(n / 2, j - 1), [Shifted(n, j) % 2 == 1]);
    }
  }

  lemma IndexesStep(flags: seq<bool>, n: nat, j: nat)
    ensures Indexes(flags + Unpack(n, j + 1))
         == if Shifted(n, j) % 2 == 1 then Indexes(flags + Unpack(n, j)) + [(|flags| + j) % TWO32]
            else Indexes(flags + Unpack(n, j))
  {
    UnpackSnoc(n, j);
    Associative(flags, Unpack(n, j), [Shifted(n, j) % 2 == 1]);
    IndexesSnoc(flags + Unpack(n, j), Shifted(n, j) % 2 == 1);
  }

  /** The inner decoding loop: the indexes of the bits set in one bitmap byte, tested lowest bit first. */
  method AppendByte(indexes: seq<Uint32>, i: nat, byte: Byte, ghost flags: seq<bool>) returns (r: seq<Uint32>)
    requires |flags| == 2 + 8 * i && indexes == Indexes(flags)
    ensures r == Indexes(flags + Unpack(byte, 8))
  {
    r := indexes;
    var unspentBits: nat := byte;
    assert flags + [] == flags;
    for j := 0 to 8
      invariant unspentBits == Shifted(byte, j)
      invariant r == Indexes(flags + Unpack(byte, j))
    {
      IndexesStep(flags, byte, j);
      if unspentBits % 2 != 0 {
        r := r + [(2 + i * 8 + j) % TWO32];
      }
      unspentBits := unspentBits / 2;
    }
  }

  /** The flags known after the header bits and the first `i` bitmap bytes. */
  ghost function Seen(out0: bool, out1: bool, bitmap: Bytes, i: nat): (flags: seq<bool>)
    requires i <= |bitmap|
    ensures |flags| == 2 + 8 * i
  {
    [out0, out1] + BitmapFlags(bitmap[..i])
  }

  lemma SeenStep(out0: bool, out1: bool, bitmap: Bytes, i: nat)
    requires i < |bitmap|
    ensures Seen(out0, out1, bitmap, i + 1) == Seen(out0, out1, bitmap, i) + Unpack(bitmap[i], 8)
  {
    assert bitmap[..i + 1] == bitmap[..i] + [bitmap[i]];
    BitmapFlagsSnoc(bitmap[..i], bitmap[i]);
    Associative([out0, out1], BitmapFlags(bitmap[..i]), Unpack(bitmap[i], 8));
  }

  /** The decoding loop over the bitmap. */
  method BitmapIndexes(out0: bool, out1: bool, bitmap: Bytes) returns (indexes: seq<Uint32>)
    ensures indexes == Indexes([out0, out1] + BitmapFlags(bitmap))
  {
    assert bitmap[..0] == [] && bitmap[..|bitmap|] == bitmap;
    indexes := (if out0 then [0] else []) + (if out1 then [1] else []);
    HeaderIndexes(out0, out1);
    for i := 0 to |bitmap|
      invariant indexes == Indexes(Seen(out0, out1, bitmap, i))
    {
      indexes := AppendByte(indexes, i, bitmap[i], Seen(out0, out1, bitmap, i));
      SeenStep(out0, out1, bitmap, i);
    }
  }

  lemma HeaderIndexes(out0: bool, out1: bool)
    ensures Indexes([out0, out1] + BitmapFlags([])) == (if out0 then [0] else []) + (if out1 then [1] else [])
  {
    assert [out0, out1] + BitmapFlags([]) == [] + [out0] + [out1];
    IndexesSnoc([], out0);
    IndexesSnoc([] + [out0], out1);
  }

  /** The final loop: decodes an output for each index. */
  method ReadOutputs(serialized: Bytes, indexes: seq<Uint32>) returns (r: Result<(map<Uint32, UtxoOutput>, Bytes)>)
    ensures r == DecodeOutputs(serialized, indexes, map[])
  {
    var outputs: map<Uint32, UtxoOutput>, rest := map[], serialized;
    for i := 0 to |indexes|
      invariant DecodeOutputs(serialized, indexes, map[]) == DecodeOutputs(rest, indexes[i..], outputs)
    {
      assert indexes[i..][1..] == indexes[i + 1..];
      match TxOut.Decode(rest)
      case Err(e) =>
        return TxOut.Err(e);
      case Ok(p) =>
        var output := UtxoOutput(false, TxOut.Output(true, ToInt64(p.0), p.1));
        outputs, rest := outputs[indexes[i] := output], p.2;
    }
    return TxOut.Ok((outputs, rest));
  }

  /** The entry of a decoding, without the bytes it left unread. */
  function EntryOf(r: Result<(UtxoEntry, Bytes)>): (entry: Result<UtxoEntry>) {
    match r
    case Ok(p) => TxOut.Ok(p.0)
    case Err(e) => TxOut.Err(e)
  }

  /** deserializeUtxoEntry. */
  method DeserializeEntry(serialized: Bytes) returns (r: Result<UtxoEntry>)
    ensures r == EntryOf(Deserialize(serialized))
  {
    var (version, rest) := Vlq.Decode(serialized);
    if rest == [] {
      return TxOut.Err(TxOut.UnexpectedEnd);
    }
    var (height, rest') := Vlq.Decode(rest);
    if rest' == [] {
      return TxOut.Err(TxOut.UnexpectedEnd);
    }
    var (code, rest'') := Vlq.Decode(rest');
    if rest'' == [] {
      return TxOut.Err(TxOut.UnexpectedEnd);
    }
    r := ReadBody(version, height, code, rest'');
  }

  method ReadBody(version: Uint64, height: Uint64, code: Uint64, serialized: Bytes) returns (r: Result<UtxoEntry>)
    ensures r == EntryOf(DeserializeAfterCode(version, height, code, serialized))
  {
    var (isCoinBase, out0, out1, n) := DecodeCode(code);
    if |serialized| < n {
      return TxOut.Err(TxOut.UnexpectedEnd);
    }
    var k := n % TWO32;
    var indexes := BitmapIndexes(out0, out1, serialized[..k]);
    var read := ReadOutputs(serialized[k..], indexes);
    match read
    case Err(e) =>
      return TxOut.Err(e);
    case Ok(p) =>
      return TxOut.Ok(UtxoEntry(ToInt32(version), isCoinBase, height % TWO32, p.0));
  }
}
