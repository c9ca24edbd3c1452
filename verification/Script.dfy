/**
 Public key script compression (blockchain/compress.go): the standard payment scripts are stored as a
 one-byte tag and their hash or key, every other script as its length plus six and the script itself.
 */
module Script {
  import opened Bytes
  import Vlq
  import opened Curve

  const OP_DATA_20: Byte := 0x14
  const OP_DATA_33: Byte := 0x21
  const OP_DATA_65: Byte := 0x41
  const OP_DUP: Byte := 0x76
  const OP_EQUAL: Byte := 0x87
  const OP_EQUALVERIFY: Byte := 0x88
  const OP_HASH160: Byte := 0xa9
  const OP_CHECKSIG: Byte := 0xac

  const PAY_TO_PUBKEY_HASH := 0
  const PAY_TO_SCRIPT_HASH := 1
  const NUM_SPECIAL_SCRIPTS := 6

  // ----- the recognizers -----

  predicate IsPubKeyHash(script: Bytes) {
    && |script| == 25
    && script[0] == OP_DUP && script[1] == OP_HASH160 && script[2] == OP_DATA_20
    && script[23] == OP_EQUALVERIFY && script[24] == OP_CHECKSIG
  }

  predicate IsScriptHash(script: Bytes) {
    && |script| == 23
    && script[0] == OP_HASH160 && script[1] == OP_DATA_20 && script[22] == OP_EQUAL
  }

  /** A pay-to-pubkey script to a valid compressed key. */
  predicate IsCompressedPubKey(curve: Curve, script: Bytes) {
    && |script| == 35
    && script[0] == OP_DATA_33 && script[34] == OP_CHECKSIG
    && (script[1] == 0x02 || script[1] == 0x03)
    && ParsePubKey(curve, script[1..34]).Some?
  }

  /** A pay-to-pubkey script to a valid uncompressed key. */
  predicate IsUncompressedPubKey(curve: Curve, script: Bytes) {
    && |script| == 67
    && script[0] == OP_DATA_65 && script[66] == OP_CHECKSIG
    && script[1] == 0x04
    && ParsePubKey(curve, script[1..66]).Some?
  }

  // ----- the format -----

  /** The tag and data of a standard script; None for any other script. */
  function Special(curve: Curve, script: Bytes): (r: Option<(Byte, Bytes)>)
    ensures r.Some? ==> r.value.0 < NUM_SPECIAL_SCRIPTS && |r.value.1| == DataLength(r.value.0)
  {
    if IsPubKeyHash(script) then Some((PAY_TO_PUBKEY_HASH, script[3..23]))
    else if IsScriptHash(script) then Some((PAY_TO_SCRIPT_HASH, script[2..22]))
    else if IsCompressedPubKey(curve, script) then Some((script[1], script[2..34]))
    // the oddness of y goes into the tag
    else if IsUncompressedPubKey(curve, script) then Some((0x04 + script[65] % 2, script[2..34]))
    else None
  }

  /** The compressed form of a script that is not special: its size plus the special cases, and the script. */
  function Sized(script: Bytes): (s: Bytes) {
    Vlq.Encode(|script| + NUM_SPECIAL_SCRIPTS) + script
  }

  /** The compressed form of a script. */
  function Compressed(curve: Curve, script: Bytes): (s: Bytes) {
    match Special(curve, script)
    case Some((tag, data)) => [tag] + data
    case None => Sized(script)
  }

  /** How many bytes follow the tag or size `n` of a compressed script. */
  function DataLength(n: nat): (len: nat) {
    if n <= PAY_TO_SCRIPT_HASH then 20
    else if n < NUM_SPECIAL_SCRIPTS then 32
    else n - NUM_SPECIAL_SCRIPTS
  }

  /** `s` is a tag or size followed by exactly the bytes it announces. */
  ghost predicate Framed(s: Bytes) {
    var (n, data) := Vlq.Decode(s);
    && s == Vlq.Encode(n) + data
    && |data| == DataLength(n)
    && |s| < TWO63
  }

  /** The length of a compressed script whose tag or size `n` took `bytesRead` bytes, as an int. */
  function SizeFor(n: Uint64, bytesRead: nat): (size: int) {
    if bytesRead == 0 then 0
    else if n <= PAY_TO_SCRIPT_HASH then 21
    else if n < NUM_SPECIAL_SCRIPTS then 33
    else ToInt64((n - NUM_SPECIAL_SCRIPTS + bytesRead) % TWO64)
  }

  /** decodeCompressedScriptSize; a size beyond the int range comes out negative. */
  function DecodeSize(serialized: Bytes): (size: int) {
    var (n, rest) := Vlq.Decode(serialized);
    SizeFor(n, |serialized| - |rest|)
  }

  /** The script with tag or size `n` and the given data; None stands for the nil script. */
  function Expand(curve: Curve, n: nat, data: Bytes): (script: Option<Bytes>)
    requires |data| == DataLength(n)
  {
    if n == PAY_TO_PUBKEY_HASH then
      Some([OP_DUP, OP_HASH160, OP_DATA_20] + data + [OP_EQUALVERIFY, OP_CHECKSIG])
    else if n == PAY_TO_SCRIPT_HASH then
      Some([OP_HASH160, OP_DATA_20] + data + [OP_EQUAL])
    else if n <= 3 then
      Some([OP_DATA_33, n] + data + [OP_CHECKSIG])
    else if n <= 5 then
      match ParsePubKey(curve, [n - 2] + data)
      case None => None
      case Some(key) => Some([OP_DATA_65] + SerializeUncompressed(key) + [OP_CHECKSIG])
    else
      Some(data)
  }

  /** decompressScript; the data of an uncompressed key is taken from the second byte on. */
  function Decompress(curve: Curve, s: Bytes): (script: Option<Bytes>)
    requires s != [] ==> |Vlq.Decode(s).1| >= DataLength(Vlq.Decode(s).0)
  {
    if s == [] then None
    else
      var (n, rest) := Vlq.Decode(s);
      Expand(curve, n, if 4 <= n <= 5 then s[1..33] else rest[..DataLength(n)])
  }

  /** compressedScriptSize. */
  method CompressedSize(curve: Curve, script: Bytes) returns (size: nat)
    requires |script| + NUM_SPECIAL_SCRIPTS < TWO64
    ensures size == |Compressed(curve, script)|
  {
    if IsPubKeyHash(script) {
      return 21;
    }
    if IsScriptHash(script) {
      return 21;
    }
    if IsCompressedPubKey(curve, script) || IsUncompressedPubKey(curve, script) {
      return 33;
    }
    size := Vlq.SerializeSize(|script| + NUM_SPECIAL_SCRIPTS);
    size := size + |script|;
  }

  /** copy(target[at:], s), for a target with room for all of `s`. */
  method Copy(target: array<Byte>, at: nat, s: Bytes)
    requires at + |s| <= target.Length
    modifies target
    ensures Spliced(target[..], old(target[..]), at, s)
  {
    for i := 0 to |s|
      invariant forall k :: 0 <= k < target.Length ==>
        target[k] == if at <= k < at + i then s[k - at] else old(target[k])
    {
      target[at + i] := s[i];
    }
  }

  /** putCompressedScript on the slice target[at..]. */
  method PutCompressed(target: array<Byte>, at: nat, curve: Curve, script: Bytes) returns (written: nat)
    requires |script| + NUM_SPECIAL_SCRIPTS < TWO64
    requires at + |Compressed(curve, script)| <= target.Length
    modifies target
    ensures written == |Compressed(curve, script)|
    ensures Spliced(target[..], old(target[..]), at, Compressed(curve, script))
  {
    var special := Special(curve, script);
    if special.Some? {
      var (tag, data) := special.value;
      PutTagged(target, at, tag, data);
      return 1 + |data|;
    }
    ghost var header := Vlq.Encode(|script| + NUM_SPECIAL_SCRIPTS);
    var sizeLength := Vlq.Put(target, at, |script| + NUM_SPECIAL_SCRIPTS);
    ghost var mid := target[..];
    Copy(target, at + sizeLength, script);
    SplicedTwice(target[..], mid, old(target[..]), at, at + sizeLength, header, script);
    return sizeLength + |script|;
  }

  method PutTagged(target: array<Byte>, at: nat, tag: Byte, data: Bytes)
    requires at + 1 + |data| <= target.Length
    modifies target
    ensures Spliced(target[..], old(target[..]), at, [tag] + data)
  {
    target[at] := tag;
    ghost var mid := target[..];
    Copy(target, at + 1, data);
    SplicedTwice(target[..], mid, old(target[..]), at, at + 1, [tag], data);
  }

  // ----- round trips -----

  /** The header of a compressed script is read whatever follows. */
  lemma FramedHeader(s: Bytes, rest: Bytes)
    requires Framed(s)
    ensures s != []
    ensures Vlq.Decode(s + rest) == (Vlq.Decode(s).0, Vlq.Decode(s).1 + rest)
  {
    var (n, data) := Vlq.Decode(s);
    Vlq.EncodeLength(n);
    Vlq.DecodeEncode(n, data + rest);
    Associative(Vlq.Encode(n), data, rest);
  }

  lemma SizeForExact(n: Uint64, bytesRead: nat)
    requires bytesRead > 0 && (n < NUM_SPECIAL_SCRIPTS ==> bytesRead == 1)
    requires bytesRead + DataLength(n) < TWO63
    ensures SizeFor(n, bytesRead) == bytesRead + DataLength(n)
  {
    SmallMod(bytesRead + DataLength(n));
  }

  /** The decoder finds the exact length of a compressed script at the front of other data. */
  lemma DecodeSizeExact(s: Bytes, rest: Bytes)
    requires Framed(s)
    ensures s != [] && DecodeSize(s + rest) == |s|
  {
    FramedHeader(s, rest);
    var n := Vlq.Decode(s).0;
    Vlq.EncodeLength(n);
    SizeForExact(n, |Vlq.Encode(n)|);
  }

  /** `s` is a special tag followed by the data that goes with it. */
  predicate Tagged(s: Bytes) {
    s != [] && s[0] < NUM_SPECIAL_SCRIPTS && |s| == 1 + DataLength(s[0])
  }

  lemma TaggedHeader(s: Bytes)
    requires Tagged(s)
    ensures Vlq.Decode(s) == (s[0], s[1..])
    ensures Framed(s)
  {
    assert s == Vlq.Encode(s[0]) + s[1..];
  }

  lemma SizedIsFramed(script: Bytes)
    requires |script| < TWO63 - 10
    ensures Framed(Sized(script))
    ensures Vlq.Decode(Sized(script)) == (|script| + NUM_SPECIAL_SCRIPTS, script)
  {
    var n := |script| + NUM_SPECIAL_SCRIPTS;
    Vlq.DecodeEncode(n, script);
    Vlq.SizeBound(n);
  }

  /** Every compressed script is framed, so its end can be found in a longer string. */
  lemma CompressedIsFramed(curve: Curve, script: Bytes)
    requires |script| < TWO63 - 10
    ensures Framed(Compressed(curve, script))
  {
    match Special(curve, script)
    case Some((tag, data)) => TaggedHeader([tag] + data);
    case None => SizedIsFramed(script);
  }

  lemma DecompressTagged(curve: Curve, s: Bytes)
    requires Tagged(s)
    ensures Framed(s)
    ensures Decompress(curve, s) == Expand(curve, s[0], s[1..])
  {
    TaggedHeader(s);
    TaggedData(s, s[0], s[1..]);
  }

  /** Both ways of cutting the data out give all of it. */
  lemma TaggedData(s: Bytes, n: nat, rest: Bytes)
    requires |s| == 1 + DataLength(n) && n < NUM_SPECIAL_SCRIPTS && rest == s[1..]
    ensures rest[..DataLength(n)] == rest
    ensures 4 <= n <= 5 ==> s[1..33] == rest
  {
  }

  lemma DecompressSized(curve: Curve, script: Bytes)
    requires |script| < TWO63 - 10
    ensures Framed(Sized(script))
    ensures Decompress(curve, Sized(script)) == Some(script)
  {
    SizedIsFramed(script);
    Vlq.EncodeLength(|script| + NUM_SPECIAL_SCRIPTS);
    assert script[..|script|] == script;
  }

  /** Decompression inverts compression for every script. */
  lemma DecompressCompressed(curve: Curve, script: Bytes)
    requires Lawful(curve) && |script| < TWO63 - 10
    ensures Framed(Compressed(curve, script))
    ensures Decompress(curve, Compressed(curve, script)) == Some(script)
  {
    match Special(curve, script)
    case Some((tag, data)) =>
      DecompressTagged(curve, [tag] + data);
      assert ([tag] + data)[1..] == data;
      ExpandSpecial(curve, script);
    case None =>
      DecompressSized(curve, script);
  }

  lemma ExpandSpecial(curve: Curve, script: Bytes)
    requires Lawful(curve) && Special(curve, script).Some?
    ensures Expand(curve, Special(curve, script).value.0, Special(curve, script).value.1) == Some(script)
  {
    if IsPubKeyHash(script) {
      PubKeyHashParts(script);
    } else if IsScriptHash(script) {
      ScriptHashParts(script);
    } else if IsCompressedPubKey(curve, script) {
      CompressedKeyParts(curve, script);
    } else {
      UncompressedKey(curve, script);
    }
  }

  lemma PubKeyHashParts(script: Bytes)
    requires IsPubKeyHash(script)
    ensures [OP_DUP, OP_HASH160, OP_DATA_20] + script[3..23] + [OP_EQUALVERIFY, OP_CHECKSIG] == script
  {
  }

  lemma ScriptHashParts(script: Bytes)
    requires IsScriptHash(script)
    ensures [OP_HASH160, OP_DATA_20] + script[2..22] + [OP_EQUAL] == script
  {
  }

  lemma CompressedKeyParts(curve: Curve, script: Bytes)
    requires IsCompressedPubKey(curve, script)
    ensures [OP_DATA_33, script[1]] + script[2..34] + [OP_CHECKSIG] == script
  {
  }

  lemma UncompressedKey(curve: Curve, script: Bytes)
    requires Lawful(curve) && IsUncompressedPubKey(curve, script)
    ensures ParsePubKey(curve, [0x02 + script[65] % 2] + script[2..34]).Some?
    ensures [OP_DATA_65] + SerializeUncompressed(ParsePubKey(curve, [0x02 + script[65] % 2] + script[2..34]).value)
      + [OP_CHECKSIG] == script
  {
    var key := script[1..66];
    CompressPoint(curve, key);
    assert key[64] == script[65];
    assert key[1..33] == script[2..34];
    assert [OP_DATA_65] + key + [OP_CHECKSIG] == script;
  }
}
