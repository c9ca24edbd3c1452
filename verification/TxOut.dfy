/** Compressed transaction outputs (blockchain/compress.go): a compressed amount and a compressed script. */
module TxOut {
  import opened Bytes
  import Vlq
  import Amount
  import AmountOverflow
  import Script
  import opened Curve

  /** An output; when `compressed` is set, the amount and the script are already in compressed form. */
  datatype Output = Output(compressed: bool, amount: Int64, script: Bytes)

  datatype DecodeError = UnexpectedEnd | MissingVersion | MismatchedSize | FullySpent | Panic

  datatype Result<T> = Ok(value: T) | Err(error: DecodeError)

  /** The amount written for an output. */
  function StoredAmount(out: Output): (amount: Uint64) {
    if out.compressed then ToUint64(out.amount) else Amount.Compress(ToUint64(out.amount)) % TWO64
  }

  /** The script written for an output. */
  function StoredScript(curve: Curve, out: Output): (script: Bytes) {
    if out.compressed then out.script else Script.Compressed(curve, out.script)
  }

  /** The output as it is stored: the same output in compressed form. */
  function Stored(curve: Curve, out: Output): (r: Output) {
    Output(true, ToInt64(StoredAmount(out)), StoredScript(curve, out))
  }

  /** Scripts come from a slice or from an earlier decoding. */
  ghost predicate Storable(out: Output) {
    if out.compressed then Script.Framed(out.script) else |out.script| < TWO63 - 10
  }

  function Encode(curve: Curve, out: Output): (s: Bytes) {
    Vlq.Encode(StoredAmount(out)) + StoredScript(curve, out)
  }

  /** compressedTxOutSize. */
  method CompressedSize(curve: Curve, out: Output) returns (size: nat)
    requires Storable(out)
    ensures size == |Encode(curve, out)|
  {
    if out.compressed {
      size := Vlq.SerializeSize(ToUint64(out.amount));
      return size + |out.script|;
    }
    var amount := Amount.CompressTxOutAmount(ToUint64(out.amount));
    var amountSize := Vlq.SerializeSize(amount);
    var scriptSize := Script.CompressedSize(curve, out.script);
    return amountSize + scriptSize;
  }

  /** putCompressedTxOut on the slice target[at..]. */
  method Put(target: array<Byte>, at: nat, curve: Curve, out: Output) returns (written: nat)
    requires Storable(out)
    requires at + |Encode(curve, out)| <= target.Length
    modifies target
    ensures written == |Encode(curve, out)|
    ensures Spliced(target[..], old(target[..]), at, Encode(curve, out))
  {
    ghost var first := target[..];
    var amount := ToUint64(out.amount);
    if !out.compressed {
      amount := Amount.CompressTxOutAmount(amount);
    }
    var offset := Vlq.Put(target, at, amount);
    ghost var mid := target[..];
    var size := PutScript(target, at + offset, curve, out);
    SplicedTwice(target[..], mid, first, at, at + offset, Vlq.Encode(amount), StoredScript(curve, out));
    written := offset + size;
  }

  /** The same behind bytes that were just written. */
  method Append(target: array<Byte>, at: nat, curve: Curve, out: Output, ghost first: Bytes, ghost start: nat,
      ghost prefix: Bytes)
    returns (written: nat)
    requires Storable(out)
    requires at == start + |prefix| && Spliced(target[..], first, start, prefix)
    requires at + |Encode(curve, out)| <= target.Length
    modifies target
    ensures written == |Encode(curve, out)|
    ensures Spliced(target[..], first, start, prefix + Encode(curve, out))
  {
    ghost var mid := target[..];
    written := Put(target, at, curve, out);
    SplicedTwice(target[..], mid, first, start, at, prefix, Encode(curve, out));
  }

  /** A script that is already compressed is copied, any other is compressed. */
  method PutScript(target: array<Byte>, at: nat, curve: Curve, out: Output) returns (written: nat)
    requires Storable(out)
    requires at + |StoredScript(curve, out)| <= target.Length
    modifies target
    ensures written == |StoredScript(curve, out)|
    ensures Spliced(target[..], old(target[..]), at, StoredScript(curve, out))
  {
    if out.compressed {
      Script.Copy(target, at, out.script);
      return |out.script|;
    }
    written := Script.PutCompressed(target, at, curve, out.script);
  }

  /** decodeCompressedTxOut: the compressed amount, the compressed script and the bytes left unread. */
  function Decode(serialized: Bytes): (r: Result<(Uint64, Bytes, Bytes)>)
    ensures r.Ok? ==> |r.value.2| <= |serialized|
  {
    var (amount, rest) := Vlq.Decode(serialized);
    if rest == [] then Err(UnexpectedEnd)
    else
      var size := Script.DecodeSize(rest);
      if |rest| < size then Err(UnexpectedEnd)
      // a slice cannot be made with a negative length
      else if size < 0 then Err(Panic)
      else Ok((amount, rest[..size], rest[size..]))
  }

  lemma StoredIsFramed(curve: Curve, out: Output)
    requires Storable(out)
    ensures Script.Framed(StoredScript(curve, out))
  {
    if !out.compressed {
      Script.CompressedIsFramed(curve, out.script);
    }
  }

  lemma EncodeIsNonempty(curve: Curve, out: Output)
    ensures |Encode(curve, out)| > 0
  {
    Vlq.EncodeLength(StoredAmount(out));
  }

  /** An output is read back in compressed form, whatever follows it, and exactly its bytes are consumed. */
  lemma DecodeEncode(curve: Curve, out: Output, rest: Bytes)
    requires Storable(out)
    ensures Decode(Encode(curve, out) + rest) == Ok((StoredAmount(out), StoredScript(curve, out), rest))
  {
    var amount, script := StoredAmount(out), StoredScript(curve, out);
    StoredIsFramed(curve, out);
    Script.DecodeSizeExact(script, rest);
    Vlq.DecodeEncode(amount, script + rest);
    Associative(Vlq.Encode(amount), script, rest);
    TakeDrop(script, rest);
  }

  /** Storing a stored output again changes nothing. */
  lemma StoredTwice(curve: Curve, out: Output)
    ensures Stored(curve, Stored(curve, out)) == Stored(curve, out)
    ensures Encode(curve, Stored(curve, out)) == Encode(curve, out)
  {
  }

  /** maybeDecompress recovers the original script, and the amount exactly if its compressed form fits in 64 bits. */
  lemma DecompressStored(curve: Curve, out: Output)
    requires Lawful(curve) && !out.compressed && Storable(out)
    ensures var stored := Stored(curve, out);
      && Script.Framed(stored.script)
      && Script.Decompress(curve, stored.script) == Some(out.script)
      && (ToInt64(Amount.Decompress(ToUint64(stored.amount)) % TWO64) == out.amount
          <==> Amount.Compress(ToUint64(out.amount)) < TWO64)
  {
    var amount := ToUint64(out.amount);
    AmountOverflow.RecoveredIffFits(amount);
    assert ToUint64(ToInt64(StoredAmount(out))) == StoredAmount(out);
    assert Amount.Decompress(StoredAmount(out)) % TWO64 == AmountOverflow.Back(amount);
    Script.DecompressCompressed(curve, out.script);
  }
}
