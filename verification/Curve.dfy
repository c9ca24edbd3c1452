/**
 The part of the elliptic curve that script compression relies on (btcec/pubkey.go). The curve equation
 and the modular square root are parameters; `Lawful` is what the compression needs of them.
 */
module Curve {
  import opened Bytes

  /** Coordinates as 32-byte big-endian numbers. */
  datatype Point = Point(x: Bytes, y: Bytes)

  /** The curve equation, and the root of it with the given oddness (decompressPoint). */
  datatype Curve = Curve(onCurve: Point -> bool, solve: (Bytes, bool) -> Option<Bytes>)

  predicate IsOdd(y: Bytes)
    requires |y| == 32
  {
    y[31] % 2 == 1
  }

  /** Roots lie on the curve and have the requested oddness; x and the oddness of y determine y. */
  ghost predicate Lawful(curve: Curve) {
    && (forall x, odd :: |x| == 32 && curve.solve(x, odd).Some? ==>
          var y := curve.solve(x, odd).value;
          |y| == 32 && IsOdd(y) == odd && curve.onCurve(Point(x, y)))
    && (forall x, y :: |x| == |y| == 32 && curve.onCurve(Point(x, y)) ==>
          curve.solve(x, IsOdd(y)) == Some(y))
  }

  /** ParsePubKey: compressed (0x02, 0x03), uncompressed (0x04, 0x05) and hybrid (0x06, 0x07) keys. */
  function ParsePubKey(curve: Curve, key: Bytes): (r: Option<Point>) {
    if |key| == 65 then
      var format, odd := key[0] / 2 * 2, key[0] % 2 == 1;
      var p := Point(key[1..33], key[33..]);
      if format != 4 && format != 6 then None
      else if format == 6 && odd != IsOdd(p.y) then None
      else if curve.onCurve(p) then Some(p) else None
    else if |key| == 33 then
      if key[0] / 2 * 2 != 2 then None
      else
        var x := key[1..];
        match curve.solve(x, key[0] % 2 == 1)
        case None => None
        case Some(y) => if curve.onCurve(Point(x, y)) then Some(Point(x, y)) else None
    else None
  }

  function SerializeUncompressed(p: Point): (key: Bytes) {
    [0x04] + p.x + p.y
  }

  /** Dropping y and keeping only its oddness loses nothing. */
  lemma CompressPoint(curve: Curve, key: Bytes)
    requires Lawful(curve)
    requires |key| == 65 && key[0] == 0x04 && ParsePubKey(curve, key).Some?
    ensures ParsePubKey(curve, [0x02 + key[64] % 2] + key[1..33]) == ParsePubKey(curve, key)
    ensures SerializeUncompressed(ParsePubKey(curve, key).value) == key
  {
    var p := ParsePubKey(curve, key).value;
    var short := [0x02 + key[64] % 2] + key[1..33];
    assert short[1..] == p.x;
    assert p.y[31] == key[64];
  }
}
