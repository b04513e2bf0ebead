/**
 * `HexToBytesFunction` (`HEX_TO_BYTES`): turns a string of hex digit pairs
 * into bytes.  The string is cut into two-character pieces from the left, each
 * read with `Integer.parseInt(piece, 16)` and narrowed to a byte; a piece that
 * does not parse raises an illegal-data error naming the piece, and a last
 * piece of one character raises one naming the whole string.
 */
module HexToBytes {
  import opened Bytes
  import opened Wrappers
  import opened JavaLang

  /** The two `IllegalDataException`s, with the text their messages quote. */
  datatype HexError = InvalidHexValue(piece: string) | InvalidLength(input: string)

  /** The `m`-th two-character piece. */
  function Piece(s: string, m: nat): string
    requires 2 * m + 2 <= |s|
  {
    s[2 * m..2 * m + 2]
  }

  /** The pieces from position `i` on, decoded; the first failure wins. */
  function HexDecodeFrom(s: string, i: nat): Result<Bytes, HexError>
    decreases |s| - i
  {
    if i >= |s| then Ok([])
    else if i + 2 > |s| then Err(InvalidLength(s))
    else match ParseHexPair(s[i..i + 2])
      case None => Err(InvalidHexValue(s[i..i + 2]))
      case Some(v) => Prepend([v % 256], HexDecodeFrom(s, i + 2))
  }

  function Prepend(p: Bytes, r: Result<Bytes, HexError>): Result<Bytes, HexError>
  {
    match r
    case Ok(b) => Ok(p + b)
    case Err(e) => Err(e)
  }

  /** `evaluate` as a function: `None` when the child did not evaluate, the bytes otherwise. */
  function HexToBytesOf(child: Option<string>): Result<Option<Bytes>, HexError>
  {
    match child
    case None => Ok(None)
    case Some(s) =>
      match HexDecodeFrom(s, 0)
      case Ok(b) => Ok(Some(b))
      case Err(e) => Err(e)
  }

  /**
   * `evaluate`: `child` is the child expression's string, `None` when it did
   * not evaluate; an empty string is the null value and passes through.
   */
  method Evaluate(child: Option<string>) returns (r: Result<Option<Bytes>, HexError>)
    ensures r == HexToBytesOf(child)
  {
    if child.None? {
      return Ok(None);
    }
    var hexStr := child.value;
    if |hexStr| == 0 {
      return Ok(Some([]));
    }
    var out := new byte[|hexStr| / 2](_ => 0);
    var i := 0;
    PrependNothing(HexDecodeFrom(hexStr, 0));
    while i < |hexStr|
      invariant 0 <= i <= |hexStr| && i % 2 == 0
      invariant Prepend(out[..i / 2], HexDecodeFrom(hexStr, i)) == HexDecodeFrom(hexStr, 0)
      decreases |hexStr| - i
    {
      if i + 2 > |hexStr| {
        return Err(InvalidLength(hexStr));
      }
      var piece := hexStr[i..i + 2];
      var v := ParseHexPair(piece);
      if v.None? {
        return Err(InvalidHexValue(piece));
      }
      ghost var before := out[..i / 2];
      ghost var rest := HexDecodeFrom(hexStr, i + 2);
      assert HexDecodeFrom(hexStr, i) == Prepend([v.value % 256], rest);
      PrependPrepend(before, [v.value % 256], rest);
      out[i / 2] := v.value % 256;
      assert out[..i / 2 + 1] == before + [v.value % 256];
      i := i + 2;
    }
    assert HexDecodeFrom(hexStr, i) == Ok([]);
    assert out[..i / 2] == out[..] == out[..] + [];
    return Ok(Some(out[..]));
  }

  // ---------------------------------------------------------------- lemmas

  lemma PrependNothing(r: Result<Bytes, HexError>)
    ensures Prepend([], r) == r
  {
    if r.Ok? {
      assert [] + r.value == r.value;
    }
  }

  lemma PrependPrepend(a: Bytes, b: Bytes, r: Result<Bytes, HexError>)
    ensures Prepend(a, Prepend(b, r)) == Prepend(a + b, r)
  {
    if r.Ok? {
      assert a + (b + r.value) == a + b + r.value;
    }
  }

  /** Every piece from position `i` on parses. */
  ghost predicate PiecesParse(s: string, i: nat)
  {
    forall m :: i <= 2 * m && 2 * m + 2 <= |s| ==> ParseHexPair(Piece(s, m)).Some?
  }

  lemma {:induction false} DecodeFromOk(s: string, i: nat)
    requires i % 2 == 0 && i <= |s|
    ensures HexDecodeFrom(s, i).Ok? <==> (|s| - i) % 2 == 0 && PiecesParse(s, i)
    ensures HexDecodeFrom(s, i).Ok? ==>
      |HexDecodeFrom(s, i).value| == (|s| - i) / 2 &&
      forall m :: i <= 2 * m && 2 * m + 2 <= |s| ==>
        HexDecodeFrom(s, i).value[m - i / 2] == ParseHexPair(Piece(s, m)).value % 256
    decreases |s| - i
  {
    if i + 2 <= |s| {
      assert Piece(s, i / 2) == s[i..i + 2];
      DecodeFromOk(s, i + 2);
      if ParseHexPair(s[i..i + 2]).Some? {
        forall m | i <= 2 * m && 2 * m + 2 <= |s| && m != i / 2 ensures i + 2 <= 2 * m { }
      }
    }
  }

  /**
   * `HEX_TO_BYTES(s)` succeeds exactly when `s` has even length and every piece
   * parses; then byte `m` is piece `m`'s value narrowed to a byte.
   */
  lemma HexDecodeOk(s: string)
    ensures HexDecodeFrom(s, 0).Ok? <==> |s| % 2 == 0 && PiecesParse(s, 0)
    ensures HexDecodeFrom(s, 0).Ok? ==>
      |HexDecodeFrom(s, 0).value| == |s| / 2 &&
      forall m :: 0 <= m && 2 * m + 2 <= |s| ==> HexDecodeFrom(s, 0).value[m] == ParseHexPair(Piece(s, m)).value % 256
  {
    DecodeFromOk(s, 0);
  }

  /** The first piece that does not parse is the one reported. */
  lemma {:induction false} FirstBadPiece(s: string, i: nat, m: nat)
    requires i % 2 == 0 && i <= 2 * m && 2 * m + 2 <= |s|
    requires ParseHexPair(Piece(s, m)).None?
    requires forall k :: i <= 2 * k < 2 * m ==> ParseHexPair(Piece(s, k)).Some?
    ensures HexDecodeFrom(s, i) == Err(InvalidHexValue(Piece(s, m)))
    decreases |s| - i
  {
    assert Piece(s, i / 2) == s[i..i + 2];
    if i < 2 * m {
      FirstBadPiece(s, i + 2, m);
    }
  }

  /** With every complete piece parsing, an odd length is reported on the whole string. */
  lemma {:induction false} OddLength(s: string, i: nat)
    requires i % 2 == 0 && i <= |s| && |s| % 2 == 1 && PiecesParse(s, i)
    ensures HexDecodeFrom(s, i) == Err(InvalidLength(s))
    decreases |s| - i
  {
    if i + 2 <= |s| {
      assert Piece(s, i / 2) == s[i..i + 2];
      OddLength(s, i + 2);
    }
  }

  /** Lower-case hex, two digits per byte: the inverse direction. */
  function HexEncode(b: Bytes): (s: string)
    ensures |s| == 2 * |b|
  {
    if b == [] then [] else [HexChar(b[0] / 16), HexChar(b[0] % 16)] + HexEncode(b[1..])
  }

  /** Piece `m` of the encoding spells byte `m`. */
  lemma {:induction false} EncodePieces(b: Bytes)
    ensures forall m :: 0 <= m < |b| ==> Piece(HexEncode(b), m) == [HexChar(b[m] / 16), HexChar(b[m] % 16)]
  {
    if b != [] {
      var s := HexEncode(b);
      var t := HexEncode(b[1..]);
      EncodePieces(b[1..]);
      assert s == [HexChar(b[0] / 16), HexChar(b[0] % 16)] + t;
      forall m | 1 <= m < |b| ensures Piece(s, m) == Piece(t, m - 1) {
        assert s[2 * m..2 * m + 2] == t[2 * (m - 1)..2 * (m - 1) + 2];
      }
    }
  }

  /** The two digits of a byte read back as the byte. */
  lemma PieceValue(x: byte)
    ensures ParseHexPair([HexChar(x / 16), HexChar(x % 16)]) == Some(x)
  {
    var p := [HexChar(x / 16), HexChar(x % 16)];
    assert HexDigit(p[0]) == Some(x / 16) && HexDigit(p[1]) == Some(x % 16);
    assert p[0] != '-' && p[0] != '+';
  }

  /** A string whose pieces spell the bytes of `b` decodes, from piece `i / 2` on, to the rest of `b`. */
  lemma {:induction false} DecodeSpelled(s: string, b: Bytes, i: nat)
    requires |s| == 2 * |b| && i % 2 == 0 && i <= |s|
    requires forall m :: 0 <= m < |b| ==> ParseHexPair(Piece(s, m)) == Some(b[m] as int)
    ensures HexDecodeFrom(s, i) == Ok(b[i / 2..])
    decreases |s| - i
  {
    if i < |s| {
      var m := i / 2;
      assert s[i..i + 2] == Piece(s, m);
      var x: int := b[m];
      assert x % 256 == x;
      DecodeSpelled(s, b, i + 2);
      assert (i + 2) / 2 == m + 1;
      assert [b[m]] + b[m + 1..] == b[m..];
    }
  }

  /** Every byte string survives hex encoding and `HEX_TO_BYTES`. */
  lemma HexRoundTrip(b: Bytes)
    ensures HexDecodeFrom(HexEncode(b), 0) == Ok(b)
  {
    var s := HexEncode(b);
    EncodePieces(b);
    forall m | 0 <= m < |b| ensures ParseHexPair(Piece(s, m)) == Some(b[m] as int) {
      PieceValue(b[m]);
    }
    DecodeSpelled(s, b, 0);
  }

  /** A sign counts as a digit of the piece: "-1" reads as -1, stored as the byte 0xff. */
  lemma SignedPiece()
    ensures HexDecodeFrom("-1", 0) == Ok([255])
    ensures HexDecodeFrom("+f", 0) == Ok([15])
  {
    assert "-1"[0..2] == "-1" && ParseHexPair("-1") == Some(-1);
    assert HexDecodeFrom("-1", 2) == Ok([]) && [255] + [] == [255];
    assert "+f"[0..2] == "+f" && ParseHexPair("+f") == Some(15);
    assert HexDecodeFrom("+f", 2) == Ok([]) && [15] + [] == [15];
  }

  /** Non-hex input fails on its first piece. */
  lemma NotHexExample()
    ensures HexDecodeFrom("zzxxuuyyzzxxuuyy", 0) == Err(InvalidHexValue("zz"))
  {
    assert "zzxxuuyyzzxxuuyy"[0..2] == "zz";
  }

  /** A one-character input fails on its length. */
  lemma OddExample()
    ensures HexDecodeFrom("8", 0) == Err(InvalidLength("8"))
  {
  }
}
