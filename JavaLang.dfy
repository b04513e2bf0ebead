/**
 * The pieces of `java.lang` and `java.util` the modelled code leans on: 32-bit
 * `int`, `Integer.parseInt` (radix 10 and radix 16), `Integer.toString`, the
 * big-endian `int` layout used by HBase's `Bytes.toBytes(int)` and by
 * `ByteBuffer.getInt`, the `String` tests `startsWith`, `endsWith` and
 * `contains`, and `StringTokenizer` with `returnDelims == true`.
 *
 * Only ASCII digits and letters are digits here (`Character.digit` also
 * accepts other Unicode digits).
 */
module JavaLang {
  import opened Bytes
  import opened Wrappers

  const MinInt: int := -0x8000_0000
  const MaxInt: int := 0x7fff_ffff

  /** A Java `int`. */
  type Int32 = x: int | MinInt <= x <= MaxInt

  // ------------------------------------------------------------ int <-> bytes

  /** `Bytes.toBytes(int)`: the two's-complement value, most significant byte first. */
  function IntToBytes(x: Int32): (r: Bytes)
    ensures |r| == 4
  {
    var u := x % 0x1_0000_0000;
    [u / 0x100_0000, u / 0x1_0000 % 0x100, u / 0x100 % 0x100, u % 0x100]
  }

  /** `ByteBuffer.wrap(b).getInt()` on four bytes: big-endian, two's complement. */
  function GetInt(b: Bytes): (r: Int32)
    requires |b| == 4
  {
    var u := b[0] as int * 0x100_0000 + b[1] as int * 0x1_0000 + b[2] as int * 0x100 + b[3] as int;
    if u <= MaxInt then u else u - 0x1_0000_0000
  }

  lemma Unsigned32(u: int)
    requires 0 <= u < 0x1_0000_0000
    ensures u / 0x100_0000 * 0x100_0000 + u / 0x1_0000 % 0x100 * 0x1_0000 + u / 0x100 % 0x100 * 0x100 + u % 0x100 == u
    ensures u / 0x100_0000 < 0x100
  {
    var a, b, c, d := u / 0x100_0000, u / 0x1_0000 % 0x100, u / 0x100 % 0x100, u % 0x100;
    assert u / 0x1_0000 == a * 0x100 + b;
    assert u / 0x100 == (u / 0x1_0000) * 0x100 + c;
    assert u == (u / 0x100) * 0x100 + d;
  }

  /** Every `int` survives `Bytes.toBytes` followed by `getInt`, negatives included. */
  lemma IntBytesRoundTrip(x: Int32)
    ensures GetInt(IntToBytes(x)) == x
  {
    var u := x % 0x1_0000_0000;
    Unsigned32(u);
    assert u == if x >= 0 then x else x + 0x1_0000_0000;
  }

  /** Four bytes survive `getInt` followed by `Bytes.toBytes`. */
  lemma BytesIntRoundTrip(b: Bytes)
    requires |b| == 4
    ensures IntToBytes(GetInt(b)) == b
  {
    var u := b[0] as int * 0x100_0000 + b[1] as int * 0x1_0000 + b[2] as int * 0x100 + b[3] as int;
    assert GetInt(b) % 0x1_0000_0000 == u;
    assert u / 0x100 == b[0] as int * 0x1_0000 + b[1] as int * 0x100 + b[2] as int;
    assert u / 0x1_0000 == b[0] as int * 0x100 + b[1] as int;
    assert u / 0x100_0000 == b[0];
  }

  // ------------------------------------------------------------ decimal numbers

  predicate IsDigit(c: char)
  {
    '0' <= c <= '9'
  }

  predicate AllDigits(s: string)
  {
    forall i :: 0 <= i < |s| ==> IsDigit(s[i])
  }

  /** The value of a string of decimal digits. */
  function DigitsValue(s: string): nat
    requires AllDigits(s)
  {
    if s == [] then 0 else DigitsValue(s[..|s| - 1]) * 10 + (s[|s| - 1] - '0') as int
  }

  /**
   * `Integer.parseInt(s)`: an optional `+` or `-`, then one or more decimal
   * digits, whose value must be a Java `int`; `None` is `NumberFormatException`.
   */
  function ParseInt(s: string): (r: Option<Int32>)
    ensures r.Some? ==> s != [] && (IsDigit(s[0]) || s[0] == '-' || s[0] == '+')
  {
    if s == [] then None
    else
      var neg := s[0] == '-';
      var digits := if s[0] == '-' || s[0] == '+' then s[1..] else s;
      if digits == [] || !AllDigits(digits) then None
      else
        var v := if neg then -(DigitsValue(digits) as int) else DigitsValue(digits);
        if MinInt <= v <= MaxInt then Some(v) else None
  }

  function DigitChar(d: int): (c: char)
    requires 0 <= d < 10
    ensures IsDigit(c)
  {
    ('0' as int + d) as char
  }

  /** The decimal digits of a natural number, without leading zeros. */
  function NatToString(n: nat): (s: string)
    ensures s != [] && AllDigits(s)
    decreases n
  {
    if n < 10 then [DigitChar(n)] else NatToString(n / 10) + [DigitChar(n % 10)]
  }

  /** `Integer.toString(x)`. */
  function IntToString(x: int): (s: string)
  {
    if x < 0 then "-" + NatToString(-(x as int)) else NatToString(x)
  }

  lemma {:induction false} NatToStringValue(n: nat)
    ensures DigitsValue(NatToString(n)) == n
    decreases n
  {
    var s := NatToString(n);
    if n >= 10 {
      NatToStringValue(n / 10);
      assert s[..|s| - 1] == NatToString(n / 10);
    }
  }

  /** `Integer.parseInt(Integer.toString(x)) == x` for every `int`. */
  lemma ParseIntToString(x: Int32)
    ensures ParseInt(IntToString(x)) == Some(x)
  {
    var s := IntToString(x);
    if x < 0 {
      var n: nat := -(x as int);
      var d := NatToString(n);
      NatToStringValue(n);
      assert s == "-" + d;
      assert s[0] == '-' && s[1..] == d;
    } else {
      NatToStringValue(x);
      assert IsDigit(s[0]);
    }
  }

  // ------------------------------------------------------------ radix 16

  /** `Character.digit(c, 16)` on ASCII characters. */
  function HexDigit(c: char): (r: Option<nat>)
    ensures r.Some? ==> r.value < 16
  {
    if '0' <= c <= '9' then Some((c - '0') as int)
    else if 'a' <= c <= 'f' then Some((c - 'a') as int + 10)
    else if 'A' <= c <= 'F' then Some((c - 'A') as int + 10)
    else None
  }

  /**
   * `Integer.parseInt(p, 16)` on a two-character string: either two hex digits,
   * or a sign (`+` or `-`) followed by one hex digit.
   */
  function ParseHexPair(p: string): (r: Option<int>)
    requires |p| == 2
    ensures r.Some? ==> -15 <= r.value <= 255
  {
    if p[0] == '-' || p[0] == '+' then
      match HexDigit(p[1])
      case None => None
      case Some(d) => Some(if p[0] == '-' then -(d as int) else d)
    else
      match HexDigit(p[0])
      case None => None
      case Some(hi) =>
        match HexDigit(p[1])
        case None => None
        case Some(lo) => Some(hi * 16 + lo)
  }

  /** The lower-case hex digit for 0..15. */
  function HexChar(d: int): (c: char)
    requires 0 <= d < 16
    ensures HexDigit(c) == Some(d)
  {
    if d < 10 then ('0' as int + d) as char else ('a' as int + d - 10) as char
  }

  // ------------------------------------------------------------ strings

  /** `s.startsWith(prefix, offset)`; false when `offset` is outside `s`. */
  predicate StartsWithAt(s: string, prefix: string, offset: int)
  {
    0 <= offset && offset + |prefix| <= |s| && s[offset..offset + |prefix|] == prefix
  }

  /** `s.startsWith(prefix)`. */
  predicate StartsWith(s: string, prefix: string)
  {
    StartsWithAt(s, prefix, 0)
  }

  /** `s.endsWith(suffix)`. */
  predicate EndsWith(s: string, suffix: string)
  {
    |suffix| <= |s| && s[|s| - |suffix|..] == suffix
  }

  /** `s.contains(t)`: `t` occurs at some position of `s`. */
  predicate Contains(s: string, t: string)
    decreases |s|
  {
    StartsWith(s, t) || (s != [] && Contains(s[1..], t))
  }

  lemma {:induction false} ContainsAt(s: string, t: string, i: int)
    requires 0 <= i && StartsWithAt(s, t, i)
    ensures Contains(s, t)
    decreases i
  {
    if i > 0 {
      assert s[1..][i - 1..i - 1 + |t|] == s[i..i + |t|];
      ContainsAt(s[1..], t, i - 1);
    }
  }

  // ------------------------------------------------------------ StringTokenizer

  /** The length of the run of non-delimiter characters at the start of `s`. */
  function RunLength(s: string, delims: set<char>): (n: nat)
    ensures n <= |s|
    ensures forall i :: 0 <= i < n ==> s[i] !in delims
    ensures n < |s| ==> s[n] in delims
  {
    if s == [] || s[0] in delims then 0 else 1 + RunLength(s[1..], delims)
  }

  /**
   * The tokens `new StringTokenizer(s, delims, true)` returns: every delimiter
   * character is a token of its own, every maximal run of other characters is
   * one token.
   */
  function Tokenize(s: string, delims: set<char>): (r: seq<string>)
    ensures forall i :: 0 <= i < |r| ==> r[i] != []
    decreases |s|
  {
    if s == [] then []
    else if s[0] in delims then [[s[0]]] + Tokenize(s[1..], delims)
    else
      var n := RunLength(s, delims);
      [s[..n]] + Tokenize(s[n..], delims)
  }

  /** Every token is a single delimiter or a run with no delimiter in it. */
  lemma {:induction false} TokenShape(s: string, delims: set<char>)
    ensures forall i :: 0 <= i < |Tokenize(s, delims)| ==>
      var t := Tokenize(s, delims)[i];
      (|t| == 1 && t[0] in delims) || (forall j :: 0 <= j < |t| ==> t[j] !in delims)
    decreases |s|
  {
    if s != [] {
      if s[0] in delims {
        TokenShape(s[1..], delims);
      } else {
        TokenShape(s[RunLength(s, delims)..], delims);
      }
    }
  }

  /** Concatenating the tokens gives back the string. */
  lemma {:induction false} TokensJoin(s: string, delims: set<char>)
    ensures Join(Tokenize(s, delims)) == s
    decreases |s|
  {
    if s != [] {
      if s[0] in delims {
        TokensJoin(s[1..], delims);
        assert [s[0]] + s[1..] == s;
      } else {
        var n := RunLength(s, delims);
        TokensJoin(s[n..], delims);
        assert s[..n] + s[n..] == s;
      }
    }
  }

  function Join(ts: seq<string>): string
  {
    if ts == [] then [] else ts[0] + Join(ts[1..])
  }

  /** A delimiter, then a field free of delimiters, then the rest: two tokens, then the rest's tokens. */
  lemma TokenizeField(d: char, f: string, rest: string, delims: set<char>)
    requires d in delims && f != [] && (forall j :: 0 <= j < |f| ==> f[j] !in delims)
    requires rest == [] || rest[0] in delims
    ensures Tokenize([d] + f + rest, delims) == [[d], f] + Tokenize(rest, delims)
  {
    var s := [d] + f + rest;
    assert s[1..] == f + rest;
    RunPrefix(f, rest, delims);
    assert (f + rest)[..|f|] == f;
    assert (f + rest)[|f|..] == rest;
  }

  lemma {:induction false} RunPrefix(f: string, rest: string, delims: set<char>)
    requires (forall j :: 0 <= j < |f| ==> f[j] !in delims)
    requires rest == [] || rest[0] in delims
    ensures RunLength(f + rest, delims) == |f|
    decreases |f|
  {
    if f != [] {
      assert (f + rest)[1..] == f[1..] + rest;
      RunPrefix(f[1..], rest, delims);
    } else {
      assert f + rest == rest;
    }
  }
}
