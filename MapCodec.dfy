/**
 * A concrete byte codec for the partial-result map, standing in for Java object
 * serialisation of a `TreeMap<byte[], byte[]>`: an entry count, then each key
 * and value as a length-prefixed byte string, lengths as unsigned base-128
 * varints.  Like `readObject`, the decoder reads one map and leaves any bytes
 * after it unread; it refuses input that does not hold a well-formed map.
 */
module MapCodec {
  import opened Bytes
  import opened Wrappers
  import opened SortedMap

  /** Unsigned LEB128: seven bits per byte, high bit set on all but the last. */
  function Varint(n: nat): (r: Bytes)
    ensures 1 <= |r|
    decreases n
  {
    if n < 128 then [n] else [n % 128 + 128] + Varint(n / 128)
  }

  /** Reads one varint, returning its value and the bytes after it. */
  function ReadVarint(b: Bytes): Option<(nat, Bytes)>
    decreases |b|
  {
    if b == [] then None
    else if b[0] < 128 then Some((b[0], b[1..]))
    else match ReadVarint(b[1..])
      case None => None
      case Some(r) => Some((b[0] - 128 + 128 * r.0, r.1))
  }

  /** Reads one length-prefixed byte string. */
  function ReadChunk(b: Bytes): Option<(Bytes, Bytes)>
  {
    match ReadVarint(b)
    case None => None
    case Some(r) => if r.0 <= |r.1| then Some((r.1[..r.0], r.1[r.0..])) else None
  }

  function EncodeEntries(s: seq<Entry>): Bytes
  {
    if s == [] then []
    else Varint(|s[0].key|) + s[0].key + Varint(|s[0].value|) + s[0].value + EncodeEntries(s[1..])
  }

  /** Reads `count` entries. */
  function ReadEntries(b: Bytes, count: nat): Option<(seq<Entry>, Bytes)>
    decreases count
  {
    if count == 0 then Some(([], b))
    else match ReadChunk(b)
      case None => None
      case Some(k) =>
        match ReadChunk(k.1)
        case None => None
        case Some(v) =>
          match ReadEntries(v.1, count - 1)
          case None => None
          case Some(rest) => Some(([Entry(k.0, v.0)] + rest.0, rest.1))
  }

  /** The serialised form of a map. */
  function EncodeMap(s: seq<Entry>): Bytes
  {
    Varint(|s|) + EncodeEntries(s)
  }

  /** Reads one map; an input that ends early, or whose keys are not strictly ascending, is refused. */
  function DecodeMap(b: Bytes): Result<seq<Entry>, JavaException>
  {
    match ReadVarint(b)
    case None => Err(IOError)
    case Some(c) =>
      match ReadEntries(c.1, c.0)
      case None => Err(IOError)
      case Some(r) => if IsTreeMap(r.0) then Ok(r.0) else Err(IOError)
  }

  // ---------------------------------------------------------------- lemmas

  lemma {:induction false} VarintRoundTrip(n: nat, rest: Bytes)
    ensures ReadVarint(Varint(n) + rest) == Some((n, rest))
    decreases n
  {
    var b := Varint(n) + rest;
    if n >= 128 {
      VarintRoundTrip(n / 128, rest);
      assert b[1..] == Varint(n / 128) + rest;
    } else {
      assert b[1..] == rest;
    }
  }

  lemma ChunkFrom(b: Bytes, x: Bytes, rest: Bytes)
    requires ReadVarint(b) == Some((|x|, x + rest))
    ensures ReadChunk(b) == Some((x, rest))
  {
    assert (x + rest)[..|x|] == x;
    assert (x + rest)[|x|..] == rest;
  }

  lemma ChunkRoundTrip(x: Bytes, rest: Bytes)
    ensures ReadChunk(Varint(|x|) + x + rest) == Some((x, rest))
  {
    var b := Varint(|x|) + x + rest;
    assert b == Varint(|x|) + (x + rest);
    VarintRoundTrip(|x|, x + rest);
    ChunkFrom(b, x, rest);
  }

  lemma {:induction false} EntriesRoundTrip(s: seq<Entry>, rest: Bytes)
    ensures ReadEntries(EncodeEntries(s) + rest, |s|) == Some((s, rest))
  {
    if s != [] {
      var k, v := s[0].key, s[0].value;
      var tail := EncodeEntries(s[1..]) + rest;
      assert EncodeEntries(s) + rest == Varint(|k|) + k + (Varint(|v|) + v + tail);
      ChunkRoundTrip(k, Varint(|v|) + v + tail);
      ChunkRoundTrip(v, tail);
      EntriesRoundTrip(s[1..], rest);
      assert ReadChunk(EncodeEntries(s) + rest) == Some((k, Varint(|v|) + v + tail));
      assert ReadChunk(Varint(|v|) + v + tail) == Some((v, tail));
      assert ReadEntries(tail, |s| - 1) == Some((s[1..], rest));
      assert [Entry(k, v)] + s[1..] == s;
    } else {
      assert EncodeEntries(s) + rest == rest;
    }
  }

  /** A well-formed map survives encoding and decoding, whatever follows it. */
  lemma MapRoundTrip(s: seq<Entry>, rest: Bytes)
    requires IsTreeMap(s)
    ensures DecodeMap(EncodeMap(s) + rest) == Ok(s)
  {
    var b := EncodeEntries(s) + rest;
    EntriesRoundTrip(s, rest);
    VarintRoundTrip(|s|, b);
    assert EncodeMap(s) + rest == Varint(|s|) + b;
    assert ReadVarint(EncodeMap(s) + rest) == Some((|s|, b));
  }

  /** Whatever the decoder accepts is a well-formed map. */
  lemma DecodedIsTreeMap(b: Bytes)
    ensures DecodeMap(b).Ok? ==> IsTreeMap(DecodeMap(b).value)
  {
  }
}
