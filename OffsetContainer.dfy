/**
 * The offset (NTH) wire format, `FirstByLastByOffsetDataContainer`:
 *
 *   byte 0      compression flag
 *   byte 1      ascending flag
 *   bytes 2..5  the offset, a big-endian `int`
 *   bytes 6..   the serialised partial-result map
 *
 * The reader takes any non-zero byte as a set flag, and so does it for the
 * missing byte of a short payload (`read()` gives -1 there); missing offset
 * bytes read as 0.  The map is written and read by `MapCodec`.
 */
module OffsetContainer {
  import opened Bytes
  import opened Wrappers
  import opened SortedMap
  import opened JavaIO
  import opened JavaLang
  import opened MapCodec

  /** What a reader recovers from a payload; `data` is the map or the exception reading it raised. */
  datatype Payload = Payload(compressed: bool, ascending: bool, offset: Int32, data: Result<seq<Entry>, JavaException>)

  /** `bis.read() != 0` at position `i`: true past the end, where `read()` gives -1. */
  predicate ReadFlag(p: Bytes, i: nat)
  {
    i >= |p| || p[i] != 0
  }

  /** The four bytes read one at a time into `foo`; a byte past the end stays 0. */
  function OffsetBytes(p: Bytes): (r: Bytes)
    ensures |r| == 4
    ensures forall i :: 0 <= i < 4 ==> r[i] == if 2 + i < |p| then p[2 + i] else 0
  {
    seq(4, i requires 0 <= i < 4 => if 2 + i < |p| then p[2 + i] else 0)
  }

  /** Where the reader stands after the six header reads. */
  function HeaderEnd(p: Bytes): (n: nat)
    ensures n <= |p|
  {
    if |p| < 6 then |p| else 6
  }

  /** `getPayload`: the two flags, the offset, then the map. */
  function EncodePayload(compressed: bool, ascending: bool, offset: Int32, data: seq<Entry>): (r: Bytes)
    ensures |r| >= 6 && r[0] == FlagByte(compressed) && r[1] == FlagByte(ascending)
    ensures r[2..6] == IntToBytes(offset) && r[6..] == EncodeMap(data)
  {
    [FlagByte(compressed), FlagByte(ascending)] + IntToBytes(offset) + EncodeMap(data)
  }

  /** `setPayload`, as a function of the payload. */
  function DecodePayload(p: Bytes): Payload
  {
    Payload(ReadFlag(p, 0), ReadFlag(p, 1), GetInt(OffsetBytes(p)), DecodeMap(p[HeaderEnd(p)..]))
  }

  class FirstByLastByOffsetDataContainer {
    var useCompression: bool
    var isAscending: bool
    var offset: Int32
    var data: seq<Entry>

    constructor()
      ensures !useCompression && !isAscending && offset == 0 && data == []
    {
      useCompression := false;
      isAscending := false;
      offset := 0;
      data := [];
    }

    method SetIsAscending(a: bool)
      modifies this
      ensures isAscending == a
      ensures useCompression == old(useCompression) && offset == old(offset) && data == old(data)
    {
      isAscending := a;
    }

    method SetOffset(o: Int32)
      modifies this
      ensures offset == o
      ensures useCompression == old(useCompression) && isAscending == old(isAscending) && data == old(data)
    {
      offset := o;
    }

    method SetData(d: seq<Entry>)
      modifies this
      ensures data == d
      ensures useCompression == old(useCompression) && isAscending == old(isAscending) && offset == old(offset)
    {
      data := d;
    }

    /** `getPayload`: writes the header and the map into a `ByteArrayOutputStream`. */
    method GetPayload() returns (r: Bytes)
      ensures r == EncodePayload(useCompression, isAscending, offset, data)
    {
      var bos := new ByteArrayOutputStream();
      bos.Write(FlagByte(useCompression));
      bos.Write(FlagByte(isAscending));
      bos.WriteAll(IntToBytes(offset));
      bos.WriteAll(EncodeMap(data));
      r := bos.ToByteArray();
    }

    /**
     * `setPayload`: the header fields are always set; the map is replaced only
     * when it reads back, and otherwise the exception is returned and `data`
     * keeps its old value.
     */
    method SetPayload(payload: Bytes) returns (thrown: Option<JavaException>)
      modifies this
      ensures var p := DecodePayload(payload);
        useCompression == p.compressed && isAscending == p.ascending && offset == p.offset
      ensures thrown.None? <==> DecodePayload(payload).data.Ok?
      ensures thrown.None? ==> data == DecodePayload(payload).data.value
      ensures thrown.Some? ==> thrown.value == DecodePayload(payload).data.error && data == old(data)
    {
      ghost var decoded := DecodePayload(payload);
      var bis := new ByteArrayInputStream(payload);
      var b := bis.Read();
      useCompression := b != 0;
      b := bis.Read();
      isAscending := b != 0;
      assert useCompression == decoded.compressed && isAscending == decoded.ascending;
      var foo := ReadOffsetBytes(bis);
      offset := GetInt(foo[..]);
      assert bis.Remaining() == payload[HeaderEnd(payload)..];
      var d := DecodeMap(bis.Remaining());
      assert d == decoded.data;
      if d.Err? {
        return Some(d.error);
      }
      data := d.value;
      thrown := None;
    }
  }

  /** The `for` loop of `setPayload`: four `read(a)` calls, each into a fresh one-byte array. */
  method ReadOffsetBytes(bis: ByteArrayInputStream) returns (foo: array<byte>)
    requires bis.Valid() && bis.pos == if 2 < |bis.buf| then 2 else |bis.buf|
    modifies bis
    ensures fresh(foo) && foo[..] == OffsetBytes(bis.buf)
    ensures bis.Valid() && bis.pos == HeaderEnd(bis.buf)
  {
    foo := new byte[4](_ => 0);
    var i := 0;
    while i < foo.Length
      modifies foo, bis
      invariant 0 <= i <= 4 && bis.Valid()
      invariant bis.pos == if 2 + i < |bis.buf| then 2 + i else |bis.buf|
      invariant forall j :: 0 <= j < i ==> foo[j] == OffsetBytes(bis.buf)[j]
    {
      var a := new byte[1](_ => 0);
      var n := bis.ReadInto(a);
      foo[i] := a[0];
      i := i + 1;
    }
  }

  // ---------------------------------------------------------------- lemmas

  /** A payload whose map is well formed reads back exactly, whatever follows it. */
  lemma PayloadRoundTrip(compressed: bool, ascending: bool, offset: Int32, data: seq<Entry>, rest: Bytes)
    requires IsTreeMap(data)
    ensures DecodePayload(EncodePayload(compressed, ascending, offset, data) + rest)
      == Payload(compressed, ascending, offset, Ok(data))
  {
    var p := EncodePayload(compressed, ascending, offset, data) + rest;
    assert OffsetBytes(p) == IntToBytes(offset);
    IntBytesRoundTrip(offset);
    assert p[6..] == EncodeMap(data) + rest;
    MapRoundTrip(data, rest);
  }

  /** Whatever map a payload yields is well formed. */
  lemma DecodedPayloadIsTreeMap(p: Bytes)
    ensures DecodePayload(p).data.Ok? ==> IsTreeMap(DecodePayload(p).data.value)
  {
    DecodedIsTreeMap(p[HeaderEnd(p)..]);
  }

  /** An empty payload sets both flags (end-of-stream reads as non-zero), offset 0, and fails on the map. */
  lemma EmptyPayload()
    ensures DecodePayload([]) == Payload(true, true, 0, Err(IOError))
  {
    assert OffsetBytes([]) == [0, 0, 0, 0];
  }

  /** Offset bytes missing from a short payload read as 0: `[0, 0, 0x7f]` has offset `0x7f000000`. */
  lemma TruncatedOffset()
    ensures DecodePayload([0, 0, 0x7f]).offset == 0x7f00_0000
    ensures !DecodePayload([0, 0, 0x7f]).compressed && DecodePayload([0, 0, 0x7f]).data == Err(IOError)
  {
    assert OffsetBytes([0, 0, 0x7f]) == [0x7f, 0, 0, 0];
  }
}
