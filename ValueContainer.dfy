/**
 * The single-extreme wire format (`FirstLastValueDataContainer`, and by
 * assumption its FIRST_BY/LAST_BY twin `FirstByLastByDataContainer`):
 *
 *   byte 0        compression flag (1 when set)
 *   byte 1        ascending flag (1 when ascending)
 *   byte 2        length L of the order key, as a signed byte
 *   bytes 3..     the L order-key bytes
 *   byte 3 + L    length V of the value, as a signed byte
 *   bytes 4 + L.. the V value bytes
 *
 * Lengths are single signed bytes, so keys and values longer than 127 bytes
 * do not fit; the writer then fails with the exception Java raises.
 */
module ValueContainer {
  import opened Bytes
  import opened Wrappers
  import opened JavaIO

  /** The four fields a container carries. */
  datatype ValueMessage = ValueMessage(compressed: bool, ascending: bool, order: Bytes, value: Bytes)

  /** What `getBytesMessage` produces for a container holding `m`. */
  function EncodeValueMessage(m: ValueMessage): (r: Result<Bytes, JavaException>)
    ensures r.Ok? <==> |m.order| <= 127 && |m.value| <= 127
    ensures r.Ok? ==> |r.value| == |m.order| + |m.value| + 4
  {
    if |m.order| <= 127 && |m.value| <= 127 then
      Ok([FlagByte(m.compressed), FlagByte(m.ascending), |m.order|] + m.order + [|m.value|] + m.value)
    else if ToJavaByte(|m.order|) + ToJavaByte(|m.value|) + 4 < 0 then
      Err(NegativeArraySize)
    else
      Err(ArrayIndexOutOfBounds)
  }

  /**
   * What `setBytesMessage` reads from `msg`: the flags are true only for the
   * byte 1, the lengths are signed bytes, a negative length fails the array
   * allocation (value first) and a message shorter than its lengths fails an
   * index check or the copy; bytes after the value are ignored.
   */
  function DecodeValueMessage(msg: Bytes): Result<ValueMessage, JavaException>
  {
    if |msg| < 3 then Err(ArrayIndexOutOfBounds)
    else
      var orderLength := Signed(msg[2]);
      if 3 + orderLength < 0 || 3 + orderLength >= |msg| then Err(ArrayIndexOutOfBounds)
      else
        var valueLength := Signed(msg[3 + orderLength]);
        if valueLength < 0 || orderLength < 0 then Err(NegativeArraySize)
        else if 4 + orderLength + valueLength > |msg| then Err(ArrayIndexOutOfBounds)
        else Ok(ValueMessage(msg[0] == 1, msg[1] == 1, msg[3..3 + orderLength], msg[4 + orderLength..4 + orderLength + valueLength]))
  }

  class FirstLastValueDataContainer {
    var useCompression: bool
    var order: Bytes
    var value: Bytes
    var isAscending: bool

    /** The container's fields as one value. */
    function Message(): ValueMessage
      reads this
    {
      ValueMessage(useCompression, isAscending, order, value)
    }

    constructor()
      ensures Message() == ValueMessage(false, false, [], [])
    {
      useCompression := false;
      order := [];
      value := [];
      isAscending := false;
    }

    method SetIsAscending(a: bool)
      modifies this
      ensures Message() == old(Message()).(ascending := a)
    {
      isAscending := a;
    }

    method SetCompression(c: bool)
      modifies this
      ensures Message() == old(Message()).(compressed := c)
    {
      useCompression := c;
    }

    /** `setOrdertValue` in the source. */
    method SetOrderValue(o: Bytes)
      modifies this
      ensures Message() == old(Message()).(order := o)
    {
      order := o;
    }

    method SetValue(v: Bytes)
      modifies this
      ensures Message() == old(Message()).(value := v)
    {
      value := v;
    }

    /** `getBytesMessage`: fills a buffer of `(byte) |order| + (byte) |value| + 4` bytes. */
    method GetBytesMessage() returns (r: Result<Bytes, JavaException>)
      ensures r == EncodeValueMessage(Message())
    {
      var ord, val, compressed, ascending := order, value, useCompression, isAscending;
      var sortLength := ToJavaByte(|ord|);
      var bytesValueLength := ToJavaByte(|val|);
      var n := sortLength + bytesValueLength + 4;
      ghost var fits := |ord| <= 127 && |val| <= 127;
      assert fits <==> 3 + |ord| < n && 4 + |ord| + |val| <= n by { Room(|ord|, |val|); }
      assert fits ==> sortLength == |ord| && bytesValueLength == |val| && n == |ord| + |val| + 4;
      ghost var expected := EncodeValueMessage(Message());
      assert !fits ==> expected == if n < 0 then Err(NegativeArraySize) else Err(ArrayIndexOutOfBounds);
      if n < 0 {
        return Err(NegativeArraySize);
      }
      var buffer := new byte[n](_ => 0);
      var thrown := WriteHeader(buffer, compressed, ascending, sortLength);
      if thrown.Some? { return Err(thrown.value); }
      thrown := WriteParts(buffer, ord, FromSigned(bytesValueLength), val);
      if thrown.Some? { return Err(thrown.value); }
      assert fits && FromSigned(sortLength) == |ord| && FromSigned(bytesValueLength) == |val|;
      assert buffer[..] == [FlagByte(compressed), FlagByte(ascending), |ord|] + ord + [|val|] + val;
      r := Ok(buffer[..]);
    }

    /**
     * `setBytesMessage`: reads the flags, the two lengths and copies the two
     * byte ranges into new arrays.
     */
    method SetBytesMessage(msg: Bytes) returns (thrown: Option<JavaException>)
      modifies this
      ensures thrown.None? <==> DecodeValueMessage(msg).Ok?
      ensures thrown.Some? ==> thrown.value == DecodeValueMessage(msg).error
      ensures thrown.None? ==> Message() == DecodeValueMessage(msg).value
      ensures useCompression == (|msg| > 0 && msg[0] == 1)
      ensures isAscending == if |msg| == 0 then old(isAscending) else |msg| > 1 && msg[1] == 1
      ensures |msg| < 3 ==> order == old(order) && value == old(value)
    {
      useCompression := false;
      if |msg| <= 0 { return Some(ArrayIndexOutOfBounds); }
      if msg[0] == 1 { useCompression := true; }
      isAscending := false;
      if |msg| <= 1 { return Some(ArrayIndexOutOfBounds); }
      if msg[1] == 1 { isAscending := true; }
      if |msg| <= 2 { return Some(ArrayIndexOutOfBounds); }
      var lengthOfSort := Signed(msg[2]);
      if 3 + lengthOfSort < 0 || 3 + lengthOfSort >= |msg| { return Some(ArrayIndexOutOfBounds); }
      var lengthOfValue := Signed(msg[3 + lengthOfSort]);
      if lengthOfValue < 0 { return Some(NegativeArraySize); }
      var v := new byte[lengthOfValue](_ => 0);
      value := v[..];
      if lengthOfSort < 0 { return Some(NegativeArraySize); }
      var o := new byte[lengthOfSort](_ => 0);
      order := o[..];
      thrown := CopyWhole(msg, 3, o);
      if thrown.Some? { return; }
      order := o[..];
      thrown := CopyWhole(msg, 4 + lengthOfSort, v);
      if thrown.Some? { return; }
      value := v[..];
      assert useCompression == (msg[0] == 1) && isAscending == (msg[1] == 1);
      assert DecodeValueMessage(msg) == Ok(ValueMessage(msg[0] == 1, msg[1] == 1, order, value));
    }
  }

  /**
   * The first three stores of `getBytesMessage`: a flag byte is written only
   * when its flag is set, then the order-key length; a buffer of fewer than
   * three bytes fails one of them.
   */
  method WriteHeader(buffer: array<byte>, compressed: bool, ascending: bool, sortLength: int)
    returns (thrown: Option<JavaException>)
    requires -128 <= sortLength < 128
    requires forall i :: 0 <= i < buffer.Length ==> buffer[i] == 0
    modifies buffer
    ensures thrown.Some? <==> buffer.Length <= 2
    ensures thrown.Some? ==> thrown.value == ArrayIndexOutOfBounds
    ensures thrown.None? ==>
      buffer[..] == [FlagByte(compressed), FlagByte(ascending), FromSigned(sortLength)] + old(buffer[..])[3..]
  {
    ghost var before := buffer[..];
    if compressed {
      if 0 >= buffer.Length { return Some(ArrayIndexOutOfBounds); }
      buffer[0] := 1;
    }
    if ascending {
      if 1 >= buffer.Length { return Some(ArrayIndexOutOfBounds); }
      buffer[1] := 1;
    }
    if 2 >= buffer.Length { return Some(ArrayIndexOutOfBounds); }
    buffer[2] := FromSigned(sortLength);
    assert buffer[..] == [FlagByte(compressed), FlagByte(ascending), FromSigned(sortLength)] + before[3..];
    return None;
  }

  /**
   * The rest of `getBytesMessage`: the order key from offset 3, the value
   * length byte `x` after it, then the value; each store fails when it runs
   * past the buffer.
   */
  method WriteParts(buffer: array<byte>, ord: Bytes, x: byte, val: Bytes) returns (thrown: Option<JavaException>)
    requires buffer.Length >= 3
    modifies buffer
    ensures thrown.Some? <==> !(3 + |ord| < buffer.Length && 4 + |ord| + |val| <= buffer.Length)
    ensures thrown.Some? ==> thrown.value == ArrayIndexOutOfBounds
    ensures thrown.None? ==>
      buffer[..] == old(buffer[..])[..3] + ord + [x] + val + old(buffer[..])[4 + |ord| + |val|..]
  {
    ghost var b0 := buffer[..];
    var offset := 3;
    thrown := ArrayCopy(ord, 0, buffer, offset, |ord|);
    if thrown.Some? { return; }
    ghost var c1 := buffer[..];
    offset := offset + |ord|;
    if offset >= buffer.Length { return Some(ArrayIndexOutOfBounds); }
    buffer[offset] := x;
    ghost var b1 := buffer[..];
    assert b1 == c1[offset := x];
    offset := offset + 1;
    thrown := ArrayCopy(val, 0, buffer, offset, |val|);
    if thrown.Some? { return; }
    Layout(b0, c1, b1, buffer[..], ord, val, x);
  }

  /** `System.arraycopy(src, pos, dest, 0, dest.length)`. */
  method CopyWhole(src: Bytes, pos: nat, dest: array<byte>) returns (thrown: Option<JavaException>)
    modifies dest
    ensures thrown.Some? <==> pos + dest.Length > |src|
    ensures thrown.Some? ==> thrown.value == ArrayIndexOutOfBounds
    ensures thrown.None? ==> dest[..] == src[pos..pos + dest.Length]
  {
    ghost var before := dest[..];
    thrown := ArrayCopy(src, pos, dest, 0, dest.Length);
    if thrown.None? {
      WholeCopy(before, dest[..], src, pos);
    }
  }

  // ---------------------------------------------------------------- lemmas

  /** The two copies and the length byte between them lay out the message. */
  lemma Layout(b0: Bytes, c1: Bytes, b1: Bytes, b2: Bytes, o: Bytes, v: Bytes, x: byte)
    requires |b0| >= |o| + |v| + 4
    requires c1 == b0[..3] + o[0..|o|] + b0[3 + |o|..]
    requires b1 == c1[3 + |o| := x]
    requires b2 == b1[..3 + |o| + 1] + v[0..|v|] + b1[3 + |o| + 1 + |v|..]
    ensures b2 == b0[..3] + o + [x] + v + b0[4 + |o| + |v|..]
  {
    assert o[0..|o|] == o && v[0..|v|] == v;
    assert b1[..4 + |o|] == b0[..3] + o + [x];
    assert b1[4 + |o| + |v|..] == b0[4 + |o| + |v|..];
  }

  /** A copy that fills its whole destination leaves exactly the copied range there. */
  lemma WholeCopy(before: Bytes, after: Bytes, src: Bytes, pos: nat)
    requires pos + |before| <= |src|
    requires after == before[..0] + src[pos..pos + |before|] + before[|before|..]
    ensures after == src[pos..pos + |before|]
  {
  }

  /** The buffer `getBytesMessage` allocates has room for both parts exactly when both lengths fit a byte. */
  lemma Room(o: nat, v: nat)
    ensures (o <= 127 && v <= 127) <==>
      3 + o < ToJavaByte(o) + ToJavaByte(v) + 4 && 4 + o + v <= ToJavaByte(o) + ToJavaByte(v) + 4
  {
    NarrowLength(o);
    NarrowLength(v);
  }

  /**
   * A container whose key and value fit survives writing and reading, whatever
   * bytes follow the message.
   */
  lemma ValueRoundTrip(m: ValueMessage, rest: Bytes)
    requires |m.order| <= 127 && |m.value| <= 127
    ensures DecodeValueMessage(EncodeValueMessage(m).value + rest) == Ok(m)
  {
    var msg := EncodeValueMessage(m).value + rest;
    var l := |m.order|;
    assert msg[2] == l;
    assert msg[3..3 + l] == m.order;
    assert msg[3 + l] == |m.value|;
    assert msg[4 + l..4 + l + |m.value|] == m.value;
  }

  /**
   * Reading then writing gives back the message up to its end, with each flag
   * byte normalised to 0 or 1.
   */
  lemma ValueReencode(msg: Bytes)
    requires DecodeValueMessage(msg).Ok?
    ensures var m := DecodeValueMessage(msg).value;
      EncodeValueMessage(m) == Ok([FlagByte(msg[0] == 1), FlagByte(msg[1] == 1)] + msg[2..4 + |m.order| + |m.value|])
  {
    var m := DecodeValueMessage(msg).value;
    var l, n := |m.order|, |m.value|;
    assert msg[2] == l && msg[3 + l] == n && l <= 127 && n <= 127 && 4 + l + n <= |msg| by {
      assert Signed(msg[2]) == l && Signed(msg[3 + l]) == n;
    }
    assert m.order == msg[3..3 + l] && m.value == msg[4 + l..4 + l + n];
    var f := [FlagByte(msg[0] == 1), FlagByte(msg[1] == 1)];
    assert EncodeValueMessage(m) == Ok([f[0], f[1], l] + m.order + [n] + m.value);
    SliceParts(msg, l, n);
    assert [f[0], f[1], l] + m.order + [n] + m.value == f + msg[2..4 + l + n];
  }

  /** The bytes from the order-key length to the end of the value, piece by piece. */
  lemma SliceParts(msg: Bytes, l: nat, n: nat)
    requires 4 + l + n <= |msg|
    ensures msg[2..4 + l + n] == [msg[2]] + msg[3..3 + l] + [msg[3 + l]] + msg[4 + l..4 + l + n]
  {
  }

  /** A flag byte other than 1, such as 2 or 255 (-1), reads as false. */
  lemma FlagOnlyOne(b0: byte, b1: byte)
    ensures DecodeValueMessage([b0, b1, 0, 0]) == Ok(ValueMessage(b0 == 1, b1 == 1, [], []))
  {
    var msg: Bytes := [b0, b1, 0, 0];
    assert msg[3..3] == [] && msg[4..4] == [];
  }

  /**
   * A message shorter than its declared lengths fails: either the value
   * length byte lies past the end, or the value runs past it.
   */
  lemma ShortMessage(msg: Bytes)
    requires |msg| >= 3 && 0 <= Signed(msg[2])
    requires 3 + Signed(msg[2]) >= |msg|
      || (0 <= Signed(msg[3 + Signed(msg[2])]) && 4 + Signed(msg[2]) + Signed(msg[3 + Signed(msg[2])]) > |msg|)
    ensures DecodeValueMessage(msg) == Err(ArrayIndexOutOfBounds)
  {
  }
}
