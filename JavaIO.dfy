/**
 * The pieces of the Java runtime the wire formats are written with:
 * `System.arraycopy` into a byte array, and the in-memory byte streams
 * `ByteArrayOutputStream` and `ByteArrayInputStream`.
 */
module JavaIO {
  import opened Bytes
  import opened Wrappers

  /**
   * `System.arraycopy(src, srcPos, dest, destPos, length)`: throws when a range
   * falls outside either array, and otherwise overwrites exactly
   * `dest[destPos..destPos + length]`.
   */
  method ArrayCopy(src: Bytes, srcPos: int, dest: array<byte>, destPos: int, length: int)
    returns (thrown: Option<JavaException>)
    modifies dest
    ensures thrown.Some? <==>
      srcPos < 0 || destPos < 0 || length < 0 || srcPos + length > |src| || destPos + length > dest.Length
    ensures thrown.Some? ==> thrown == Some(ArrayIndexOutOfBounds) && dest[..] == old(dest[..])
    ensures thrown.None? ==>
      dest[..] == old(dest[..])[..destPos] + src[srcPos..srcPos + length] + old(dest[..])[destPos + length..]
  {
    if srcPos < 0 || destPos < 0 || length < 0 || srcPos + length > |src| || destPos + length > dest.Length {
      return Some(ArrayIndexOutOfBounds);
    }
    ghost var before := dest[..];
    var i := 0;
    while i < length
      invariant 0 <= i <= length
      invariant forall j :: 0 <= j < dest.Length ==>
        dest[j] == if destPos <= j < destPos + i then src[srcPos + j - destPos] else before[j]
    {
      dest[destPos + i] := src[srcPos + i];
      i := i + 1;
    }
    assert dest[..] == before[..destPos] + src[srcPos..srcPos + length] + before[destPos + length..];
    return None;
  }

  /** `ByteArrayOutputStream`: a growing buffer. */
  class ByteArrayOutputStream {
    var buf: Bytes

    constructor()
      ensures buf == []
    {
      buf := [];
    }

    /** `write(int b)`: appends the low eight bits of `b`. */
    method Write(b: int)
      modifies this
      ensures buf == old(buf) + [b % 256]
    {
      buf := buf + [b % 256];
    }

    /** `write(byte[] b)`: appends all of `b`. */
    method WriteAll(b: Bytes)
      modifies this
      ensures buf == old(buf) + b
    {
      buf := buf + b;
    }

    /** `toByteArray()`. */
    method ToByteArray() returns (r: Bytes)
      ensures r == buf
    {
      r := buf;
    }
  }

  /** `ByteArrayInputStream` over a fixed buffer, with its read position. */
  class ByteArrayInputStream {
    const buf: Bytes
    var pos: nat

    ghost predicate Valid()
      reads this
    {
      pos <= |buf|
    }

    constructor(b: Bytes)
      ensures Valid() && buf == b && pos == 0
    {
      buf := b;
      pos := 0;
    }

    /** The bytes not yet read. */
    function Remaining(): Bytes
      reads this
      requires Valid()
    {
      buf[pos..]
    }

    /** `read()`: the next byte as 0..255 and advance, or -1 at the end of the buffer. */
    method Read() returns (r: int)
      requires Valid()
      modifies this
      ensures Valid()
      ensures old(pos) < |buf| ==> r == buf[old(pos)] && pos == old(pos) + 1
      ensures old(pos) == |buf| ==> r == -1 && pos == old(pos)
    {
      if pos < |buf| {
        r := buf[pos];
        pos := pos + 1;
      } else {
        r := -1;
      }
    }

    /**
     * `read(byte[] a)` with a one-byte array: stores the next byte in `a[0]` and
     * returns 1, or returns -1 at the end and leaves `a` unchanged.
     */
    method ReadInto(a: array<byte>) returns (n: int)
      requires Valid() && a.Length == 1
      modifies this, a
      ensures Valid()
      ensures old(pos) < |buf| ==> n == 1 && a[0] == buf[old(pos)] && pos == old(pos) + 1
      ensures old(pos) == |buf| ==> n == -1 && a[0] == old(a[0]) && pos == old(pos)
    {
      if pos < |buf| {
        a[0] := buf[pos];
        pos := pos + 1;
        n := 1;
      } else {
        n := -1;
      }
    }
  }
}
