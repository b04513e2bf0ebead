/**
 * Byte strings and the order on them.  A Java `byte` is stored here through its
 * unsigned value 0..255 (the value `b & 0xff`); `Signed` gives the Java value.
 * `Compare` is HBase's `Bytes.compareTo`: unsigned lexicographic comparison in
 * which a strict prefix is smaller.
 */
module Bytes {

  type byte = b: int | 0 <= b < 256

  type Bytes = seq<byte>

  /** The value Java sees for a stored byte. */
  function Signed(b: byte): (r: int)
    ensures -128 <= r < 128
    ensures r >= 0 <==> b < 128
    ensures r == b || r == b - 256
  {
    if b < 128 then b else b - 256
  }

  /** Java's narrowing cast `(byte) n`, as the Java value it produces. */
  function ToJavaByte(n: int): (r: int)
    ensures -128 <= r < 128
    ensures (r - n) % 256 == 0
    ensures -128 <= n < 128 ==> r == n
  {
    (n + 128) % 256 - 128
  }

  /** The stored (unsigned) form of a Java byte value. */
  function FromSigned(v: int): (b: byte)
    requires -128 <= v < 128
    ensures Signed(b) == v
  {
    if v < 0 then v + 256 else v
  }

  /** The byte a flag is written as: 1 for true, 0 for false. */
  function FlagByte(f: bool): (b: byte)
    ensures b == 1 <==> f
    ensures b != 0 <==> f
  {
    if f then 1 else 0
  }

  /** Narrowing a length to a byte never makes it larger, and keeps it only below 128. */
  lemma NarrowLength(n: int)
    requires n >= 0
    ensures ToJavaByte(n) <= n
    ensures ToJavaByte(n) == n <==> n < 128
  {
  }

  /** `Bytes.compareTo(a, b)`: the first differing unsigned byte decides, else the length. */
  function Compare(a: Bytes, b: Bytes): int
  {
    if a == [] || b == [] then |a| - |b|
    else if a[0] != b[0] then a[0] - b[0]
    else Compare(a[1..], b[1..])
  }

  /** `a` sorts strictly before `b` under `Bytes.compareTo`. */
  predicate Less(a: Bytes, b: Bytes)
  {
    Compare(a, b) < 0
  }

  /**
   * `a` is strictly more extreme than `b` for an aggregate walking in direction
   * `asc`: smaller when ascending, larger when descending.
   */
  predicate Before(asc: bool, a: Bytes, b: Bytes)
  {
    if asc then Less(a, b) else Less(b, a)
  }

  lemma {:induction false} CompareZero(a: Bytes, b: Bytes)
    ensures Compare(a, b) == 0 <==> a == b
  {
    if a != [] && b != [] && a[0] == b[0] {
      CompareZero(a[1..], b[1..]);
      assert a == [a[0]] + a[1..];
      assert b == [b[0]] + b[1..];
    }
  }

  lemma {:induction false} CompareAntisymmetric(a: Bytes, b: Bytes)
    ensures Compare(a, b) < 0 <==> Compare(b, a) > 0
  {
    if a != [] && b != [] && a[0] == b[0] {
      CompareAntisymmetric(a[1..], b[1..]);
    }
  }

  lemma {:induction false} LessTransitive(a: Bytes, b: Bytes, c: Bytes)
    requires Less(a, b) && Less(b, c)
    ensures Less(a, c)
  {
    if a != [] && b != [] && c != [] && a[0] == b[0] == c[0] {
      LessTransitive(a[1..], b[1..], c[1..]);
    }
  }

  /** The empty key sorts before every other key. */
  lemma EmptyIsLeast(b: Bytes)
    requires b != []
    ensures Less([], b)
  {
  }

  lemma LessIrreflexive(a: Bytes)
    ensures !Less(a, a)
  {
    CompareZero(a, a);
  }

  /** `Less` is a strict total order. */
  lemma LessTotal(a: Bytes, b: Bytes)
    ensures a == b || Less(a, b) || Less(b, a)
  {
    CompareZero(a, b);
    CompareAntisymmetric(a, b);
    CompareAntisymmetric(b, a);
  }

  lemma LessAsymmetric(a: Bytes, b: Bytes)
    ensures !(Less(a, b) && Less(b, a))
  {
    CompareAntisymmetric(a, b);
  }

  /** `Before` is a strict total order in either direction. */
  lemma BeforeIrreflexive(asc: bool, a: Bytes)
    ensures !Before(asc, a, a)
  {
    LessIrreflexive(a);
  }

  lemma BeforeAsymmetric(asc: bool, a: Bytes, b: Bytes)
    ensures !(Before(asc, a, b) && Before(asc, b, a))
  {
    LessAsymmetric(a, b);
  }

  lemma BeforeTotal(asc: bool, a: Bytes, b: Bytes)
    ensures a == b || Before(asc, a, b) || Before(asc, b, a)
  {
    LessTotal(a, b);
  }

  lemma BeforeTransitive(asc: bool, a: Bytes, b: Bytes, c: Bytes)
    requires Before(asc, a, b) && Before(asc, b, c)
    ensures Before(asc, a, c)
  {
    if asc { LessTransitive(a, b, c); } else { LessTransitive(c, b, a); }
  }
}
