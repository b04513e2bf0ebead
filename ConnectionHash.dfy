/**
 * `ConnectionInfo.hashCode`, which combines the field hashes the way
 * `Arrays.hashCode` does: start from 1, then `31 * result + h` per field,
 * with 0 for a null field, all in wrapping 32-bit `int` arithmetic.
 *
 * As written, the last step hashes the keytab where the principal is meant,
 * so a connection with a principal but no keytab throws a
 * `NullPointerException`.  `HashCodeAsWritten` models the code as it stands;
 * `HashCode` is the intended definition.
 */
module ConnectionHash {
  import opened Wrappers
  import opened JavaLang
  import opened EmbeddedDriver

  const Modulus: int := 0x1_0000_0000

  /** An `int` result: `x` reduced to the 32-bit two's-complement range. */
  function Wrap(x: int): (r: Int32)
    ensures (r - x) % Modulus == 0
  {
    var u := (x - MinInt) % Modulus;
    assert x - MinInt == Modulus * ((x - MinInt) / Modulus) + u;
    u + MinInt
  }

  /** `String.hashCode`: `s[0] * 31^(n-1) + ... + s[n-1]` in `int` arithmetic. */
  function StringHash(s: string): Int32
  {
    if s == [] then 0 else Wrap(31 * StringHash(s[..|s| - 1]) + s[|s| - 1] as int)
  }

  /** The hash of a possibly-null string field. */
  function TextHash(o: Option<string>): Int32
  {
    if o.None? then 0 else StringHash(o.value)
  }

  /** The hash of the port: `Integer.hashCode` is the value itself. */
  function PortHash(p: Option<Int32>): Int32
  {
    if p.None? then 0 else p.value
  }

  /** One step of the combination. */
  function Mix(result: Int32, h: Int32): Int32
  {
    Wrap(31 * result + h)
  }

  /** `Arrays.hashCode` over element hashes, the reference for the combination. */
  function ListHash(hs: seq<Int32>): Int32
  {
    if hs == [] then 1 else Mix(ListHash(hs[..|hs| - 1]), hs[|hs| - 1])
  }

  /** The four steps before the last, which the code gets right. */
  function HashPrefix(c: ConnectionInfo): Int32
  {
    Mix(Mix(Mix(Mix(1, TextHash(c.quorum)), PortHash(c.port)), TextHash(c.rootNode)), TextHash(c.keytab))
  }

  /** `hashCode` as written: the fifth step tests the principal for null but hashes the keytab. */
  function HashCodeAsWritten(c: ConnectionInfo): (r: Result<Int32, JavaException>)
    ensures r.Err? ==> r.error == NullPointer
    ensures c.principal.None? || c.principal == c.keytab ==> r == Ok(HashCode(c))
  {
    if c.principal.None? then Ok(Mix(HashPrefix(c), 0))
    else if c.keytab.None? then Err(NullPointer)
    else Ok(Mix(HashPrefix(c), StringHash(c.keytab.value)))
  }

  /** `hashCode` as intended: the fifth step hashes the principal. */
  function HashCode(c: ConnectionInfo): (r: Int32)
    ensures r == ListHash([TextHash(c.quorum), PortHash(c.port), TextHash(c.rootNode), TextHash(c.keytab), TextHash(c.principal)])
  {
    var hs := [TextHash(c.quorum), PortHash(c.port), TextHash(c.rootNode), TextHash(c.keytab), TextHash(c.principal)];
    assert ListHash(hs[..1]) == Mix(1, hs[0]) by { assert hs[..1][..0] == []; }
    assert ListHash(hs[..2]) == Mix(ListHash(hs[..1]), hs[1]) by { assert hs[..2][..1] == hs[..1]; }
    assert ListHash(hs[..3]) == Mix(ListHash(hs[..2]), hs[2]) by { assert hs[..3][..2] == hs[..2]; }
    assert ListHash(hs[..4]) == Mix(ListHash(hs[..3]), hs[3]) by { assert hs[..4][..3] == hs[..3]; }
    assert ListHash(hs) == Mix(ListHash(hs[..4]), hs[4]) by { assert hs[..4] == hs[..|hs| - 1]; }
    Mix(HashPrefix(c), TextHash(c.principal))
  }

  // ---------------------------------------------------------------- lemmas

  /** As written, `hashCode` throws exactly when there is a principal but no keytab. */
  lemma AsWrittenThrows(c: ConnectionInfo)
    ensures HashCodeAsWritten(c) == Err(NullPointer) <==> c.principal.Some? && c.keytab.None?
  {
  }

  /** A connection built with a principal and no keytab makes `hashCode` throw. */
  lemma AsWrittenExample()
    ensures HashCodeAsWritten(ConnectionInfo(Some("localhost"), None, None, None, Some("user"))) == Err(NullPointer)
  {
  }

  /** As written, the principal never reaches the hash: any two principals hash alike. */
  lemma AsWrittenIgnoresPrincipal(c: ConnectionInfo, p: string, p': string)
    requires c.keytab.Some?
    ensures HashCodeAsWritten(c.(principal := Some(p))) == HashCodeAsWritten(c.(principal := Some(p')))
  {
  }

  /** In the intended `hashCode` the principal counts: two principals hash the connection alike exactly when their own hashes agree. */
  lemma PrincipalCounts(c: ConnectionInfo, p: string, p': string)
    ensures HashCode(c.(principal := Some(p))) == HashCode(c.(principal := Some(p'))) <==> StringHash(p) == StringHash(p')
  {
    var c1, c2 := c.(principal := Some(p)), c.(principal := Some(p'));
    SamePrefix(c1, c2);
    assert HashCode(c1) == Mix(HashPrefix(c1), StringHash(p));
    assert HashCode(c2) == Mix(HashPrefix(c1), StringHash(p'));
    MixInjective(HashPrefix(c1), StringHash(p), StringHash(p'));
  }

  /** The first four steps see only the first four fields. */
  lemma SamePrefix(c: ConnectionInfo, d: ConnectionInfo)
    requires c.quorum == d.quorum && c.port == d.port && c.rootNode == d.rootNode && c.keytab == d.keytab
    ensures HashPrefix(c) == HashPrefix(d)
  {
  }

  /** One step of the combination keeps distinct hashes distinct. */
  lemma MixInjective(r: Int32, x: Int32, y: Int32)
    ensures Mix(r, x) == Mix(r, y) <==> x == y
  {
    if Mix(r, x) == Mix(r, y) {
      WrapInjective(31 * r, x, y);
    }
  }

  /** Adding a fixed amount and wrapping keeps distinct `int`s distinct. */
  lemma WrapInjective(k: int, x: Int32, y: Int32)
    requires Wrap(k + x) == Wrap(k + y)
    ensures x == y
  {
    var a, b := k + x - MinInt, k + y - MinInt;
    assert a == Modulus * (a / Modulus) + a % Modulus;
    assert b == Modulus * (b / Modulus) + b % Modulus;
    assert a % Modulus == b % Modulus;
    assert x - y == Modulus * (a / Modulus - b / Modulus);
  }
}
