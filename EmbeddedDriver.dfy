/**
 * The URL side of `PhoenixEmbeddedDriver`: which JDBC URLs the driver claims,
 * the `ConnectionInfo` value a URL describes (ZooKeeper quorum, port, root
 * node, Kerberos keytab and principal), how that value is printed, compared,
 * turned into properties and completed from the configuration, and the test
 * for the test-driver parameter.
 *
 * Java's `null` is `None`.  The `PhoenixRuntime` constants are fixed here as
 * `jdbc:phoenix`, `:`, `;`, `none` and `test=true`.
 */
module EmbeddedDriver {
  import opened Wrappers
  import opened JavaLang

  const Protocol: string := "jdbc:phoenix"
  const Separator: char := ':'
  const Terminator: char := ';'
  /** The suffix of the (unsupported) remote client's protocol. */
  const RemoteSuffix: string := "//"
  /** The quorum name of a connection that talks to no cluster. */
  const Connectionless: string := "none"
  const TestParam: string := "test=true"
  const TestUrlAtEnd: string := [Terminator] + TestParam
  const TestUrlInMiddle: string := TestUrlAtEnd + [Terminator]
  /** `DELIMITERS`, the terminator then the separator, as a string and as a set. */
  const Delimiters: string := [Terminator, Separator]
  const DelimiterSet: set<char> := {Terminator, Separator}

  /** The `SQLException` codes and runtime exceptions URL handling can raise. */
  datatype DriverError = MalformedConnectionUrl | StringIndexOutOfBounds

  /** The configuration keys `normalize` reads and `asProps` writes. */
  datatype PropKey = ZookeeperQuorum | ZookeeperPort | ZookeeperRootNode | ClientKeytab | ClientPrincipal

  /** `ReadOnlyProps`: a key is present with a value, or absent (`get` gives null). */
  type Props = map<PropKey, string>

  function Lookup(props: Props, k: PropKey): (r: Option<string>)
    ensures r.Some? <==> k in props
    ensures r.Some? ==> r.value == props[k]
  {
    if k in props then Some(props[k]) else None
  }

  // ------------------------------------------------------------ acceptsURL

  /** `acceptsURL`. */
  function AcceptsURL(url: string): (r: bool)
    ensures r ==> StartsWith(url, Protocol)
    ensures r && |url| > |Protocol| ==> url[|Protocol|] == Terminator || url[|Protocol|] == Separator
    ensures r ==> !StartsWith(url, Protocol + [Separator] + RemoteSuffix)
  {
    assert StartsWith(url, Protocol + [Separator] + RemoteSuffix) ==>
      url[|Protocol|] == Separator && StartsWithAt(url, RemoteSuffix, |Protocol| + 1) by {
      if StartsWith(url, Protocol + [Separator] + RemoteSuffix) {
        var full := Protocol + [Separator] + RemoteSuffix;
        assert url[..|full|] == full;
        assert url[|Protocol|] == full[|Protocol|];
        assert url[|Protocol| + 1..|Protocol| + 3] == full[|Protocol| + 1..];
      }
    }
    if StartsWith(url, Protocol) then
      if |url| == |Protocol| then true
      else if url[|Protocol|] == Terminator then true
      else if url[|Protocol|] == Separator then
        var protoLength := |Protocol| + 1;
        if |url| == protoLength then true
        else !StartsWithAt(url, RemoteSuffix, protoLength)
      else false
    else false
  }

  // ------------------------------------------------------------ isTestUrl

  /** `isTestUrl`: the test parameter ends the URL or is followed by another property. */
  predicate IsTestUrl(url: string)
    ensures IsTestUrl(url) ==> Terminator in url
  {
    var atEnd := EndsWith(url, TestUrlAtEnd);
    var inMiddle := Contains(url, TestUrlInMiddle);
    assert atEnd ==> Terminator in url by {
      if atEnd {
        assert url[|url| - |TestUrlAtEnd|] == TestUrlAtEnd[0];
      }
    }
    assert inMiddle ==> Terminator in url by {
      if inMiddle {
        ContainsHead(url, TestUrlInMiddle);
      }
    }
    atEnd || inMiddle
  }

  // ------------------------------------------------------------ ConnectionInfo

  /** `ConnectionInfo`, a value: all its fields are `final`. */
  datatype ConnectionInfo = ConnectionInfo(
    quorum: Option<string>, port: Option<Int32>, rootNode: Option<string>,
    keytab: Option<string>, principal: Option<string>)
  {
    /** `isConnectionless`, fixed by the constructor from the quorum. */
    predicate IsConnectionless()
    {
      quorum == Some(Connectionless)
    }

    /** `toString`: the quorum (`null` when absent), then each present field after a `:`. */
    function ToString(): (r: string)
      ensures StartsWith(r, QuorumText())
      ensures principal.Some? ==> EndsWith(r, [Separator] + principal.value)
      ensures port.None? && rootNode.None? && keytab.None? && principal.None? ==> r == QuorumText()
    {
      var t := QuorumText() + Shown(Field(ZookeeperPort)) + Shown(rootNode) + Shown(keytab) + Shown(principal);
      assert t[..|QuorumText()|] == QuorumText();
      t
    }

    /** How `toString` prints the quorum: `null` when absent. */
    function QuorumText(): string
    {
      if quorum.None? then "null" else quorum.value
    }

    /**
     * `equals`, field by field; `obj` is `None` for `null` or an object of
     * another class.
     */
    function Equals(obj: Option<ConnectionInfo>): (r: bool)
      ensures r <==> obj == Some(this)
    {
      obj.Some? &&
      var other := obj.value;
      SameText(quorum, other.quorum) &&
      (if port.None? then other.port.None? else other.port.Some? && port.value == other.port.value) &&
      SameText(rootNode, other.rootNode) &&
      SameText(keytab, other.keytab) &&
      SameText(principal, other.principal)
    }

    /** The text `asProps` stores under `k`, when the field is present. */
    function Field(k: PropKey): Option<string>
    {
      match k
      case ZookeeperQuorum => quorum
      case ZookeeperPort => if port.None? then None else Some(IntToString(port.value))
      case ZookeeperRootNode => rootNode
      case ClientKeytab => keytab
      case ClientPrincipal => principal
    }

    /** `asProps`: one entry per present field. */
    function AsProps(): (r: Props)
      ensures forall k :: k in r <==> Field(k).Some?
      ensures forall k :: k in r ==> r[k] == Field(k).value
    {
      var m0: Props := map[];
      var m1 := if quorum.None? then m0 else m0[ZookeeperQuorum := quorum.value];
      var m2 := if port.None? then m1 else m1[ZookeeperPort := IntToString(port.value)];
      var m3 := if rootNode.None? then m2 else m2[ZookeeperRootNode := rootNode.value];
      var m4 := if keytab.None? then m3 else m3[ClientKeytab := keytab.value];
      if principal.None? then m4 else m4[ClientPrincipal := principal.value]
    }
  }

  /** A field as `toString` prints it: nothing when null, else after a `:`. */
  function Shown(o: Option<string>): string
  {
    if o.None? then "" else [Separator] + o.value
  }

  /** `String.equals` between two possibly-null strings, as `equals` spells it out. */
  predicate SameText(a: Option<string>, b: Option<string>)
  {
    if a.None? then b.None? else b.Some? && a.value == b.value
  }

  /** The `ConnectionInfo` of a URL that names nothing. */
  const Unspecified := ConnectionInfo(None, None, None, None, None)

  // ------------------------------------------------------------ normalize

  /** A field left null is taken from the properties, unless the connection is connectionless. */
  function Inherit(own: Option<string>, connectionless: bool, props: Props, k: PropKey): Option<string>
  {
    if own.None? && !connectionless then Lookup(props, k) else own
  }

  /**
   * `normalize(props)`: missing fields come from the properties; no quorum
   * anywhere, an unparsable port property, or a port or root node on a
   * connectionless URL is malformed; an absent or empty keytab drops both the
   * keytab and the principal.
   */
  function Normalized(c: ConnectionInfo, props: Props): Result<ConnectionInfo, DriverError>
  {
    var conn := c.IsConnectionless();
    var quorum := if c.quorum.Some? then c.quorum else Lookup(props, ZookeeperQuorum);
    var inheritsPort := c.port.None? && !conn && ZookeeperPort in props;
    if quorum.None? then Err(MalformedConnectionUrl)
    else if inheritsPort && ParseInt(props[ZookeeperPort]).None? then Err(MalformedConnectionUrl)
    else if c.port.Some? && conn then Err(MalformedConnectionUrl)
    else if c.rootNode.Some? && conn then Err(MalformedConnectionUrl)
    else
      var port := if inheritsPort then ParseInt(props[ZookeeperPort]) else c.port;
      var rootNode := Inherit(c.rootNode, conn, props, ZookeeperRootNode);
      var keytab := Inherit(c.keytab, conn, props, ClientKeytab);
      var principal := Inherit(c.principal, conn, props, ClientPrincipal);
      if keytab.None? || keytab.value == "" then Ok(ConnectionInfo(quorum, port, rootNode, None, None))
      else Ok(ConnectionInfo(quorum, port, rootNode, keytab, principal))
  }

  /** `normalize`, reassigning its five locals as the source does. */
  method Normalize(c: ConnectionInfo, props: Props) returns (r: Result<ConnectionInfo, DriverError>)
    ensures r == Normalized(c, props)
  {
    var conn := c.IsConnectionless();
    var quorum, port, rootNode, keytab, principal := c.quorum, c.port, c.rootNode, c.keytab, c.principal;
    if quorum.None? {
      quorum := Lookup(props, ZookeeperQuorum);
      if quorum.None? {
        return Err(MalformedConnectionUrl);
      }
    }
    if port.None? {
      if !conn {
        var portStr := Lookup(props, ZookeeperPort);
        if portStr.Some? {
          port := ParseInt(portStr.value);
          if port.None? {
            return Err(MalformedConnectionUrl);
          }
        }
      }
    } else if conn {
      return Err(MalformedConnectionUrl);
    }
    if rootNode.None? {
      if !conn {
        rootNode := Lookup(props, ZookeeperRootNode);
      }
    } else if conn {
      return Err(MalformedConnectionUrl);
    }
    if keytab.None? {
      if !conn {
        keytab := Lookup(props, ClientKeytab);
      }
    }
    if principal.None? {
      if !conn {
        principal := Lookup(props, ClientPrincipal);
      }
    }
    if keytab.None? || keytab.value == "" {
      return Ok(ConnectionInfo(quorum, port, rootNode, None, None));
    }
    r := Ok(ConnectionInfo(quorum, port, rootNode, keytab, principal));
  }

  // ---------------------------------------------------------------- lemmas

  /** The URL forms the driver claims: a `;` or a `:` not followed by `//`, or nothing, after the protocol. */
  lemma AcceptedForms(rest: string)
    ensures AcceptsURL(Protocol)
    ensures AcceptsURL(Protocol + [Terminator] + rest)
    ensures AcceptsURL(Protocol + [Separator] + rest) <==> !StartsWith(rest, RemoteSuffix)
  {
    assert StartsWith(Protocol + [Terminator] + rest, Protocol) by {
      assert (Protocol + [Terminator] + rest)[..|Protocol|] == Protocol;
    }
    var u := Protocol + [Separator] + rest;
    assert u[..|Protocol|] == Protocol;
    assert u[|Protocol|] == Separator;
    if |rest| >= 2 {
      assert u[|Protocol| + 1..|Protocol| + 3] == rest[..2];
    }
  }

  /** Anything else is refused: another protocol, or another character after it. */
  lemma RejectedForms(url: string, c: char, rest: string)
    ensures !StartsWith(url, Protocol) ==> !AcceptsURL(url)
    ensures c != Terminator && c != Separator ==> !AcceptsURL(Protocol + [c] + rest)
  {
    assert (Protocol + [c] + rest)[|Protocol|] == c;
  }

  /** A substring's first character occurs in the string. */
  lemma {:induction false} ContainsHead(s: string, t: string)
    requires t != [] && Contains(s, t)
    ensures t[0] in s
    decreases |s|
  {
    if !StartsWith(s, t) {
      ContainsHead(s[1..], t);
      assert t[0] in s[1..];
      var j :| 0 <= j < |s[1..]| && s[1..][j] == t[0];
      assert s[j + 1] == t[0];
    } else {
      assert s[0] == t[0];
    }
  }

  /** The test parameter marks a test URL at the end and before another property. */
  lemma TestUrlForms(head: string, tail: string)
    ensures IsTestUrl(head + TestUrlAtEnd)
    ensures IsTestUrl(head + TestUrlInMiddle + tail)
  {
    var u := head + TestUrlAtEnd;
    assert u[|u| - |TestUrlAtEnd|..] == TestUrlAtEnd;
    var v := head + TestUrlInMiddle + tail;
    assert v[|head|..|head| + |TestUrlInMiddle|] == TestUrlInMiddle;
    ContainsAt(v, TestUrlInMiddle, |head|);
  }

  /** `normalize` fails exactly in its three malformed cases. */
  lemma NormalizeFails(c: ConnectionInfo, props: Props)
    ensures Normalized(c, props).Err? <==>
      (c.quorum.None? && ZookeeperQuorum !in props)
      || (!c.IsConnectionless() && c.port.None? && ZookeeperPort in props && ParseInt(props[ZookeeperPort]).None?)
      || (c.IsConnectionless() && (c.port.Some? || c.rootNode.Some?))
  {
  }

  /** What `normalize` returns has a quorum, and a principal only beside a non-empty keytab. */
  lemma NormalizedShape(c: ConnectionInfo, props: Props)
    requires Normalized(c, props).Ok?
    ensures var n := Normalized(c, props).value;
      n.quorum.Some? && (n.keytab.Some? ==> n.keytab.value != "") && (n.keytab.None? ==> n.principal.None?)
    ensures var n := Normalized(c, props).value;
      (c.quorum.Some? ==> n.quorum == c.quorum) && (c.port.Some? ==> n.port == c.port)
      && (c.rootNode.Some? ==> n.rootNode == c.rootNode)
  {
  }

  /**
   * Stating fields in the URL and inheriting them from the properties
   * normalize alike: a connection that is not connectionless normalizes as
   * the unspecified one does under the properties its own fields override.
   */
  lemma InheritedEqualsExplicit(c: ConnectionInfo, props: Props)
    requires !c.IsConnectionless()
    ensures Normalized(c, props) == Normalized(Unspecified, props + c.AsProps())
  {
    OverrideLookup(c, props, ZookeeperQuorum);
    OverrideLookup(c, props, ZookeeperPort);
    OverrideLookup(c, props, ZookeeperRootNode);
    OverrideLookup(c, props, ClientKeytab);
    OverrideLookup(c, props, ClientPrincipal);
    if c.port.Some? {
      ParseIntToString(c.port.value);
    }
  }

  /** A property overridden by a connection's own field reads as that field. */
  lemma OverrideLookup(c: ConnectionInfo, props: Props, k: PropKey)
    ensures Lookup(props + c.AsProps(), k) == if c.Field(k).Some? then c.Field(k) else Lookup(props, k)
  {
  }

  /** Normalizing twice changes nothing, when the quorum was given and the keytab was not given empty. */
  lemma NormalizeIdempotent(c: ConnectionInfo, props: Props)
    requires c.quorum.Some? && c.keytab != Some("")
    requires Normalized(c, props).Ok?
    ensures Normalized(Normalized(c, props).value, props) == Normalized(c, props)
  {
  }

  /**
   * Without its own quorum a connection inherits the port even when the
   * properties name the connectionless quorum, and the result then no longer
   * normalizes.
   */
  lemma InheritedConnectionless(props: Props)
    requires ZookeeperQuorum in props && props[ZookeeperQuorum] == Connectionless
    requires ZookeeperPort in props && ParseInt(props[ZookeeperPort]).Some?
    ensures Normalized(Unspecified, props).Ok? && Normalized(Unspecified, props).value.port.Some?
    ensures Normalized(Normalized(Unspecified, props).value, props).Err?
  {
  }
}
