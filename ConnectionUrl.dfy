/**
 * `ConnectionInfo.create`: the URL after the protocol is cut into tokens by a
 * `StringTokenizer` that returns the delimiters `;` and `:` as tokens; up to
 * five fields are read, each after one delimiter, until a `;`; the fields are
 * then placed by the shape of the second one (a port number or a path).
 */
module ConnectionUrl {
  import opened Wrappers
  import opened JavaLang
  import opened EmbeddedDriver

  /** How the token loop ends: the fields read, the tokens left, the last token taken; or an empty field. */
  datatype Scanned = Stop(fields: seq<string>, remaining: seq<string>, last: Option<string>) | EmptyField

  /**
   * The token loop: take a token; stop at `;`, at the last token or with five
   * fields; otherwise the next token is a field, and a delimiter there is an
   * empty field.
   */
  function Scan(ts: seq<string>, fields: seq<string>, last: Option<string>): (r: Scanned)
    ensures |fields| <= 5 && r.Stop? ==> |r.fields| <= 5
    decreases |ts|
  {
    if ts == [] then Stop(fields, [], last)
    else if ts[0] == [Terminator] || |ts| == 1 || |fields| >= 5 then Stop(fields, ts[1..], Some(ts[0]))
    else if Contains(Delimiters, ts[1]) then EmptyField
    else Scan(ts[2..], fields + [ts[1]], Some(ts[1]))
  }

  /**
   * Where the fields go: a numeric second field is the port (negative is
   * malformed, and with four fields the third must name a `.keytab` file);
   * otherwise the second field must be a path and is the root node, or with
   * three fields the keytab; with five such fields the last is dropped.
   */
  function Assemble(f: seq<string>): Result<ConnectionInfo, DriverError>
    requires |f| <= 5
  {
    if |f| == 0 then Ok(Unspecified)
    else if |f| == 1 then Ok(ConnectionInfo(Some(f[0]), None, None, None, None))
    else match ParseInt(f[1])
      case Some(port) =>
        if port < 0 || (|f| == 4 && !EndsWith(f[2], ".keytab")) then Err(MalformedConnectionUrl)
        else if |f| == 2 then Ok(ConnectionInfo(Some(f[0]), Some(port), None, None, None))
        else if |f| == 3 then Ok(ConnectionInfo(Some(f[0]), Some(port), Some(f[2]), None, None))
        else if |f| == 4 then Ok(ConnectionInfo(Some(f[0]), Some(port), None, Some(f[2]), Some(f[3])))
        else Ok(ConnectionInfo(Some(f[0]), Some(port), Some(f[2]), Some(f[3]), Some(f[4])))
      case None =>
        if !StartsWith(f[1], "/") then Err(MalformedConnectionUrl)
        else if |f| == 2 then Ok(ConnectionInfo(Some(f[0]), None, Some(f[1]), None, None))
        else if |f| == 3 then Ok(ConnectionInfo(Some(f[0]), None, None, Some(f[1]), Some(f[2])))
        else Ok(ConnectionInfo(Some(f[0]), None, Some(f[1]), Some(f[2]), Some(f[3])))
  }

  /** The text after the protocol; `create` does not check what the protocol part says. */
  function AfterProtocol(url: Option<string>): string
    requires url.Some? ==> |url.value| >= |Protocol|
  {
    if url.None? then "" else url.value[|Protocol|..]
  }

  /**
   * `create(url)`: a URL shorter than the protocol fails the `substring`; a
   * token left over after the loop that did not stop at `;` is malformed.
   */
  function CreateSpec(url: Option<string>): Result<ConnectionInfo, DriverError>
  {
    if url.Some? && |url.value| < |Protocol| then Err(StringIndexOutOfBounds)
    else Finish(Scan(Tokenize(AfterProtocol(url), DelimiterSet), [], None))
  }

  /** After the loop: an empty field, or tokens left over without a `;`, are malformed. */
  function Finish(s: Scanned): Result<ConnectionInfo, DriverError>
    requires s.Stop? ==> |s.fields| <= 5
  {
    match s
    case EmptyField => Err(MalformedConnectionUrl)
    case Stop(fields, remaining, last) =>
      if remaining != [] && last != Some([Terminator]) then Err(MalformedConnectionUrl)
      else Assemble(fields)
  }

  /** `create`, with the tokenizer as a cursor `p` over its tokens and the fields in a five-slot array. */
  method Create(url: Option<string>) returns (r: Result<ConnectionInfo, DriverError>)
    ensures r == CreateSpec(url)
  {
    if url.Some? && |url.value| < |Protocol| {
      return Err(StringIndexOutOfBounds);
    }
    var ts := Tokenize(AfterProtocol(url), DelimiterSet);
    var p := 0;
    var i := 0;
    var isMalformedUrl := false;
    var tokens := new Option<string>[5](_ => None);
    var token: Option<string> := None;
    ghost var fields: seq<string> := [];
    while true
      invariant 0 <= p <= |ts| && i == |fields| <= 5
      invariant forall k :: 0 <= k < i ==> tokens[k] == Some(fields[k])
      invariant forall k :: i <= k < 5 ==> tokens[k] == None
      invariant Scan(ts[p..], fields, token) == Scan(ts, [], None)
      invariant !isMalformedUrl
      decreases |ts| - p
    {
      if p >= |ts| {
        break;
      }
      token := Some(ts[p]);
      p := p + 1;
      if ts[p - 1] == [Terminator] || p >= |ts| || i >= tokens.Length {
        break;
      }
      assert ts[p - 1..][2..] == ts[p + 1..];
      token := Some(ts[p]);
      p := p + 1;
      if Contains(Delimiters, ts[p - 1]) {
        isMalformedUrl := true;
        break;
      }
      tokens[i] := token;
      i := i + 1;
      fields := fields + [ts[p - 1]];
    }
    ghost var scanned := Scan(ts, [], None);
    assert isMalformedUrl <==> scanned.EmptyField?;
    assert !isMalformedUrl ==> scanned == Stop(fields, ts[p..], token);
    var port: Option<Int32> := None;
    if !isMalformedUrl {
      if p < |ts| && token != Some([Terminator]) {
        isMalformedUrl := true;
      } else if i > 1 {
        port, isMalformedUrl := PlaceFields(tokens, i, fields);
      }
    }
    if isMalformedUrl {
      return Err(MalformedConnectionUrl);
    }
    r := Ok(ConnectionInfo(tokens[0], port, tokens[2], tokens[3], tokens[4]));
  }

  /** The `try`/`catch` after the loop: parse the port, then shift the fields into place. */
  method PlaceFields(tokens: array<Option<string>>, i: nat, ghost fields: seq<string>)
    returns (port: Option<Int32>, isMalformedUrl: bool)
    requires tokens.Length == 5 && 1 < i == |fields| <= 5
    requires forall k :: 0 <= k < i ==> tokens[k] == Some(fields[k])
    requires forall k :: i <= k < 5 ==> tokens[k] == None
    modifies tokens
    ensures isMalformedUrl <==> Assemble(fields).Err?
    ensures !isMalformedUrl ==> Assemble(fields) == Ok(ConnectionInfo(tokens[0], port, tokens[2], tokens[3], tokens[4]))
  {
    port := ParseInt(tokens[1].value);
    isMalformedUrl := false;
    if port.Some? {
      isMalformedUrl := port.value < 0;
      if i == 4 {
        if !EndsWith(tokens[2].value, ".keytab") {
          isMalformedUrl := true;
        }
        tokens[4] := tokens[3];
        tokens[3] := tokens[2];
        tokens[2] := None;
      }
    } else {
      if !StartsWith(tokens[1].value, "/") {
        isMalformedUrl := true;
      }
      if i == 2 {
        tokens[4] := None;
        tokens[3] := None;
        tokens[2] := tokens[1];
        tokens[1] := None;
      } else if i == 3 {
        tokens[4] := tokens[2];
        tokens[3] := tokens[1];
        tokens[2] := None;
        tokens[1] := None;
      } else if i == 4 {
        tokens[4] := tokens[3];
        tokens[3] := tokens[2];
        tokens[2] := tokens[1];
        tokens[1] := None;
      } else if i == 5 {
        tokens[4] := tokens[3];
        tokens[3] := tokens[2];
        tokens[2] := tokens[1];
      }
    }
  }

  // ---------------------------------------------------------------- URL shapes

  /** A field as a URL spells it: non-empty, with no `;` or `:` in it. */
  predicate IsField(f: string)
  {
    f != [] && forall j :: 0 <= j < |f| ==> f[j] !in DelimiterSet
  }

  predicate AllFields(fs: seq<string>)
  {
    forall i :: 0 <= i < |fs| ==> IsField(fs[i])
  }

  /** The fields, each after a `:`. */
  function JoinFields(fs: seq<string>): string
  {
    if fs == [] then "" else [Separator] + fs[0] + JoinFields(fs[1..])
  }

  /** The tokens of `JoinFields(fs)`. */
  function Interleave(fs: seq<string>): seq<string>
  {
    if fs == [] then [] else [[Separator], fs[0]] + Interleave(fs[1..])
  }

  /** The fields `toString` prints after the quorum, in order. */
  function Fields(c: ConnectionInfo): seq<string>
    requires c.quorum.Some?
  {
    [c.quorum.value] + Listed(c.Field(ZookeeperPort)) + Listed(c.rootNode) + Listed(c.keytab) + Listed(c.principal)
  }

  function Listed(o: Option<string>): seq<string>
  {
    if o.None? then [] else [o.value]
  }

  /**
   * The connections `create` reads back from their own `toString`: every field
   * present is a field, the port is not negative, keytab and principal come
   * together, a keytab after a port alone names a `.keytab` file, and without
   * a port the field after the quorum is a path.
   */
  predicate RoundTrips(c: ConnectionInfo)
  {
    c.quorum.Some? && IsField(c.quorum.value)
    && (c.port.Some? ==> c.port.value >= 0)
    && (c.rootNode.Some? ==> IsField(c.rootNode.value))
    && (c.keytab.Some? ==> IsField(c.keytab.value))
    && (c.principal.Some? ==> IsField(c.principal.value))
    && (c.keytab.Some? <==> c.principal.Some?)
    && (c.port.Some? && c.rootNode.None? && c.keytab.Some? ==> EndsWith(c.keytab.value, ".keytab"))
    && (c.port.None? && c.rootNode.Some? ==> StartsWith(c.rootNode.value, "/"))
    && (c.port.None? && c.rootNode.None? && c.keytab.Some? ==> StartsWith(c.keytab.value, "/"))
  }

  // ---------------------------------------------------------------- lemmas

  /** The last field read, as the loop's `token` holds it. */
  function LastOf(fs: seq<string>): Option<string>
  {
    if fs == [] then None else Some(fs[|fs| - 1])
  }

  lemma NotDelimiter(f: string)
    requires IsField(f)
    ensures !Contains(Delimiters, f)
  {
    if Contains(Delimiters, f) {
      ContainsHead(Delimiters, f);
    }
  }

  lemma AllFieldsTail(fs: seq<string>)
    requires fs != [] && AllFields(fs)
    ensures IsField(fs[0]) && AllFields(fs[1..])
  {
    forall i | 0 <= i < |fs[1..]| ensures IsField(fs[1..][i]) {
      assert fs[1..][i] == fs[i + 1];
    }
  }

  lemma {:induction false} JoinAppend(a: seq<string>, b: seq<string>)
    ensures JoinFields(a + b) == JoinFields(a) + JoinFields(b)
    decreases |a|
  {
    if a == [] {
      assert a + b == b;
    } else {
      assert (a + b)[1..] == a[1..] + b;
      JoinAppend(a[1..], b);
    }
  }

  /** The tokenizer cuts joined fields back into delimiter and field tokens. */
  lemma {:induction false} TokenizeFields(fs: seq<string>, rest: string)
    requires AllFields(fs) && (rest == [] || rest[0] in DelimiterSet)
    ensures Tokenize(JoinFields(fs) + rest, DelimiterSet) == Interleave(fs) + Tokenize(rest, DelimiterSet)
    decreases |fs|
  {
    if fs == [] {
      assert JoinFields(fs) + rest == rest;
    } else {
      AllFieldsTail(fs);
      var tail := JoinFields(fs[1..]) + rest;
      var s := JoinFields(fs) + rest;
      assert s == [Separator] + fs[0] + tail;
      assert Tokenize(tail, DelimiterSet) == Interleave(fs[1..]) + Tokenize(rest, DelimiterSet) by {
        TokenizeFields(fs[1..], rest);
      }
      assert Tokenize(s, DelimiterSet) == [[Separator], fs[0]] + Tokenize(tail, DelimiterSet) by {
        assert tail == [] || tail[0] in DelimiterSet;
        TokenizeField(Separator, fs[0], tail, DelimiterSet);
      }
    }
  }

  /** The token loop reads the fields one by one while there is room for them. */
  lemma {:induction false} ScanFields(fs: seq<string>, acc: seq<string>, tail: seq<string>, last: Option<string>)
    requires AllFields(fs) && |acc| + |fs| <= 5
    ensures Scan(Interleave(fs) + tail, acc, last) == Scan(tail, acc + fs, if fs == [] then last else LastOf(fs))
    decreases |fs|
  {
    if fs == [] {
      assert Interleave(fs) + tail == tail && acc + fs == acc;
    } else {
      var ts := Interleave(fs) + tail;
      assert ts == [[Separator], fs[0]] + (Interleave(fs[1..]) + tail);
      assert ts[0] != [Terminator] by { assert ts[0][0] != Terminator; }
      AllFieldsTail(fs);
      NotDelimiter(fs[0]);
      assert ts[2..] == Interleave(fs[1..]) + tail;
      ScanFields(fs[1..], acc + [fs[0]], tail, Some(fs[0]));
      assert acc + [fs[0]] + fs[1..] == acc + fs;
    }
  }

  /** After the protocol and the fields, what follows decides. */
  lemma ReadFrom(fs: seq<string>, tail: string)
    requires AllFields(fs) && |fs| <= 5 && (tail == [] || tail[0] in DelimiterSet)
    ensures CreateSpec(Some(Protocol + JoinFields(fs) + tail))
      == Finish(Scan(Tokenize(tail, DelimiterSet), fs, LastOf(fs)))
  {
    var rest := JoinFields(fs) + tail;
    assert (Protocol + JoinFields(fs) + tail)[|Protocol|..] == rest;
    TokenizeFields(fs, tail);
    ScanFields(fs, [], Tokenize(tail, DelimiterSet), None);
    assert [] + fs == fs;
  }

  /** Up to five fields fill in as `Assemble` places them. */
  lemma CreateFields(fs: seq<string>)
    requires AllFields(fs) && |fs| <= 5
    ensures CreateSpec(Some(Protocol + JoinFields(fs))) == Assemble(fs)
  {
    ReadFrom(fs, "");
    assert Protocol + JoinFields(fs) + "" == Protocol + JoinFields(fs);
  }

  /** A lone `:` after the fields is accepted and ignored. */
  lemma TrailingSeparator(fs: seq<string>)
    requires AllFields(fs) && |fs| <= 5
    ensures CreateSpec(Some(Protocol + JoinFields(fs) + [Separator])) == Assemble(fs)
  {
    ReadFrom(fs, [Separator]);
    assert Tokenize([Separator], DelimiterSet) == [[Separator]];
  }

  /** A `;` ends the fields; the properties after it are not read. */
  lemma WithProperties(fs: seq<string>, props: string)
    requires AllFields(fs) && |fs| <= 5
    ensures CreateSpec(Some(Protocol + JoinFields(fs) + ([Terminator] + props))) == Assemble(fs)
  {
    var t := [Terminator] + props;
    ReadFrom(fs, t);
    assert t[1..] == props;
    assert Tokenize(t, DelimiterSet) == [[Terminator]] + Tokenize(props, DelimiterSet);
  }

  lemma ScanEmptyField(ts: seq<string>, fs: seq<string>, last: Option<string>)
    requires |ts| >= 2 && ts[0] == [Separator] && Contains(Delimiters, ts[1]) && |fs| < 5
    ensures Scan(ts, fs, last) == EmptyField
  {
    assert ts[0][0] != Terminator;
  }

  /** `DELIMITERS.contains` holds for a one-delimiter token. */
  lemma DelimiterToken(d: char)
    requires d in DelimiterSet
    ensures Contains(Delimiters, [d])
  {
    if d == Terminator {
      assert Delimiters[0..1] == [d];
      ContainsAt(Delimiters, [d], 0);
    } else {
      assert Delimiters[1..2] == [d];
      ContainsAt(Delimiters, [d], 1);
    }
  }

  lemma EmptyFieldScan(fs: seq<string>, d: char, rest: string)
    requires |fs| < 5 && d in DelimiterSet
    ensures Scan(Tokenize([Separator, d] + rest, DelimiterSet), fs, LastOf(fs)) == EmptyField
  {
    var t := [Separator, d] + rest;
    var ts := [[Separator], [d]] + Tokenize(rest, DelimiterSet);
    assert Tokenize(t, DelimiterSet) == ts by {
      assert t[1..] == [d] + rest && ([d] + rest)[1..] == rest;
    }
    DelimiterToken(d);
    ScanEmptyField(ts, fs, LastOf(fs));
  }

  /** A delimiter where a field should be is malformed. */
  lemma EmptyFieldMalformed(fs: seq<string>, d: char, rest: string)
    requires AllFields(fs) && |fs| < 5 && d in DelimiterSet
    ensures CreateSpec(Some(Protocol + JoinFields(fs) + ([Separator, d] + rest))) == Err(MalformedConnectionUrl)
  {
    var t := [Separator, d] + rest;
    EmptyFieldScan(fs, d, rest);
    ReadFrom(fs, t);
  }

  /** A sixth field is malformed. */
  lemma TooManyFields(fs: seq<string>, f: string, rest: string)
    requires AllFields(fs) && |fs| == 5 && IsField(f) && (rest == [] || rest[0] in DelimiterSet)
    ensures CreateSpec(Some(Protocol + JoinFields(fs) + ([Separator] + f + rest))) == Err(MalformedConnectionUrl)
  {
    var t := [Separator] + f + rest;
    ReadFrom(fs, t);
    TokenizeField(Separator, f, rest, DelimiterSet);
    var ts := [[Separator], f] + Tokenize(rest, DelimiterSet);
    assert Scan(ts, fs, LastOf(fs)) == Stop(fs, ts[1..], Some([Separator]));
    assert ts[1..] != [];
  }

  /** A negative port is malformed. */
  lemma NegativePortMalformed(fs: seq<string>)
    requires AllFields(fs) && 2 <= |fs| <= 5
    requires ParseInt(fs[1]).Some? && ParseInt(fs[1]).value < 0
    ensures CreateSpec(Some(Protocol + JoinFields(fs))) == Err(MalformedConnectionUrl)
  {
    CreateFields(fs);
  }

  /** With a port and two more fields, the first of them must name a `.keytab` file; they are keytab and principal. */
  lemma KeytabAfterPort(fs: seq<string>)
    requires AllFields(fs) && |fs| == 4
    requires ParseInt(fs[1]).Some? && ParseInt(fs[1]).value >= 0
    ensures CreateSpec(Some(Protocol + JoinFields(fs)))
      == if EndsWith(fs[2], ".keytab")
         then Ok(ConnectionInfo(Some(fs[0]), ParseInt(fs[1]), None, Some(fs[2]), Some(fs[3])))
         else Err(MalformedConnectionUrl)
  {
    CreateFields(fs);
  }

  /** A second field that is not a number must be a path; with five fields the last one is dropped. */
  lemma FifthFieldDropped(fs: seq<string>)
    requires AllFields(fs) && |fs| == 5 && ParseInt(fs[1]).None?
    ensures CreateSpec(Some(Protocol + JoinFields(fs)))
      == if StartsWith(fs[1], "/")
         then Ok(ConnectionInfo(Some(fs[0]), None, Some(fs[1]), Some(fs[2]), Some(fs[3])))
         else Err(MalformedConnectionUrl)
  {
    CreateFields(fs);
  }

  /** Only the length of the protocol part matters to `create`. */
  lemma PrefixNotChecked(a: string, b: string, rest: string)
    requires |a| == |b| == |Protocol|
    ensures CreateSpec(Some(a + rest)) == CreateSpec(Some(b + rest))
  {
    assert (a + rest)[|Protocol|..] == rest == (b + rest)[|Protocol|..];
  }

  /** Appending a listed field appends it as `toString` shows it. */
  lemma JoinListed(x: seq<string>, o: Option<string>)
    ensures JoinFields(x + Listed(o)) == JoinFields(x) + Shown(o)
  {
    JoinAppend(x, Listed(o));
    if o.Some? {
      assert Listed(o)[1..] == [];
    }
  }

  /** `toString` after the separator is the joined fields. */
  lemma ToStringFields(c: ConnectionInfo)
    requires c.quorum.Some?
    ensures [Separator] + c.ToString() == JoinFields(Fields(c))
  {
    var q := [c.quorum.value];
    var pt := c.Field(ZookeeperPort);
    var s0 := [Separator] + c.quorum.value;
    assert JoinFields(q) == s0 by { assert q[1..] == []; }
    JoinListed(q, pt);
    JoinListed(q + Listed(pt), c.rootNode);
    JoinListed(q + Listed(pt) + Listed(c.rootNode), c.keytab);
    JoinListed(q + Listed(pt) + Listed(c.rootNode) + Listed(c.keytab), c.principal);
    var t := c.quorum.value + Shown(pt) + Shown(c.rootNode) + Shown(c.keytab) + Shown(c.principal);
    assert c.QuorumText() == c.quorum.value;
    assert c.ToString() == t;
    assert [Separator] + t == s0 + Shown(pt) + Shown(c.rootNode) + Shown(c.keytab) + Shown(c.principal);
  }

  /** Decimal port text is a field: digits only. */
  lemma PortField(v: Int32)
    requires v >= 0
    ensures IsField(IntToString(v)) && ParseInt(IntToString(v)) == Some(v)
  {
    var s := IntToString(v);
    assert AllDigits(s);
    forall j | 0 <= j < |s| ensures s[j] !in DelimiterSet { assert IsDigit(s[j]); }
    ParseIntToString(v);
  }

  /** The fields of a connection that round-trips are placed back where they came from. */
  lemma AssembleFields(c: ConnectionInfo)
    requires RoundTrips(c)
    ensures AllFields(Fields(c)) && |Fields(c)| <= 5
    ensures Assemble(Fields(c)) == Ok(c)
  {
    if c.port.Some? {
      AssemblePorted(c);
    } else {
      AssembleUnported(c);
    }
  }

  lemma AssemblePorted(c: ConnectionInfo)
    requires RoundTrips(c) && c.port.Some?
    ensures AllFields(Fields(c)) && |Fields(c)| <= 5
    ensures Assemble(Fields(c)) == Ok(c)
  {
    var q := c.quorum.value;
    var pt := IntToString(c.port.value);
    PortField(c.port.value);
    if c.rootNode.Some? && c.keytab.Some? {
      Placed(c, [q, pt, c.rootNode.value, c.keytab.value, c.principal.value]);
    } else if c.rootNode.Some? {
      Placed(c, [q, pt, c.rootNode.value]);
    } else if c.keytab.Some? {
      Placed(c, [q, pt, c.keytab.value, c.principal.value]);
    } else {
      Placed(c, [q, pt]);
    }
  }

  lemma AssembleUnported(c: ConnectionInfo)
    requires RoundTrips(c) && c.port.None?
    ensures AllFields(Fields(c)) && |Fields(c)| <= 5
    ensures Assemble(Fields(c)) == Ok(c)
  {
    var q := c.quorum.value;
    if c.rootNode.Some? {
      var rn := c.rootNode.value;
      assert ParseInt(rn).None? by { assert rn[0] == '/'; }
      if c.keytab.Some? {
        Placed(c, [q, rn, c.keytab.value, c.principal.value]);
      } else {
        Placed(c, [q, rn]);
      }
    } else if c.keytab.Some? {
      var kt := c.keytab.value;
      assert ParseInt(kt).None? by { assert kt[0] == '/'; }
      Placed(c, [q, kt, c.principal.value]);
    } else {
      Placed(c, [q]);
    }
  }

  lemma Placed(c: ConnectionInfo, fs: seq<string>)
    requires c.quorum.Some? && Fields(c) == fs && |fs| <= 5
    requires forall i :: 0 <= i < |fs| ==> IsField(fs[i])
    requires Assemble(fs) == Ok(c)
    ensures AllFields(Fields(c)) && Assemble(Fields(c)) == Ok(c)
  {
  }

  /** `create` reads back what `toString` prints, after the protocol and the separator. */
  lemma CreateRoundTrip(c: ConnectionInfo)
    requires RoundTrips(c)
    ensures CreateSpec(Some(Protocol + ([Separator] + c.ToString()))) == Ok(c)
  {
    ToStringFields(c);
    AssembleFields(c);
    CreateFields(Fields(c));
  }
}
