/**
 * The single-extreme mode of FIRST_BY / LAST_BY (and FIRST/LAST_VALUE): both the
 * partition-local aggregator and the coordinator keep one (order, value) pair
 * and replace it when nothing is held yet (an empty order key) or when a new
 * key is strictly more extreme in the aggregate's direction.
 */
module SingleMode {
  import opened Bytes
  import opened Wrappers
  import opened SortedMap
  import opened TopK

  /** The pair an aggregator holds: `topOrder` and `topValue` (`None` is null). */
  datatype Pick = Pick(order: Bytes, value: Option<Bytes>)

  /** A fresh aggregator holds the empty order key and no value. */
  const Nothing := Pick([], None)

  /**
   * The test the aggregators write out with `BinaryComparator(topOrder).compareTo(current)`:
   * positive (ascending) or negative (descending) means the current key is better.
   */
  predicate Better(asc: bool, top: Bytes, cur: Bytes)
  {
    if asc then Compare(top, cur) > 0 else Compare(top, cur) < 0
  }

  /** The held pair is replaced when its order key is empty or the current key is better. */
  predicate Replaces(asc: bool, top: Bytes, cur: Bytes)
  {
    |top| < 1 || Better(asc, top, cur)
  }

  /** One aggregation step, stated by direction order. */
  function SingleStep(asc: bool, p: Pick, k: Bytes, v: Bytes): Pick
  {
    if p.order == [] || Before(asc, k, p.order) then Pick(k, Some(v)) else p
  }

  /** The pair held after the rows, in order, from a fresh aggregator. */
  function SingleFold(asc: bool, rows: seq<Entry>): Pick
  {
    if rows == [] then Nothing
    else SingleStep(asc, SingleFold(asc, rows[..|rows| - 1]), rows[|rows| - 1].key, rows[|rows| - 1].value)
  }

  predicate NonEmptyKeys(rows: seq<Entry>)
  {
    forall i :: 0 <= i < |rows| ==> rows[i].key != []
  }

  /** `e` is a row no other row beats. */
  predicate IsExtreme(asc: bool, rows: seq<Entry>, e: Entry)
  {
    e in rows && forall f :: f in rows ==> !Before(asc, f.key, e.key)
  }

  // ---------------------------------------------------------------- lemmas

  /** The comparator test is exactly "the current key comes before the held one". */
  lemma BetterIsBefore(asc: bool, top: Bytes, cur: Bytes)
    ensures Better(asc, top, cur) <==> Before(asc, cur, top)
  {
    CompareAntisymmetric(cur, top);
    CompareAntisymmetric(top, cur);
  }

  lemma ReplacesIsStep(asc: bool, p: Pick, k: Bytes, v: Bytes)
    ensures SingleStep(asc, p, k, v) == if Replaces(asc, p.order, k) then Pick(k, Some(v)) else p
  {
    BetterIsBefore(asc, p.order, k);
  }

  /** An empty held key means "nothing held": any next row replaces it. */
  lemma EmptyKeyResets(asc: bool, v0: Option<Bytes>, k: Bytes, v: Bytes)
    ensures SingleStep(asc, Pick([], v0), k, v) == Pick(k, Some(v))
  {
  }

  /** In ascending mode an empty order key beats every non-empty held key. */
  lemma EmptyKeyWinsAscending(top: Bytes, v0: Option<Bytes>, v: Bytes)
    ensures SingleStep(true, Pick(top, v0), [], v) == Pick([], Some(v))
  {
    if top != [] { EmptyIsLeast(top); }
  }

  /**
   * Ascending, an empty key is taken as the best key and then forgotten at the
   * next row: "b", "", "a" ends with "a" although "" is the smallest key.
   */
  lemma EmptyKeyForgotten()
    ensures SingleFold(true, [Entry([98], [1]), Entry([], [2]), Entry([97], [3])]) == Pick([97], Some([3]))
  {
    var rows := [Entry([98], [1]), Entry([], [2]), Entry([97], [3])];
    assert rows[..2] == [Entry([98], [1]), Entry([], [2])];
    assert rows[..2][..1] == [Entry([98], [1])];
    assert rows[..2][..1][..0] == [];
    EmptyIsLeast([98]);
  }

  /**
   * With non-empty keys the fold holds the first row of the most extreme key:
   * no row beats it and every earlier row is strictly worse.
   */
  lemma {:induction false} SingleFoldPicks(asc: bool, rows: seq<Entry>) returns (i: nat)
    requires rows != [] && NonEmptyKeys(rows)
    ensures i < |rows|
    ensures SingleFold(asc, rows) == Pick(rows[i].key, Some(rows[i].value))
    ensures forall j :: 0 <= j < |rows| ==> !Before(asc, rows[j].key, rows[i].key)
    ensures forall j :: 0 <= j < i ==> Before(asc, rows[i].key, rows[j].key)
  {
    var n := |rows| - 1;
    var pre := rows[..n];
    var x := rows[n];
    if n == 0 {
      i := 0;
      BeforeIrreflexive(asc, x.key);
    } else {
      assert NonEmptyKeys(pre) by {
        forall j | 0 <= j < |pre| ensures pre[j].key != [] { assert pre[j] == rows[j]; }
      }
      var q := SingleFoldPicks(asc, pre);
      assert pre[q] == rows[q];
      assert SingleFold(asc, rows) == SingleStep(asc, SingleFold(asc, pre), x.key, x.value);
      if Before(asc, x.key, rows[q].key) {
        i := n;
        forall j | 0 <= j < |rows| ensures !Before(asc, rows[j].key, x.key) {
          BeforeIrreflexive(asc, x.key);
          if j < n {
            assert pre[j] == rows[j];
            BeforeAsymmetric(asc, rows[j].key, rows[q].key);
            if Before(asc, rows[j].key, x.key) { BeforeTransitive(asc, rows[j].key, x.key, rows[q].key); }
          }
        }
        forall j | 0 <= j < n ensures Before(asc, x.key, rows[j].key) {
          assert pre[j] == rows[j];
          BeforeTotal(asc, rows[q].key, rows[j].key);
          if rows[q].key != rows[j].key { BeforeTransitive(asc, x.key, rows[q].key, rows[j].key); }
        }
      } else {
        i := q;
        forall j | 0 <= j < n ensures !Before(asc, rows[j].key, rows[q].key) { assert pre[j] == rows[j]; }
        forall j | 0 <= j < q ensures Before(asc, rows[q].key, rows[j].key) { assert pre[j] == rows[j]; }
      }
    }
  }

  /** With distinct keys there is only one extreme row. */
  lemma ExtremeUnique(asc: bool, rows: seq<Entry>, e: Entry, e': Entry)
    requires DistinctKeys(rows) && IsExtreme(asc, rows, e) && IsExtreme(asc, rows, e')
    ensures e == e'
  {
    BeforeTotal(asc, e.key, e'.key);
    var i :| 0 <= i < |rows| && rows[i] == e;
    var j :| 0 <= j < |rows| && rows[j] == e';
    assert e.key == e'.key;
  }

  /** With distinct non-empty keys the fold holds the unique extreme row. */
  lemma SingleFoldExtreme(asc: bool, rows: seq<Entry>, e: Entry)
    requires NonEmptyKeys(rows) && DistinctKeys(rows) && IsExtreme(asc, rows, e)
    ensures SingleFold(asc, rows) == Pick(e.key, Some(e.value))
  {
    var i := SingleFoldPicks(asc, rows);
    assert IsExtreme(asc, rows, rows[i]) by {
      forall f | f in rows ensures !Before(asc, f.key, rows[i].key) {
        var j :| 0 <= j < |rows| && rows[j] == f;
      }
    }
    ExtremeUnique(asc, rows, e, rows[i]);
  }

  /** With distinct non-empty keys the result does not depend on the order of the rows. */
  lemma SingleFoldOrderFree(asc: bool, a: seq<Entry>, b: seq<Entry>)
    requires NonEmptyKeys(a) && DistinctKeys(a) && NonEmptyKeys(b) && DistinctKeys(b)
    requires forall e :: e in a <==> e in b
    ensures SingleFold(asc, a) == SingleFold(asc, b)
  {
    if a != [] {
      var i := SingleFoldPicks(asc, a);
      var e := a[i];
      assert IsExtreme(asc, a, e) by {
        forall f | f in a ensures !Before(asc, f.key, e.key) {
          var j :| 0 <= j < |a| && a[j] == f;
        }
      }
      SingleFoldExtreme(asc, b, e);
    } else {
      MembersWitness(a, b);
    }
  }

  lemma FlattenMember(parts: seq<seq<Entry>>, f: Entry) returns (j: nat)
    requires f in Flatten(parts)
    ensures j < |parts| && f in parts[j]
  {
    var n := |parts| - 1;
    if f in parts[n] {
      j := n;
    } else {
      j := FlattenMember(parts[..n], f);
    }
  }

  lemma MemberFlatten(parts: seq<seq<Entry>>, j: nat, f: Entry)
    requires j < |parts| && f in parts[j]
    ensures f in Flatten(parts)
  {
    var n := |parts| - 1;
    if j < n {
      assert parts[..n][j] == parts[j];
      MemberFlatten(parts[..n], j, f);
    }
  }

  /**
   * The coordinator's single-mode merge of the partitions' picks gives the pair
   * the whole row set would, when order keys are distinct and non-empty.
   */
  lemma PartitionedSingle(asc: bool, parts: seq<seq<Entry>>, picks: seq<Entry>)
    requires |picks| == |parts| && NonEmptyKeys(Flatten(parts)) && DistinctKeys(Flatten(parts))
    requires forall i :: 0 <= i < |parts| ==> SingleFold(asc, parts[i]) == Pick(picks[i].key, Some(picks[i].value))
    ensures SingleFold(asc, picks) == SingleFold(asc, Flatten(parts))
  {
    var all := Flatten(parts);
    forall i | 0 <= i < |parts| ensures picks[i] in parts[i] && IsExtreme(asc, parts[i], picks[i]) {
      assert NonEmptyKeys(parts[i]) by {
        forall m | 0 <= m < |parts[i]| ensures parts[i][m].key != [] {
          MemberFlatten(parts, i, parts[i][m]);
          var t :| 0 <= t < |all| && all[t] == parts[i][m];
        }
      }
      assert parts[i] != [];
      var q := SingleFoldPicks(asc, parts[i]);
      assert parts[i][q] == picks[i];
      forall f | f in parts[i] ensures !Before(asc, f.key, picks[i].key) {
        var j :| 0 <= j < |parts[i]| && parts[i][j] == f;
      }
    }
    assert NonEmptyKeys(picks) by {
      forall i | 0 <= i < |picks| ensures picks[i].key != [] {
        MemberFlatten(parts, i, picks[i]);
        var t :| 0 <= t < |all| && all[t] == picks[i];
      }
    }
    if picks != [] {
      var q := SingleFoldPicks(asc, picks);
      var e := picks[q];
      MemberFlatten(parts, q, e);
      forall f | f in all ensures !Before(asc, f.key, e.key) {
        var j := FlattenMember(parts, f);
        assert !Before(asc, f.key, picks[j].key);
        assert !Before(asc, picks[j].key, e.key);
        BeforeTotal(asc, f.key, picks[j].key);
        if f.key != picks[j].key && Before(asc, f.key, e.key) {
          BeforeTransitive(asc, picks[j].key, f.key, e.key);
        }
      }
      SingleFoldExtreme(asc, all, e);
    } else {
      assert parts == [];
    }
  }
}
