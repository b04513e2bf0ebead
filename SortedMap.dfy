/**
 * The `TreeMap<byte[], byte[]>` that the aggregators keep, ordered by the key
 * comparator (assumed to be `Bytes.compareTo`).  A map is a sequence of entries
 * whose keys are strictly ascending; `Put`, `Remove`, `Get`, `PutAll`,
 * `FirstKey` and `LastKey` are the `TreeMap` operations the aggregators use.
 * Sequences sorted in the other direction (`SortedBy(false, _)`) are the
 * `descendingKeySet()` walk of a map.
 */
module SortedMap {
  import opened Bytes
  import opened Wrappers

  datatype Entry = Entry(key: Bytes, value: Bytes)

  /** Keys strictly increase along `s` in direction `asc`. */
  predicate SortedBy(asc: bool, s: seq<Entry>)
  {
    forall i, j :: 0 <= i < j < |s| ==> Before(asc, s[i].key, s[j].key)
  }

  /** A well-formed `TreeMap`: keys strictly ascending. */
  predicate IsTreeMap(s: seq<Entry>)
  {
    SortedBy(true, s)
  }

  function Keys(s: seq<Entry>): set<Bytes>
  {
    set e | e in s :: e.key
  }

  /** The finite map a sequence of entries denotes (the earliest entry wins). */
  function View(s: seq<Entry>): map<Bytes, Bytes>
  {
    if s == [] then map[] else View(s[1..])[s[0].key := s[0].value]
  }

  /** `TreeMap.put` in a map ordered by `asc`: a new key is inserted in order, an old one overwritten. */
  function Insert(asc: bool, s: seq<Entry>, k: Bytes, v: Bytes): seq<Entry>
  {
    if s == [] then [Entry(k, v)]
    else if s[0].key == k then [Entry(k, v)] + s[1..]
    else if Before(asc, k, s[0].key) then [Entry(k, v)] + s
    else [s[0]] + Insert(asc, s[1..], k, v)
  }

  function Put(s: seq<Entry>, k: Bytes, v: Bytes): seq<Entry>
  {
    Insert(true, s, k, v)
  }

  /** `TreeMap.remove`. */
  function Remove(s: seq<Entry>, k: Bytes): seq<Entry>
  {
    if s == [] then []
    else if s[0].key == k then Remove(s[1..], k)
    else [s[0]] + Remove(s[1..], k)
  }

  /** `TreeMap.get`; `None` is Java's null. */
  function Get(s: seq<Entry>, k: Bytes): Option<Bytes>
  {
    if s == [] then None
    else if s[0].key == k then Some(s[0].value)
    else Get(s[1..], k)
  }

  /** `TreeMap.putAll(b)` into `a`: every entry of `b`, in order, put into `a`. */
  function PutAll(a: seq<Entry>, b: seq<Entry>): seq<Entry>
    decreases |b|
  {
    if b == [] then a else PutAll(Put(a, b[0].key, b[0].value), b[1..])
  }

  /** `TreeMap.firstKey` and `lastKey`; both throw on an empty map. */
  function FirstKey(s: seq<Entry>): Result<Bytes, JavaException>
  {
    if s == [] then Err(NoSuchElement) else Ok(s[0].key)
  }

  function LastKey(s: seq<Entry>): Result<Bytes, JavaException>
  {
    if s == [] then Err(NoSuchElement) else Ok(s[|s| - 1].key)
  }

  function Reverse<T>(s: seq<T>): seq<T>
  {
    if s == [] then [] else Reverse(s[1..]) + [s[0]]
  }

  /** The entries in the order a walk over `keySet()` (asc) or `descendingKeySet()` meets them. */
  function Walk(asc: bool, s: seq<Entry>): seq<Entry>
  {
    if asc then s else Reverse(s)
  }

  // ---------------------------------------------------------------- lemmas

  lemma SortedTail(asc: bool, s: seq<Entry>)
    requires SortedBy(asc, s) && s != []
    ensures SortedBy(asc, s[1..])
    ensures forall e :: e in s[1..] ==> Before(asc, s[0].key, e.key)
  {
    forall e | e in s[1..] ensures Before(asc, s[0].key, e.key) {
      var j :| 0 <= j < |s[1..]| && s[1..][j] == e;
      assert s[j + 1] == e;
    }
  }

  lemma SortedCons(asc: bool, e: Entry, s: seq<Entry>)
    requires SortedBy(asc, s)
    requires forall x :: x in s ==> Before(asc, e.key, x.key)
    ensures SortedBy(asc, [e] + s)
  {
    var t := [e] + s;
    forall i, j | 0 <= i < j < |t| ensures Before(asc, t[i].key, t[j].key) {
      if i == 0 { assert t[j] == s[j - 1]; assert t[j] in s; }
      else { assert t[i] == s[i - 1] && t[j] == s[j - 1]; }
    }
  }

  lemma SortedSlice(asc: bool, s: seq<Entry>, lo: nat, hi: nat)
    requires SortedBy(asc, s) && lo <= hi <= |s|
    ensures SortedBy(asc, s[lo..hi])
  {
    var t := s[lo..hi];
    forall i, j | 0 <= i < j < |t| ensures Before(asc, t[i].key, t[j].key) {
      assert t[i] == s[lo + i] && t[j] == s[lo + j];
    }
  }

  /** Sorted sequences never repeat a key, so an entry is identified by its key. */
  lemma SortedKeyUnique(asc: bool, s: seq<Entry>, i: int, j: int)
    requires SortedBy(asc, s) && 0 <= i < |s| && 0 <= j < |s|
    requires s[i].key == s[j].key
    ensures i == j
  {
    if i < j { BeforeIrreflexive(asc, s[i].key); }
    if j < i { BeforeIrreflexive(asc, s[j].key); }
  }

  lemma KeysCons(e: Entry, s: seq<Entry>)
    ensures Keys([e] + s) == {e.key} + Keys(s)
  {
    assert forall x :: x in [e] + s <==> x == e || x in s;
  }

  lemma KeysTail(s: seq<Entry>)
    requires s != []
    ensures Keys(s) == {s[0].key} + Keys(s[1..])
  {
    assert s == [s[0]] + s[1..];
    KeysCons(s[0], s[1..]);
  }

  lemma {:induction false} InsertContents(asc: bool, s: seq<Entry>, k: Bytes, v: Bytes)
    requires SortedBy(asc, s)
    ensures SortedBy(asc, Insert(asc, s, k, v))
    ensures forall e :: e in Insert(asc, s, k, v) <==> e == Entry(k, v) || (e in s && e.key != k)
    ensures |Insert(asc, s, k, v)| == if k in Keys(s) then |s| else |s| + 1
  {
    if s == [] {
    } else {
      SortedTail(asc, s);
      KeysTail(s);
      var r := Insert(asc, s, k, v);
      if s[0].key == k {
        assert k !in Keys(s[1..]) by {
          if k in Keys(s[1..]) {
            var e :| e in s[1..] && e.key == k;
            BeforeIrreflexive(asc, k);
          }
        }
        assert forall e :: e in s <==> e == s[0] || e in s[1..] by { assert s == [s[0]] + s[1..]; }
        forall e | e in s[1..] ensures e.key != k { BeforeIrreflexive(asc, k); }
        SortedCons(asc, Entry(k, v), s[1..]);
        assert |Keys(s[1..])| <= |s[1..]| by { KeysCardinality(s[1..]); }
      } else if Before(asc, k, s[0].key) {
        forall e | e in s ensures Before(asc, k, e.key) {
          if e != s[0] {
            assert e in s[1..] by { assert s == [s[0]] + s[1..]; }
            BeforeTransitive(asc, k, s[0].key, e.key);
          }
        }
        assert s == [s[0]] + s[1..];
        SortedCons(asc, Entry(k, v), s);
        assert k !in Keys(s) by {
          if k in Keys(s) { var e :| e in s && e.key == k; BeforeIrreflexive(asc, k); }
        }
      } else {
        InsertContents(asc, s[1..], k, v);
        var t := Insert(asc, s[1..], k, v);
        BeforeTotal(asc, k, s[0].key);
        forall e | e in t ensures Before(asc, s[0].key, e.key) { }
        SortedCons(asc, s[0], t);
        assert forall e :: e in s <==> e == s[0] || e in s[1..] by { assert s == [s[0]] + s[1..]; }
      }
    }
  }

  lemma {:induction false} KeysCardinality(s: seq<Entry>)
    ensures |Keys(s)| <= |s|
  {
    if s != [] {
      KeysTail(s);
      KeysCardinality(s[1..]);
    }
  }

  lemma {:induction false} RemoveContents(asc: bool, s: seq<Entry>, k: Bytes)
    requires SortedBy(asc, s)
    ensures SortedBy(asc, Remove(s, k))
    ensures forall e :: e in Remove(s, k) <==> e in s && e.key != k
  {
    if s != [] {
      SortedTail(asc, s);
      RemoveContents(asc, s[1..], k);
      assert forall e :: e in s <==> e == s[0] || e in s[1..] by { assert s == [s[0]] + s[1..]; }
      if s[0].key != k {
        SortedCons(asc, s[0], Remove(s[1..], k));
      }
    }
  }

  /** Removing the last (first) key of a sorted map drops its last (first) entry. */
  lemma {:induction false} RemoveLast(asc: bool, s: seq<Entry>)
    requires SortedBy(asc, s) && s != []
    ensures Remove(s, s[|s| - 1].key) == s[..|s| - 1]
  {
    if |s| > 1 {
      var rest := s[1..];
      SortedTail(asc, s);
      assert rest[|rest| - 1] == s[|s| - 1];
      if s[0].key == s[|s| - 1].key { SortedKeyUnique(asc, s, 0, |s| - 1); }
      RemoveLast(asc, rest);
      assert s[..|s| - 1] == [s[0]] + rest[..|rest| - 1];
    }
  }

  lemma {:induction false} RemoveAbsent(s: seq<Entry>, k: Bytes)
    requires k !in Keys(s)
    ensures Remove(s, k) == s
  {
    if s != [] {
      KeysTail(s);
      RemoveAbsent(s[1..], k);
      assert s == [s[0]] + s[1..];
    }
  }

  lemma RemoveFirst(asc: bool, s: seq<Entry>)
    requires SortedBy(asc, s) && s != []
    ensures Remove(s, s[0].key) == s[1..]
  {
    SortedTail(asc, s);
    if s[0].key in Keys(s[1..]) {
      var e :| e in s[1..] && e.key == s[0].key;
      BeforeIrreflexive(asc, e.key);
    }
    RemoveAbsent(s[1..], s[0].key);
  }

  /** Two sequences sorted in the same direction with the same entries are equal. */
  lemma {:induction false} Unique(asc: bool, a: seq<Entry>, b: seq<Entry>)
    requires SortedBy(asc, a) && SortedBy(asc, b)
    requires forall e :: e in a <==> e in b
    ensures a == b
  {
    if a != [] {
      assert b != [] by { assert a[0] in b; }
      SortedTail(asc, a);
      SortedTail(asc, b);
      assert forall e :: e in a <==> e == a[0] || e in a[1..] by { assert a == [a[0]] + a[1..]; }
      assert forall e :: e in b <==> e == b[0] || e in b[1..] by { assert b == [b[0]] + b[1..]; }
      if a[0] != b[0] {
        assert a[0] in b[1..] by { assert a[0] in b; }
        assert b[0] in a[1..] by { assert b[0] in a; }
        BeforeAsymmetric(asc, a[0].key, b[0].key);
      }
      forall e | e in a[1..] ensures e in b[1..] {
        assert e in b;
        if e == b[0] { BeforeIrreflexive(asc, e.key); }
      }
      forall e | e in b[1..] ensures e in a[1..] {
        assert e in a;
        if e == a[0] { BeforeIrreflexive(asc, e.key); }
      }
      Unique(asc, a[1..], b[1..]);
      assert a == [a[0]] + a[1..];
      assert b == [b[0]] + b[1..];
    } else {
      MembersWitness(a, b);
    }
  }

  /** A sequence whose members all occur in `a` is empty when `a` is. */
  lemma MembersWitness<T>(a: seq<T>, b: seq<T>)
    requires forall e :: e in b ==> e in a
    ensures |b| > 0 ==> |a| > 0
  {
    if |b| > 0 { var x := b[0]; assert x in b; }
  }

  lemma {:induction false} PutAllContents(a: seq<Entry>, b: seq<Entry>)
    requires IsTreeMap(a) && IsTreeMap(b)
    ensures IsTreeMap(PutAll(a, b))
    ensures forall e :: e in PutAll(a, b) <==> e in b || (e in a && e.key !in Keys(b))
    decreases |b|
  {
    if b != [] {
      InsertContents(true, a, b[0].key, b[0].value);
      SortedTail(true, b);
      PutAllContents(Put(a, b[0].key, b[0].value), b[1..]);
      KeysTail(b);
      assert forall e :: e in b <==> e == b[0] || e in b[1..] by { assert b == [b[0]] + b[1..]; }
      forall e | e in b[1..] ensures e.key != b[0].key { BeforeIrreflexive(true, b[0].key); }
    }
  }

  lemma {:induction false} ReverseContents<T>(s: seq<T>)
    ensures |Reverse(s)| == |s|
    ensures forall i :: 0 <= i < |s| ==> Reverse(s)[i] == s[|s| - 1 - i]
    ensures forall x :: x in Reverse(s) <==> x in s
  {
    if s != [] {
      ReverseContents(s[1..]);
      assert forall x :: x in s <==> x == s[0] || x in s[1..] by { assert s == [s[0]] + s[1..]; }
    }
  }

  /** Walking a map yields the map's entries sorted in the walk direction. */
  lemma WalkSorted(asc: bool, s: seq<Entry>)
    requires IsTreeMap(s)
    ensures SortedBy(asc, Walk(asc, s))
    ensures forall e :: e in Walk(asc, s) <==> e in s
    ensures |Walk(asc, s)| == |s|
  {
    ReverseContents(s);
    if !asc {
      var r := Reverse(s);
      forall i, j | 0 <= i < j < |r| ensures Before(false, r[i].key, r[j].key) {
        assert r[i] == s[|s| - 1 - i] && r[j] == s[|s| - 1 - j];
      }
    }
  }

  /** `put` on the map is an ordered insert in the walk, whichever the direction. */
  lemma WalkPut(asc: bool, s: seq<Entry>, k: Bytes, v: Bytes)
    requires IsTreeMap(s)
    ensures IsTreeMap(Put(s, k, v))
    ensures Walk(asc, Put(s, k, v)) == Insert(asc, Walk(asc, s), k, v)
  {
    InsertContents(true, s, k, v);
    WalkSorted(asc, s);
    WalkSorted(asc, Put(s, k, v));
    InsertContents(asc, Walk(asc, s), k, v);
    Unique(asc, Walk(asc, Put(s, k, v)), Insert(asc, Walk(asc, s), k, v));
  }

  /** `get` on a sorted map finds the entry of that key. */
  lemma {:induction false} GetEntry(asc: bool, s: seq<Entry>, i: int)
    requires SortedBy(asc, s) && 0 <= i < |s|
    ensures Get(s, s[i].key) == Some(s[i].value)
  {
    if i > 0 {
      if s[0].key == s[i].key { SortedKeyUnique(asc, s, 0, i); }
      SortedTail(asc, s);
      GetEntry(asc, s[1..], i - 1);
    }
  }

  lemma {:induction false} ViewContents(asc: bool, s: seq<Entry>)
    requires SortedBy(asc, s)
    ensures View(s).Keys == Keys(s)
    ensures forall e :: e in s ==> View(s)[e.key] == e.value
  {
    if s != [] {
      SortedTail(asc, s);
      ViewContents(asc, s[1..]);
      KeysTail(s);
      assert forall e :: e in s <==> e == s[0] || e in s[1..] by { assert s == [s[0]] + s[1..]; }
      forall e | e in s[1..] ensures e.key != s[0].key { BeforeIrreflexive(asc, s[0].key); }
    }
  }

  /** Two sorted sequences with the same view are equal. */
  lemma ViewDetermines(asc: bool, a: seq<Entry>, b: seq<Entry>)
    requires SortedBy(asc, a) && SortedBy(asc, b) && View(a) == View(b)
    ensures a == b
  {
    ViewContents(asc, a);
    ViewContents(asc, b);
    forall e ensures e in a <==> e in b {
      if e in a { var f :| f in b && f.key == e.key; }
      if e in b { var f :| f in a && f.key == e.key; }
    }
    Unique(asc, a, b);
  }

  /** `TreeMap.put` as a map: the key now maps to the value, nothing else changes. */
  lemma PutView(s: seq<Entry>, k: Bytes, v: Bytes)
    requires IsTreeMap(s)
    ensures IsTreeMap(Put(s, k, v))
    ensures View(Put(s, k, v)) == View(s)[k := v]
    ensures |Put(s, k, v)| == if k in View(s) then |s| else |s| + 1
  {
    var t := Put(s, k, v);
    InsertContents(true, s, k, v);
    ViewContents(true, s);
    ViewContents(true, t);
    assert Entry(k, v) in t;
    forall x | x in View(s)[k := v] ensures x in View(t) && View(t)[x] == View(s)[k := v][x] {
      if x != k {
        var e :| e in s && e.key == x;
        assert e in t;
      }
    }
    forall x | x in View(t) ensures x in View(s)[k := v] {
      var e :| e in t && e.key == x;
    }
  }

  /** `TreeMap.remove` as a map. */
  lemma RemoveView(s: seq<Entry>, k: Bytes)
    requires IsTreeMap(s)
    ensures IsTreeMap(Remove(s, k))
    ensures View(Remove(s, k)) == View(s) - {k}
  {
    RemoveContents(true, s, k);
    ViewContents(true, s);
    ViewContents(true, Remove(s, k));
  }

  /** `TreeMap.putAll` as a map: the union, the argument winning on shared keys. */
  lemma PutAllView(a: seq<Entry>, b: seq<Entry>)
    requires IsTreeMap(a) && IsTreeMap(b)
    ensures IsTreeMap(PutAll(a, b))
    ensures View(PutAll(a, b)) == View(a) + View(b)
  {
    var u := PutAll(a, b);
    PutAllKeys(a, b);
    ViewContents(true, a);
    ViewContents(true, b);
    ViewContents(true, u);
    var m := View(a) + View(b);
    assert View(u).Keys == m.Keys;
    forall k | k in View(u) ensures View(u)[k] == m[k] {
      var e :| e in u && e.key == k;
      if e in b {
        assert View(b)[k] == e.value;
      } else {
        assert View(a)[k] == e.value && k !in View(b);
      }
    }
    SameMap(View(u), m);
  }

  lemma SameMap(m1: map<Bytes, Bytes>, m2: map<Bytes, Bytes>)
    requires m1.Keys == m2.Keys && forall k :: k in m1 ==> m1[k] == m2[k]
    ensures m1 == m2
  {
  }

  /** The keys of a `putAll` union are those of both maps. */
  lemma PutAllKeys(a: seq<Entry>, b: seq<Entry>)
    requires IsTreeMap(a) && IsTreeMap(b)
    ensures IsTreeMap(PutAll(a, b))
    ensures forall e :: e in PutAll(a, b) <==> e in b || (e in a && e.key !in Keys(b))
    ensures Keys(PutAll(a, b)) == Keys(a) + Keys(b)
  {
    var u := PutAll(a, b);
    PutAllContents(a, b);
    forall k | k in Keys(u) ensures k in Keys(a) + Keys(b) {
      var e :| e in u && e.key == k;
    }
    forall k | k in Keys(a) + Keys(b) ensures k in Keys(u) {
      if k in Keys(b) {
        var e :| e in b && e.key == k;
        assert e in u;
      } else {
        var e :| e in a && e.key == k;
        assert e in u;
      }
    }
  }
}
