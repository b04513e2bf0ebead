/**
 * The rank theory behind the offset (NTH) mode of the aggregation protocol.
 * All sequences here are walks: entries listed in the direction of the
 * aggregate (`asc` keeps the smallest keys first, `!asc` the largest), as
 * `SortedMap.Walk` produces them from a `TreeMap`.
 *
 *  - `Ranked` is every row seen, in walk order: the unbounded reference.
 *  - `StepBy` is one bounded step of the partition-local aggregator on its walk.
 *  - `Merge` is the walk of the coordinator's `putAll` union.
 */
module TopK {
  import opened Bytes
  import opened SortedMap
  import opened Wrappers

  /** The first `n` entries of `s`, or all of them when `s` is shorter. */
  function Take(s: seq<Entry>, n: int): (r: seq<Entry>)
    ensures |r| == if n <= 0 then 0 else if n <= |s| then n else |s|
  {
    if n <= 0 then [] else if n <= |s| then s[..n] else s
  }

  /** No two rows carry the same order key. */
  predicate DistinctKeys(rows: seq<Entry>)
  {
    forall i, j :: 0 <= i < j < |rows| ==> rows[i].key != rows[j].key
  }

  /**
   * One bounded step on the walk `w` with capacity `cap`: below capacity the
   * row is inserted; at capacity it is admitted only when it comes strictly
   * before the boundary (last) entry, which is then dropped.
   */
  function StepBy(asc: bool, w: seq<Entry>, cap: int, k: Bytes, v: Bytes): seq<Entry>
  {
    if |w| < cap then Insert(asc, w, k, v)
    else if w != [] && Before(asc, k, w[|w| - 1].key) then Insert(asc, w[..|w| - 1], k, v)
    else w
  }

  /** All rows seen, in walk order (an unbounded aggregator). */
  function Ranked(asc: bool, rows: seq<Entry>): seq<Entry>
  {
    if rows == [] then []
    else Insert(asc, Ranked(asc, rows[..|rows| - 1]), rows[|rows| - 1].key, rows[|rows| - 1].value)
  }

  /** The bounded aggregator's walk after seeing `rows` in order, from empty. */
  function TopFold(asc: bool, cap: int, rows: seq<Entry>): seq<Entry>
  {
    if rows == [] then []
    else StepBy(asc, TopFold(asc, cap, rows[..|rows| - 1]), cap, rows[|rows| - 1].key, rows[|rows| - 1].value)
  }

  /** Two-pointer merge of two walks; on equal keys the entry of `b` wins. */
  function Merge(asc: bool, a: seq<Entry>, b: seq<Entry>): seq<Entry>
    decreases |a| + |b|
  {
    if a == [] then b
    else if b == [] then a
    else if a[0].key == b[0].key then [b[0]] + Merge(asc, a[1..], b[1..])
    else if Before(asc, a[0].key, b[0].key) then [a[0]] + Merge(asc, a[1..], b)
    else [b[0]] + Merge(asc, a, b[1..])
  }

  // ---------------------------------------------------------------- lemmas

  /** A key absent from a sorted walk has a position: keys before it, then keys after it. */
  lemma {:induction false} InsertPosition(asc: bool, s: seq<Entry>, k: Bytes) returns (p: nat)
    requires SortedBy(asc, s) && k !in Keys(s)
    ensures p <= |s|
    ensures forall i :: 0 <= i < p ==> Before(asc, s[i].key, k)
    ensures forall i :: p <= i < |s| ==> Before(asc, k, s[i].key)
  {
    p := 0;
    while p < |s| && Before(asc, s[p].key, k)
      invariant p <= |s|
      invariant forall i :: 0 <= i < p ==> Before(asc, s[i].key, k)
    {
      p := p + 1;
    }
    forall i | p <= i < |s| ensures Before(asc, k, s[i].key) {
      assert s[i] in s;
      BeforeTotal(asc, k, s[p].key);
      if i > p { BeforeTransitive(asc, k, s[p].key, s[i].key); }
    }
  }

  /** Inserting a new key at its position splices it in there. */
  lemma {:induction false} InsertAt(asc: bool, s: seq<Entry>, k: Bytes, v: Bytes, p: nat)
    requires p <= |s|
    requires forall i :: 0 <= i < p ==> Before(asc, s[i].key, k)
    requires forall i :: p <= i < |s| ==> Before(asc, k, s[i].key)
    ensures Insert(asc, s, k, v) == s[..p] + [Entry(k, v)] + s[p..]
  {
    if s != [] {
      BeforeIrreflexive(asc, k);
      if p == 0 {
        assert Before(asc, k, s[0].key);
      } else {
        var t, e := s[1..], Entry(k, v);
        assert Insert(asc, s, k, v) == [s[0]] + Insert(asc, t, k, v) by {
          BeforeAsymmetric(asc, s[0].key, k);
          assert Before(asc, s[0].key, k);
        }
        forall i | 0 <= i < p - 1 ensures Before(asc, t[i].key, k) { assert t[i] == s[i + 1]; }
        forall i | p - 1 <= i < |t| ensures Before(asc, k, t[i].key) { assert t[i] == s[i + 1]; }
        InsertAt(asc, t, k, v, p - 1);
        assert [s[0]] + (t[..p - 1] + [e] + t[p - 1..]) == s[..p] + [e] + s[p..] by {
          assert s[..p] == [s[0]] + t[..p - 1];
          assert s[p..] == t[p - 1..];
        }
      }
    }
  }

  /** Truncating a splice before or after the spliced element. */
  lemma SpliceTake<T>(f: seq<T>, e: T, p: int, c: int)
    requires 0 <= p <= |f| && 0 <= c <= |f|
    ensures p <= c < |f| ==> (f[..p] + [e] + f[p..])[..c + 1] == f[..c][..p] + [e] + f[..c][p..]
    ensures c <= p ==> (f[..p] + [e] + f[p..])[..c] == f[..c]
  {
  }

  /**
   * The bounded step keeps exactly the first `cap` entries of the unbounded
   * walk: stepping the truncation equals truncating the insertion.
   */
  lemma StepTake(asc: bool, f: seq<Entry>, cap: int, k: Bytes, v: Bytes)
    requires SortedBy(asc, f) && k !in Keys(f) && cap >= 1
    ensures StepBy(asc, Take(f, cap), cap, k, v) == Take(Insert(asc, f, k, v), cap)
  {
    var p := InsertPosition(asc, f, k);
    InsertAt(asc, f, k, v, p);
    if |f| >= cap {
      if Before(asc, k, f[cap - 1].key) {
        StepTakeAdmit(asc, f, cap, k, v, p);
      } else {
        StepTakeReject(asc, f, cap, k, v, p);
      }
    }
  }

  /** At capacity, a row before the boundary replaces it. */
  lemma StepTakeAdmit(asc: bool, f: seq<Entry>, cap: int, k: Bytes, v: Bytes, p: nat)
    requires 1 <= cap <= |f| && p <= |f|
    requires forall i :: 0 <= i < p ==> Before(asc, f[i].key, k)
    requires forall i :: p <= i < |f| ==> Before(asc, k, f[i].key)
    requires Insert(asc, f, k, v) == f[..p] + [Entry(k, v)] + f[p..]
    requires Before(asc, k, f[cap - 1].key)
    ensures StepBy(asc, Take(f, cap), cap, k, v) == Take(Insert(asc, f, k, v), cap)
  {
    var w := f[..cap];
    var d := f[..cap - 1];
    var e := Entry(k, v);
    assert p <= cap - 1 by { BeforeAsymmetric(asc, f[cap - 1].key, k); }
    assert StepBy(asc, Take(f, cap), cap, k, v) == Insert(asc, d, k, v) by {
      assert Take(f, cap) == w && w[|w| - 1] == f[cap - 1] && w[..|w| - 1] == d;
    }
    assert Insert(asc, d, k, v) == d[..p] + [e] + d[p..] by {
      forall i | 0 <= i < p ensures Before(asc, d[i].key, k) { assert d[i] == f[i]; }
      forall i | p <= i < |d| ensures Before(asc, k, d[i].key) { assert d[i] == f[i]; }
      InsertAt(asc, d, k, v, p);
    }
    assert Take(Insert(asc, f, k, v), cap) == d[..p] + [e] + d[p..] by {
      SpliceTake(f, e, p, cap - 1);
    }
  }

  /** At capacity, a row not before the boundary is dropped. */
  lemma StepTakeReject(asc: bool, f: seq<Entry>, cap: int, k: Bytes, v: Bytes, p: nat)
    requires 1 <= cap <= |f| && p <= |f|
    requires forall i :: p <= i < |f| ==> Before(asc, k, f[i].key)
    requires Insert(asc, f, k, v) == f[..p] + [Entry(k, v)] + f[p..]
    requires !Before(asc, k, f[cap - 1].key)
    ensures StepBy(asc, Take(f, cap), cap, k, v) == Take(Insert(asc, f, k, v), cap)
  {
    var w := f[..cap];
    assert Take(f, cap) == w;
    assert p >= cap;
    SpliceTake(f, Entry(k, v), p, cap);
    assert StepBy(asc, w, cap, k, v) == w;
  }

  /** Dropping the last row keeps keys distinct, and the last key is new to the rest. */
  lemma PrefixDistinct(rows: seq<Entry>)
    requires DistinctKeys(rows) && rows != []
    ensures DistinctKeys(rows[..|rows| - 1])
    ensures forall e :: e in rows[..|rows| - 1] ==> e.key != rows[|rows| - 1].key
  {
    var pre := rows[..|rows| - 1];
    forall i, j | 0 <= i < j < |pre| ensures pre[i].key != pre[j].key { assert pre[i] == rows[i] && pre[j] == rows[j]; }
    forall e | e in pre ensures e.key != rows[|rows| - 1].key {
      var i :| 0 <= i < |pre| && pre[i] == e;
      assert rows[i] == e;
    }
  }

  /** With distinct keys, the unbounded walk is sorted and holds exactly the rows. */
  lemma {:induction false} RankedContents(asc: bool, rows: seq<Entry>)
    requires DistinctKeys(rows)
    ensures SortedBy(asc, Ranked(asc, rows))
    ensures forall e :: e in Ranked(asc, rows) <==> e in rows
    ensures |Ranked(asc, rows)| == |rows|
  {
    if rows != [] {
      var pre := rows[..|rows| - 1];
      var x := rows[|rows| - 1];
      PrefixDistinct(rows);
      RankedContents(asc, pre);
      RankedStep(asc, pre, x, Ranked(asc, pre));
      assert rows == pre + [x];
    }
  }

  /** Inserting a row with a new key into a walk of `pre` gives a walk of `pre + [x]`. */
  lemma RankedStep(asc: bool, pre: seq<Entry>, x: Entry, r: seq<Entry>)
    requires SortedBy(asc, r) && |r| == |pre|
    requires forall e :: e in r <==> e in pre
    requires forall e :: e in pre ==> e.key != x.key
    ensures SortedBy(asc, Insert(asc, r, x.key, x.value))
    ensures forall e :: e in Insert(asc, r, x.key, x.value) <==> e in pre + [x]
    ensures |Insert(asc, r, x.key, x.value)| == |pre| + 1
  {
    assert x.key !in Keys(r);
    InsertContents(asc, r, x.key, x.value);
  }

  /**
   * The bounded fold holds the first `cap` entries of the unbounded walk:
   * the `min(cap, n)` rows that come first in walk order.
   */
  lemma {:induction false} TopFoldTakes(asc: bool, cap: int, rows: seq<Entry>)
    requires DistinctKeys(rows) && cap >= 1
    ensures TopFold(asc, cap, rows) == Take(Ranked(asc, rows), cap)
  {
    if rows != [] {
      var pre := rows[..|rows| - 1];
      var x := rows[|rows| - 1];
      PrefixDistinct(rows);
      TopFoldTakes(asc, cap, pre);
      RankedContents(asc, pre);
      assert x.key !in Keys(Ranked(asc, pre));
      StepTake(asc, Ranked(asc, pre), cap, x.key, x.value);
    }
  }

  /**
   * The bounded fold, stated without reference to `Ranked`: it is sorted, holds
   * `min(cap, n)` of the rows, and every row it left out comes after every row
   * it kept.
   */
  lemma TopFoldSmallest(asc: bool, cap: int, rows: seq<Entry>)
    requires DistinctKeys(rows) && cap >= 1
    ensures SortedBy(asc, TopFold(asc, cap, rows))
    ensures |TopFold(asc, cap, rows)| == if cap <= |rows| then cap else |rows|
    ensures forall e :: e in TopFold(asc, cap, rows) ==> e in rows
    ensures forall e, f :: e in TopFold(asc, cap, rows) && f in rows && f !in TopFold(asc, cap, rows) ==>
              Before(asc, e.key, f.key)
  {
    TopFoldTakes(asc, cap, rows);
    RankedContents(asc, rows);
    var r := Ranked(asc, rows);
    var n := |Take(r, cap)|;
    assert Take(r, cap) == r[..n];
    SortedSlice(asc, r, 0, n);
    PrefixFirst(asc, r, n);
  }

  /** In a sorted walk, every entry of a prefix comes before every entry outside it. */
  lemma PrefixFirst(asc: bool, r: seq<Entry>, n: nat)
    requires SortedBy(asc, r) && n <= |r|
    ensures forall e :: e in r[..n] ==> e in r
    ensures forall e, f :: e in r[..n] && f in r && f !in r[..n] ==> Before(asc, e.key, f.key)
  {
    var t := r[..n];
    forall e | e in t ensures e in r {
      var i :| 0 <= i < n && t[i] == e;
      assert r[i] == e;
    }
    assert forall k :: 0 <= k < n ==> r[k] in t by {
      forall k | 0 <= k < n ensures r[k] in t { assert t[k] == r[k]; }
    }
    forall e, f | e in t && f in r && f !in t ensures Before(asc, e.key, f.key) {
      var i :| 0 <= i < n && t[i] == e;
      var j :| 0 <= j < |r| && r[j] == f;
      assert r[i] == e;
    }
  }

  /** One bounded step keeps a walk within capacity and sorted. */
  lemma StepBound(asc: bool, w: seq<Entry>, cap: int, k: Bytes, v: Bytes)
    requires SortedBy(asc, w) && |w| <= cap
    ensures SortedBy(asc, StepBy(asc, w, cap, k, v)) && |StepBy(asc, w, cap, k, v)| <= cap
  {
    InsertContents(asc, w, k, v);
    if |w| >= cap && w != [] {
      SortedSlice(asc, w, 0, |w| - 1);
      InsertContents(asc, w[..|w| - 1], k, v);
    }
  }

  /** Whatever the rows, duplicates included, the bounded fold is sorted and never exceeds its capacity. */
  lemma {:induction false} TopFoldBound(asc: bool, cap: int, rows: seq<Entry>)
    ensures SortedBy(asc, TopFold(asc, cap, rows))
    ensures |TopFold(asc, cap, rows)| <= if cap <= 0 then 0 else cap
  {
    if rows != [] {
      var n := |rows| - 1;
      TopFoldBound(asc, cap, rows[..n]);
      StepBound(asc, TopFold(asc, cap, rows[..n]), if cap <= 0 then 0 else cap, rows[n].key, rows[n].value);
    }
  }

  /**
   * With a repeated order key the bounded map can shrink below capacity: at
   * capacity 2, keys 1, 2, 1 evict key 2 for the second row of key 1, which
   * then overwrites the first, leaving one entry though two keys were seen.
   */
  lemma DuplicateShrinks()
    ensures TopFold(true, 2, [Entry([1], [1]), Entry([2], [2]), Entry([1], [3])]) == [Entry([1], [3])]
  {
    var e1, e2, e3 := Entry([1], [1]), Entry([2], [2]), Entry([1], [3]);
    var r1, r2, r3 := [e1], [e1, e2], [e1, e2, e3];
    assert r3[..2] == r2 && r2[..1] == r1 && r1[..0] == [];
    assert Compare([1], [2]) < 0 && Compare([2], [1]) > 0;
    assert TopFold(true, 2, r1) == StepBy(true, [], 2, [1], [1]) == [e1];
    assert [e1][1..] == [];
    assert Insert(true, [e1], [2], [2]) == [e1] + Insert(true, [], [2], [2]);
    assert TopFold(true, 2, r2) == StepBy(true, [e1], 2, [2], [2]) == [e1, e2];
    assert [e1, e2][..1] == [e1];
    assert TopFold(true, 2, r3) == StepBy(true, [e1, e2], 2, [1], [3]) == [e3];
  }

  /** A merge of walks with disjoint keys is a walk of their union. */
  lemma {:induction false} MergeContents(asc: bool, a: seq<Entry>, b: seq<Entry>)
    requires SortedBy(asc, a) && SortedBy(asc, b) && Keys(a) !! Keys(b)
    ensures SortedBy(asc, Merge(asc, a, b))
    ensures forall e :: e in Merge(asc, a, b) <==> e in a || e in b
    decreases |a| + |b|
  {
    if a != [] && b != [] {
      SortedTail(asc, a);
      SortedTail(asc, b);
      KeysTail(a);
      KeysTail(b);
      assert forall e :: e in a <==> e == a[0] || e in a[1..] by { assert a == [a[0]] + a[1..]; }
      assert forall e :: e in b <==> e == b[0] || e in b[1..] by { assert b == [b[0]] + b[1..]; }
      assert a[0].key != b[0].key;
      if Before(asc, a[0].key, b[0].key) {
        MergeContents(asc, a[1..], b);
        forall e | e in b ensures Before(asc, a[0].key, e.key) {
          if e != b[0] { BeforeTransitive(asc, a[0].key, b[0].key, e.key); }
        }
        SortedCons(asc, a[0], Merge(asc, a[1..], b));
      } else {
        BeforeTotal(asc, a[0].key, b[0].key);
        MergeContents(asc, a, b[1..]);
        forall e | e in a ensures Before(asc, b[0].key, e.key) {
          if e != a[0] { BeforeTransitive(asc, b[0].key, a[0].key, e.key); }
        }
        SortedCons(asc, b[0], Merge(asc, a, b[1..]));
      }
    }
  }

  lemma TakeCons(s: seq<Entry>, n: int)
    requires s != [] && n >= 1
    ensures Take(s, n) == [s[0]] + Take(s[1..], n - 1)
  {
  }

  /**
   * Only the first `n` entries of each side matter for the first `n` entries
   * of a merge (for any truncations at least that long).
   */
  lemma {:induction false} MergeTake(asc: bool, a: seq<Entry>, b: seq<Entry>, n: int, i: int, j: int)
    requires n <= i && n <= j
    ensures Take(Merge(asc, a, b), n) == Take(Merge(asc, Take(a, i), Take(b, j)), n)
    decreases |a| + |b|, 1
  {
    if n >= 1 && a != [] && b != [] {
      TakeCons(a, i);
      TakeCons(b, j);
      if a[0].key == b[0].key {
        MergeTakeBoth(asc, a, b, n, i, j);
      } else if Before(asc, a[0].key, b[0].key) {
        MergeTakeLeft(asc, a, b, n, i, j);
      } else {
        MergeTakeRight(asc, a, b, n, i, j);
      }
    } else if n >= 1 && a == [] {
      assert Take(Take(b, j), n) == Take(b, n);
    } else if n >= 1 {
      assert Take(Take(a, i), n) == Take(a, n);
    }
  }

  lemma {:induction false} MergeTakeBoth(asc: bool, a: seq<Entry>, b: seq<Entry>, n: int, i: int, j: int)
    requires 1 <= n <= i && n <= j && a != [] && b != [] && a[0].key == b[0].key
    requires Take(a, i) == [a[0]] + Take(a[1..], i - 1) && Take(b, j) == [b[0]] + Take(b[1..], j - 1)
    ensures Take(Merge(asc, a, b), n) == Take(Merge(asc, Take(a, i), Take(b, j)), n)
    decreases |a| + |b|, 0
  {
    var ta, tb := Take(a[1..], i - 1), Take(b[1..], j - 1);
    MergeStepBoth(asc, a[0], b[0], ta, tb);
    MergeTake(asc, a[1..], b[1..], n - 1, i - 1, j - 1);
    TakeHead(b[0], Merge(asc, a[1..], b[1..]), Merge(asc, ta, tb), n);
  }

  lemma {:induction false} MergeTakeLeft(asc: bool, a: seq<Entry>, b: seq<Entry>, n: int, i: int, j: int)
    requires 1 <= n <= i && n <= j && a != [] && b != [] && a[0].key != b[0].key && Before(asc, a[0].key, b[0].key)
    requires Take(a, i) == [a[0]] + Take(a[1..], i - 1) && Take(b, j) == [b[0]] + Take(b[1..], j - 1)
    ensures Take(Merge(asc, a, b), n) == Take(Merge(asc, Take(a, i), Take(b, j)), n)
    decreases |a| + |b|, 0
  {
    var ta := Take(a[1..], i - 1);
    MergeStepLeft(asc, a[0], b[0], ta, Take(b[1..], j - 1));
    MergeTake(asc, a[1..], b, n - 1, i - 1, j);
    TakeHead(a[0], Merge(asc, a[1..], b), Merge(asc, ta, Take(b, j)), n);
  }

  lemma {:induction false} MergeTakeRight(asc: bool, a: seq<Entry>, b: seq<Entry>, n: int, i: int, j: int)
    requires 1 <= n <= i && n <= j && a != [] && b != [] && a[0].key != b[0].key && !Before(asc, a[0].key, b[0].key)
    requires Take(a, i) == [a[0]] + Take(a[1..], i - 1) && Take(b, j) == [b[0]] + Take(b[1..], j - 1)
    ensures Take(Merge(asc, a, b), n) == Take(Merge(asc, Take(a, i), Take(b, j)), n)
    decreases |a| + |b|, 0
  {
    var tb := Take(b[1..], j - 1);
    MergeStepRight(asc, a[0], b[0], Take(a[1..], i - 1), tb);
    MergeTake(asc, a, b[1..], n - 1, i, j - 1);
    TakeHead(b[0], Merge(asc, a, b[1..]), Merge(asc, Take(a, i), tb), n);
  }

  /** Equal first keys: the merge takes the entry of `b` and drops both heads. */
  lemma MergeStepBoth(asc: bool, x: Entry, y: Entry, a: seq<Entry>, b: seq<Entry>)
    requires x.key == y.key
    ensures Merge(asc, [x] + a, [y] + b) == [y] + Merge(asc, a, b)
  {
    assert ([x] + a)[1..] == a && ([y] + b)[1..] == b;
  }

  /** A first key of `a` before that of `b`: the merge takes it. */
  lemma MergeStepLeft(asc: bool, x: Entry, y: Entry, a: seq<Entry>, b: seq<Entry>)
    requires x.key != y.key && Before(asc, x.key, y.key)
    ensures Merge(asc, [x] + a, [y] + b) == [x] + Merge(asc, a, [y] + b)
  {
    assert ([x] + a)[1..] == a;
  }

  /** A first key of `b` before that of `a`: the merge takes it. */
  lemma MergeStepRight(asc: bool, x: Entry, y: Entry, a: seq<Entry>, b: seq<Entry>)
    requires x.key != y.key && !Before(asc, x.key, y.key)
    ensures Merge(asc, [x] + a, [y] + b) == [y] + Merge(asc, [x] + a, b)
  {
    assert ([y] + b)[1..] == b;
  }

  /** Equal heads and equal truncated tails give equal truncations. */
  lemma TakeHead(x: Entry, m: seq<Entry>, t: seq<Entry>, n: int)
    requires n >= 1 && Take(m, n - 1) == Take(t, n - 1)
    ensures Take([x] + m, n) == Take([x] + t, n)
  {
    TakeCons([x] + m, n);
    TakeCons([x] + t, n);
    assert ([x] + m)[1..] == m && ([x] + t)[1..] == t;
  }

  /** The coordinator's `putAll` union of two maps with disjoint keys walks as their merge. */
  lemma WalkPutAll(asc: bool, u: seq<Entry>, s: seq<Entry>)
    requires IsTreeMap(u) && IsTreeMap(s) && Keys(u) !! Keys(s)
    ensures IsTreeMap(PutAll(u, s))
    ensures Walk(asc, PutAll(u, s)) == Merge(asc, Walk(asc, u), Walk(asc, s))
  {
    PutAllContents(u, s);
    WalkSorted(asc, u);
    WalkSorted(asc, s);
    WalkSorted(asc, PutAll(u, s));
    assert Keys(Walk(asc, u)) == Keys(u);
    assert Keys(Walk(asc, s)) == Keys(s);
    MergeContents(asc, Walk(asc, u), Walk(asc, s));
    forall e ensures e in Walk(asc, PutAll(u, s)) <==> e in Merge(asc, Walk(asc, u), Walk(asc, s)) {
    }
    Unique(asc, Walk(asc, PutAll(u, s)), Merge(asc, Walk(asc, u), Walk(asc, s)));
  }

  /** The unbounded walk of two batches of rows is the merge of their walks. */
  lemma RankedAppend(asc: bool, r1: seq<Entry>, r2: seq<Entry>)
    requires DistinctKeys(r1 + r2)
    ensures DistinctKeys(r1) && DistinctKeys(r2)
    ensures Ranked(asc, r1 + r2) == Merge(asc, Ranked(asc, r1), Ranked(asc, r2))
  {
    var r := r1 + r2;
    forall i, j | 0 <= i < j < |r1| ensures r1[i].key != r1[j].key { assert r1[i] == r[i] && r1[j] == r[j]; }
    forall i, j | 0 <= i < j < |r2| ensures r2[i].key != r2[j].key {
      assert r2[i] == r[|r1| + i] && r2[j] == r[|r1| + j];
    }
    RankedContents(asc, r1);
    RankedContents(asc, r2);
    RankedContents(asc, r);
    assert Keys(Ranked(asc, r1)) !! Keys(Ranked(asc, r2)) by {
      forall x, y | x in Ranked(asc, r1) && y in Ranked(asc, r2) ensures x.key != y.key {
        var i :| 0 <= i < |r1| && r1[i] == x;
        var j :| 0 <= j < |r2| && r2[j] == y;
        assert r[i] == x && r[|r1| + j] == y;
      }
    }
    MergeContents(asc, Ranked(asc, r1), Ranked(asc, r2));
    assert forall e :: e in r <==> e in r1 || e in r2;
    Unique(asc, Ranked(asc, r), Merge(asc, Ranked(asc, r1), Ranked(asc, r2)));
  }

  // ------------------------------------------------- partitions and the coordinator

  /** All partitions' rows, partition after partition. */
  function Flatten(parts: seq<seq<Entry>>): seq<Entry>
  {
    if parts == [] then [] else Flatten(parts[..|parts| - 1]) + parts[|parts| - 1]
  }

  /** The coordinator's map after `putAll` of each partial map in turn, from empty. */
  function UnionAll(maps: seq<seq<Entry>>): seq<Entry>
  {
    if maps == [] then [] else PutAll(UnionAll(maps[..|maps| - 1]), maps[|maps| - 1])
  }

  /** The value of the `n`-th entry (1-based) of a walk, if there is one. */
  function NthValue(w: seq<Entry>, n: int): Option<Bytes>
  {
    if 1 <= n <= |w| then Some(w[n - 1].value) else None
  }

  lemma DistinctAcross(a: seq<Entry>, b: seq<Entry>, x: Entry, y: Entry)
    requires DistinctKeys(a + b) && x in a && y in b
    ensures x.key != y.key
  {
    var i :| 0 <= i < |a| && a[i] == x;
    var j :| 0 <= j < |b| && b[j] == y;
    assert (a + b)[i] == x && (a + b)[|a| + j] == y;
  }

  /** Only the first `cap` entries of a walk decide its `n`-th value for `n <= cap`. */
  lemma NthTake(w: seq<Entry>, cap: int, n: int)
    requires n <= cap
    ensures NthValue(Take(w, cap), n) == NthValue(w, n)
  {
  }

  /**
   * Merging the partition-local top-`cap` maps keeps the first `cap` entries of
   * the walk over all rows, whatever the partitioning, when order keys are distinct.
   */
  lemma {:induction false} PartitionedTop(asc: bool, cap: int, parts: seq<seq<Entry>>, maps: seq<seq<Entry>>)
    requires cap >= 1 && |maps| == |parts| && DistinctKeys(Flatten(parts))
    requires forall i :: 0 <= i < |maps| ==> IsTreeMap(maps[i]) && Walk(asc, maps[i]) == TopFold(asc, cap, parts[i])
    ensures IsTreeMap(UnionAll(maps))
    ensures forall e :: e in UnionAll(maps) ==> e in Flatten(parts)
    ensures Take(Walk(asc, UnionAll(maps)), cap) == Take(Ranked(asc, Flatten(parts)), cap)
  {
    if parts != [] {
      var n := |parts| - 1;
      var pre, last := parts[..n], parts[n];
      var u, m := UnionAll(maps[..n]), maps[n];
      assert Flatten(parts) == Flatten(pre) + last;
      RankedAppend(asc, Flatten(pre), last);
      PartitionedTop(asc, cap, pre, maps[..n]);
      TopFoldSmallest(asc, cap, last);
      WalkSorted(asc, m);
      assert forall e :: e in m ==> e in last;
      assert Keys(u) !! Keys(m) by {
        forall x, y | x in u && y in m ensures x.key != y.key {
          DistinctAcross(Flatten(pre), last, x, y);
        }
      }
      WalkPutAll(asc, u, m);
      PutAllContents(u, m);
      var r1, r2 := Ranked(asc, Flatten(pre)), Ranked(asc, last);
      TopFoldTakes(asc, cap, last);
      assert Take(Walk(asc, m), cap) == Take(r2, cap);
      calc {
        Take(Walk(asc, UnionAll(maps)), cap);
        Take(Merge(asc, Walk(asc, u), Walk(asc, m)), cap);
        { MergeTake(asc, Walk(asc, u), Walk(asc, m), cap, cap, cap); }
        Take(Merge(asc, Take(Walk(asc, u), cap), Take(Walk(asc, m), cap)), cap);
        Take(Merge(asc, Take(r1, cap), Take(r2, cap)), cap);
        { MergeTake(asc, r1, r2, cap, cap, cap); }
        Take(Merge(asc, r1, r2), cap);
      }
    }
  }

  /**
   * End to end: with distinct order keys, the coordinator's `n`-th value over the
   * merged partial maps is the `n`-th value over all rows in walk order, and the
   * same as one partition holding every row would give.
   */
  lemma PartitionedNth(asc: bool, cap: int, parts: seq<seq<Entry>>, maps: seq<seq<Entry>>, n: int)
    requires cap >= 1 && n <= cap && |maps| == |parts| && DistinctKeys(Flatten(parts))
    requires forall i :: 0 <= i < |maps| ==> IsTreeMap(maps[i]) && Walk(asc, maps[i]) == TopFold(asc, cap, parts[i])
    ensures NthValue(Walk(asc, UnionAll(maps)), n) == NthValue(Ranked(asc, Flatten(parts)), n)
    ensures NthValue(Walk(asc, UnionAll(maps)), n) == NthValue(TopFold(asc, cap, Flatten(parts)), n)
  {
    PartitionedTop(asc, cap, parts, maps);
    NthTake(Walk(asc, UnionAll(maps)), cap, n);
    NthTake(Ranked(asc, Flatten(parts)), cap, n);
    TopFoldTakes(asc, cap, Flatten(parts));
  }
}
