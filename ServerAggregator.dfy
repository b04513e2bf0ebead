/**
 * `FirstByLastByServerAggregator`, the partition-local half of FIRST_BY /
 * LAST_BY / NTH.  In offset mode it keeps at most `offset` rows in a `TreeMap`
 * keyed by order value, evicting the boundary row when a better one comes; in
 * single mode it keeps one (order, value) pair.  `evaluate` ships its state in
 * the matching container's wire format.
 *
 * The two child expressions are evaluated by the caller: `Aggregate` receives
 * the order bytes and the value bytes of the row, and `Init` receives whether
 * the order child sorts descending.
 */
module ServerAggregator {
  import opened Bytes
  import opened Wrappers
  import opened SortedMap
  import opened TopK
  import opened SingleMode
  import opened JavaLang
  import opened ValueContainer
  import opened OffsetContainer

  class FirstByLastByServerAggregator {
    var topOrder: Bytes
    var topValue: Option<Bytes>
    var useOffset: bool
    var offset: Int32
    var topValues: seq<Entry>
    var isAscending: bool
    /** Every row aggregated since construction or the last reset, in order. */
    ghost var rows: seq<Entry>

    ghost predicate Valid()
      reads this
    {
      IsTreeMap(topValues)
    }

    /** Nothing aggregated and nothing held. */
    ghost predicate Cleared()
      reads this
    {
      rows == [] && topValues == [] && topOrder == [] && topValue == None
    }

    /**
     * The state is what the reference folds give on the rows seen: the walk of
     * the map is the bounded fold (offset mode), the pair is the single fold.
     */
    ghost predicate Tracks()
      reads this
    {
      Valid() &&
      (useOffset ==> Walk(isAscending, topValues) == TopFold(isAscending, offset, rows)) &&
      (!useOffset ==> Pick(topOrder, topValue) == SingleFold(isAscending, rows))
    }

    constructor()
      ensures topOrder == [] && topValue == None && !useOffset && offset == -1 && topValues == [] && !isAscending
      ensures Cleared() && Tracks()
    {
      topOrder := [];
      topValue := None;
      useOffset := false;
      offset := -1;
      topValues := [];
      isAscending := false;
      rows := [];
    }

    /** `reset`: clears the held rows and the offset; the direction stays. */
    method Reset()
      modifies this
      ensures topOrder == [] && topValue == None && topValues == [] && offset == -1 && !useOffset
      ensures isAscending == old(isAscending)
      ensures Cleared() && Tracks()
    {
      topOrder := [];
      topValue := None;
      topValues := [];
      offset := -1;
      useOffset := false;
      rows := [];
    }

    /**
     * `init`: a positive offset turns offset mode on (it is never turned off
     * here), and a descending order child flips the direction.
     */
    method Init(orderIsDesc: bool, ascending: bool, off: Int32)
      modifies this
      ensures offset == off && useOffset == (old(useOffset) || off > 0)
      ensures isAscending == if orderIsDesc then !ascending else ascending
      ensures topOrder == old(topOrder) && topValue == old(topValue) && topValues == old(topValues) && rows == old(rows)
      ensures old(Cleared()) ==> Tracks()
    {
      offset := off;
      if off > 0 {
        useOffset := true;
      }
      if orderIsDesc {
        isAscending := !ascending;
      } else {
        isAscending := ascending;
      }
    }

    /**
     * `aggregate` of one row.  Offset mode: below capacity the row is put;
     * at capacity the boundary key (`lastKey` ascending, `firstKey`
     * descending) is replaced when the row beats it, which is the bounded step
     * on the walk; an empty map at capacity (offset 0 or less) makes the
     * boundary lookup throw.  Single mode: the pair is replaced when its order
     * key is empty or the row is better.
     */
    method Aggregate(order: Bytes, value: Bytes) returns (thrown: Option<JavaException>)
      requires Valid()
      modifies this
      ensures Valid()
      ensures useOffset == old(useOffset) && offset == old(offset) && isAscending == old(isAscending)
      ensures rows == old(rows) + [Entry(order, value)]
      ensures useOffset ==> topOrder == old(topOrder) && topValue == old(topValue)
      ensures useOffset ==>
        Walk(isAscending, topValues) == StepBy(isAscending, Walk(isAscending, old(topValues)), offset, order, value)
      ensures thrown.Some? <==> useOffset && old(topValues) == [] && offset <= 0
      ensures thrown.Some? ==> thrown.value == NoSuchElement && topValues == old(topValues)
      ensures !useOffset ==> topValues == old(topValues)
      ensures !useOffset ==>
        Pick(topOrder, topValue) == SingleStep(isAscending, old(Pick(topOrder, topValue)), order, value)
      ensures old(Tracks()) ==> Tracks()
    {
      rows := rows + [Entry(order, value)];
      ghost var w := Walk(isAscending, topValues);
      WalkSorted(isAscending, topValues);
      if useOffset {
        if |topValues| < offset {
          WalkPut(isAscending, topValues, order, value);
          topValues := Put(topValues, order, value);
        } else {
          if isAscending {
            var lowestKey := LastKey(topValues);
            if lowestKey.Err? {
              return Some(lowestKey.error);
            }
            if Compare(order, lowestKey.value) < 0 {
              AscendingAdmit(topValues, offset, order, value);
              topValues := Remove(topValues, lowestKey.value);
              topValues := Put(topValues, order, value);
            }
          } else {
            var highestKey := FirstKey(topValues);
            if highestKey.Err? {
              return Some(highestKey.error);
            }
            if Compare(order, highestKey.value) > 0 {
              DescendingAdmit(topValues, offset, order, value);
              topValues := Remove(topValues, highestKey.value);
              topValues := Put(topValues, order, value);
            } else {
              DescendingReject(topValues, offset, order, value);
            }
          }
        }
      } else {
        ghost var before := Pick(topOrder, topValue);
        ReplacesIsStep(isAscending, before, order, value);
        var isHigher;
        if isAscending {
          isHigher := Compare(topOrder, order) > 0;
        } else {
          isHigher := Compare(topOrder, order) < 0;
        }
        if |topOrder| < 1 || isHigher {
          topValue := Some(value);
          topOrder := order;
        }
      }
      assert rows[..|rows| - 1] == old(rows);
      thrown := None;
    }

    /**
     * `evaluate`: nothing when nothing is held; otherwise the offset payload
     * (offset mode) or the single-value message, whose writer may throw.
     */
    method Evaluate() returns (r: Result<Option<Bytes>, JavaException>)
      requires Valid()
      ensures useOffset ==>
        r == if topValues == [] then Ok(None) else Ok(Some(EncodePayload(false, isAscending, offset, topValues)))
      ensures !useOffset && topValue == None ==> r == Ok(None)
      ensures !useOffset && topValue != None ==>
        var m := EncodeValueMessage(ValueMessage(false, isAscending, topOrder, topValue.value));
        (r.Ok? <==> m.Ok?) && (m.Ok? ==> r == Ok(Some(m.value))) && (m.Err? ==> r == Err(m.error))
    {
      if useOffset {
        if |topValues| == 0 {
          return Ok(None);
        }
        var payload := new FirstByLastByOffsetDataContainer();
        payload.SetIsAscending(isAscending);
        payload.SetOffset(offset);
        payload.SetData(topValues);
        var bytes := payload.GetPayload();
        return Ok(Some(bytes));
      }
      if topValue == None {
        return Ok(None);
      }
      var message := new FirstLastValueDataContainer();
      message.SetOrderValue(topOrder);
      message.SetValue(topValue.value);
      message.SetIsAscending(isAscending);
      var bytes := message.GetBytesMessage();
      if bytes.Err? {
        return Err(bytes.error);
      }
      return Ok(Some(bytes.value));
    }
  }

  // ---------------------------------------------------------------- lemmas

  /** Ascending at capacity: dropping `lastKey` and putting the row is the bounded step. */
  lemma AscendingAdmit(s: seq<Entry>, cap: int, k: Bytes, v: Bytes)
    requires IsTreeMap(s) && s != [] && |s| >= cap && Compare(k, s[|s| - 1].key) < 0
    ensures IsTreeMap(Put(Remove(s, s[|s| - 1].key), k, v))
    ensures Put(Remove(s, s[|s| - 1].key), k, v) == StepBy(true, s, cap, k, v)
  {
    RemoveLast(true, s);
    SortedSlice(true, s, 0, |s| - 1);
    WalkPut(true, s[..|s| - 1], k, v);
  }

  /** Descending at capacity: dropping `firstKey` and putting the row is the bounded step on the descending walk. */
  lemma DescendingAdmit(s: seq<Entry>, cap: int, k: Bytes, v: Bytes)
    requires IsTreeMap(s) && s != [] && |s| >= cap && Compare(k, s[0].key) > 0
    ensures IsTreeMap(Put(Remove(s, s[0].key), k, v))
    ensures Walk(false, Put(Remove(s, s[0].key), k, v)) == StepBy(false, Walk(false, s), cap, k, v)
  {
    RemoveFirst(true, s);
    SortedTail(true, s);
    CompareAntisymmetric(s[0].key, k);
    WalkPut(false, s[1..], k, v);
    ReverseContents(s);
    var w := Reverse(s);
    assert w[..|w| - 1] == Reverse(s[1..]);
  }

  /** Descending at capacity: a row not above `firstKey` leaves the walk as it is. */
  lemma DescendingReject(s: seq<Entry>, cap: int, k: Bytes, v: Bytes)
    requires s != [] && |s| >= cap && !(Compare(k, s[0].key) > 0)
    ensures StepBy(false, Walk(false, s), cap, k, v) == Walk(false, s)
  {
    CompareAntisymmetric(s[0].key, k);
    ReverseContents(s);
  }

  /**
   * What offset mode holds after any rows with distinct order keys: the
   * `min(offset, n)` rows that come first in the aggregate's direction, and
   * every row it dropped comes after every row it kept.
   */
  lemma OffsetModeKeeps(asc: bool, cap: int, rows: seq<Entry>, topValues: seq<Entry>)
    requires IsTreeMap(topValues) && Walk(asc, topValues) == TopFold(asc, cap, rows)
    requires DistinctKeys(rows) && cap >= 1
    ensures |topValues| == if cap <= |rows| then cap else |rows|
    ensures forall e :: e in topValues ==> e in rows
    ensures forall e, f :: e in topValues && f in rows && f !in topValues ==> Before(asc, e.key, f.key)
  {
    TopFoldSmallest(asc, cap, rows);
    WalkSorted(asc, topValues);
  }
}
