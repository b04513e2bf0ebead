/**
 * `FirstLastValueBaseClientAggregator`, the coordinator half of
 * FIRST_VALUE / LAST_VALUE / NTH_VALUE: merges the partial payloads the
 * partitions send.  Its offset container (`FirstLastValueOffsetDataContainer`)
 * is taken to share the `FirstByLastByOffsetDataContainer` layout.
 *
 * `Aggregate` receives the row's bytes and whether the row is a
 * `SingleKeyValueTuple` (an ORDER BY re-aggregation, whose bytes are the value
 * itself).
 */
module FirstLastValueClient {
  import opened Bytes
  import opened Wrappers
  import opened SortedMap
  import opened TopK
  import opened SingleMode
  import opened ValueContainer
  import opened OffsetContainer
  import opened ClientMerge
  import opened JavaLang

  class FirstLastValueBaseClientAggregator {
    var useOffset: bool
    var offset: Int32
    var topOrder: Bytes
    var topValue: Option<Bytes>
    var topValues: seq<Entry>
    var isAscending: bool
    /** The partial maps merged since construction or the last reset, in order. */
    ghost var merged: seq<seq<Entry>>

    /** The map is a `TreeMap` and is the `putAll` union of the partial maps merged. */
    ghost predicate Valid()
      reads this
    {
      IsTreeMap(topValues) && topValues == UnionAll(merged)
    }

    constructor()
      ensures !useOffset && offset == -1 && topOrder == [] && topValue == None && topValues == [] && !isAscending
      ensures merged == [] && Valid()
    {
      useOffset := false;
      offset := -1;
      topOrder := [];
      topValue := None;
      topValues := [];
      isAscending := false;
      merged := [];
    }

    /** `reset`: the offset setting and the direction survive. */
    method Reset()
      modifies this
      ensures topOrder == [] && topValue == None && topValues == []
      ensures useOffset == old(useOffset) && offset == old(offset) && isAscending == old(isAscending)
      ensures merged == [] && Valid()
    {
      topOrder := [];
      topValue := None;
      topValues := [];
      merged := [];
    }

    /** `init`: any non-zero offset, negative ones included, turns offset mode on. */
    method Init(off: Int32)
      modifies this
      ensures off != 0 ==> useOffset && offset == off
      ensures off == 0 ==> useOffset == old(useOffset) && offset == old(offset)
      ensures topOrder == old(topOrder) && topValue == old(topValue) && topValues == old(topValues)
      ensures isAscending == old(isAscending) && merged == old(merged)
    {
      if off != 0 {
        useOffset := true;
        offset := off;
      }
    }

    /**
     * `aggregate` of one partial result.  Offset mode: the payload's map is
     * merged with `putAll` and its direction adopted; a payload that does not
     * read is logged and ignored.  Single mode: a single-key-value row is taken
     * as the value; otherwise the message is read (its exceptions propagate)
     * and its pair replaces the held one when the held key is empty or the new
     * key is better.
     */
    method Aggregate(message: Bytes, singleTuple: bool) returns (thrown: Option<JavaException>)
      requires Valid()
      modifies this
      ensures Valid()
      ensures useOffset == old(useOffset) && offset == old(offset)
      ensures useOffset ==> thrown.None? && topOrder == old(topOrder) && topValue == old(topValue)
      ensures useOffset && DecodePayload(message).data.Ok? ==>
        topValues == PutAll(old(topValues), DecodePayload(message).data.value) &&
        isAscending == DecodePayload(message).ascending &&
        merged == old(merged) + [DecodePayload(message).data.value]
      ensures useOffset && DecodePayload(message).data.Err? ==>
        topValues == old(topValues) && isAscending == old(isAscending) && merged == old(merged)
      ensures !useOffset ==> topValues == old(topValues) && merged == old(merged)
      ensures !useOffset && singleTuple ==>
        thrown.None? && topValue == Some(message) && topOrder == old(topOrder) && isAscending == old(isAscending)
      ensures !useOffset && !singleTuple && DecodeValueMessage(message).Err? ==>
        thrown == Some(DecodeValueMessage(message).error) &&
        topOrder == old(topOrder) && topValue == old(topValue) && isAscending == old(isAscending)
      ensures !useOffset && !singleTuple && DecodeValueMessage(message).Ok? ==>
        var m := DecodeValueMessage(message).value;
        thrown.None? && isAscending == m.ascending &&
        Pick(topOrder, topValue) == SingleStep(m.ascending, old(Pick(topOrder, topValue)), m.order, m.value)
    {
      thrown := None;
      if useOffset {
        var payload := new FirstByLastByOffsetDataContainer();
        var failed := payload.SetPayload(message);
        if failed.None? {
          DecodedPayloadIsTreeMap(message);
          PutAllContents(topValues, payload.data);
          topValues := PutAll(topValues, payload.data);
          merged := merged + [payload.data];
          assert merged[..|merged| - 1] == old(merged);
          isAscending := payload.isAscending;
        }
      } else {
        if singleTuple {
          topValue := Some(message);
          return;
        }
        var container := new FirstLastValueDataContainer();
        thrown := container.SetBytesMessage(message);
        if thrown.Some? {
          return;
        }
        var currentValue := container.value;
        var currentOrder := container.order;
        isAscending := container.isAscending;
        ReplacesIsStep(isAscending, Pick(topOrder, topValue), currentOrder, currentValue);
        var isBetter;
        if isAscending {
          isBetter := Compare(topOrder, currentOrder) > 0;
        } else {
          isBetter := Compare(topOrder, currentOrder) < 0;
        }
        if |topOrder| < 1 || isBetter {
          topOrder := currentOrder;
          topValue := Some(currentValue);
        }
      }
    }

    /** `evaluate`: the `offset`-th entry of the merged map in walk order, or the held value. */
    method Evaluate() returns (r: Option<Bytes>)
      requires Valid()
      ensures useOffset ==> r == NthValue(Walk(isAscending, topValues), offset)
      ensures !useOffset ==> r == topValue
    {
      if useOffset {
        r := NthWalk(isAscending, topValues, offset);
        return;
      }
      r := topValue;
    }
  }
}
