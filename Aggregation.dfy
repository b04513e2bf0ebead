/**
 * The protocol end to end: what the partitions' `FirstByLastByServerAggregator`s
 * send, read by the coordinator's client aggregators, gives the answer one
 * aggregator over all rows would.
 */
module Aggregation {
  import opened Bytes
  import opened Wrappers
  import opened SortedMap
  import opened TopK
  import opened SingleMode
  import opened JavaLang
  import opened ValueContainer
  import opened OffsetContainer

  /** The coordinator's map after absorbing each offset payload in turn, skipping those that do not read. */
  function AbsorbAll(payloads: seq<Bytes>): seq<Entry>
  {
    if payloads == [] then []
    else
      var d := DecodePayload(payloads[|payloads| - 1]).data;
      var u := AbsorbAll(payloads[..|payloads| - 1]);
      if d.Ok? then PutAll(u, d.value) else u
  }

  /** The coordinator's pair after absorbing each single-mode message in turn, skipping those that do not read. */
  function AbsorbPicks(asc: bool, messages: seq<Bytes>): Pick
  {
    if messages == [] then Nothing
    else
      var d := DecodeValueMessage(messages[|messages| - 1]);
      var p := AbsorbPicks(asc, messages[..|messages| - 1]);
      if d.Ok? then SingleStep(asc, p, d.value.order, d.value.value) else p
  }

  /** Absorbing the payloads the servers wrote merges exactly their maps. */
  lemma {:induction false} AbsorbWritten(asc: bool, offset: Int32, maps: seq<seq<Entry>>, payloads: seq<Bytes>)
    requires |payloads| == |maps|
    requires forall i :: 0 <= i < |maps| ==> IsTreeMap(maps[i]) && payloads[i] == EncodePayload(false, asc, offset, maps[i])
    ensures AbsorbAll(payloads) == UnionAll(maps)
  {
    if maps != [] {
      var n := |maps| - 1;
      AbsorbWritten(asc, offset, maps[..n], payloads[..n]);
      PayloadRoundTrip(false, asc, offset, maps[n], []);
      assert payloads[n] + [] == payloads[n];
    }
  }

  /**
   * Offset mode end to end: with distinct order keys, when every partition
   * sends its bounded map for offset `n >= 1`, the coordinator's `n`-th value
   * is the `n`-th value over all rows in the aggregate's direction, and each
   * payload carries the direction and offset it was written with.
   */
  lemma OffsetEndToEnd(asc: bool, n: Int32, parts: seq<seq<Entry>>, maps: seq<seq<Entry>>, payloads: seq<Bytes>)
    requires n >= 1 && |maps| == |parts| && |payloads| == |maps| && DistinctKeys(Flatten(parts))
    requires forall i :: 0 <= i < |maps| ==> IsTreeMap(maps[i]) && Walk(asc, maps[i]) == TopFold(asc, n, parts[i])
    requires forall i :: 0 <= i < |maps| ==> payloads[i] == EncodePayload(false, asc, n, maps[i])
    ensures forall i :: 0 <= i < |payloads| ==> DecodePayload(payloads[i]) == Payload(false, asc, n, Ok(maps[i]))
    ensures IsTreeMap(AbsorbAll(payloads))
    ensures NthValue(Walk(asc, AbsorbAll(payloads)), n) == NthValue(Ranked(asc, Flatten(parts)), n)
  {
    forall i | 0 <= i < |payloads| ensures DecodePayload(payloads[i]) == Payload(false, asc, n, Ok(maps[i])) {
      PayloadRoundTrip(false, asc, n, maps[i], []);
      assert payloads[i] + [] == payloads[i];
    }
    AbsorbWritten(asc, n, maps, payloads);
    PartitionedTop(asc, n, parts, maps);
    PartitionedNth(asc, n, parts, maps, n);
  }

  /** Absorbing the messages the servers wrote steps through exactly their pairs. */
  lemma {:induction false} AbsorbPicksWritten(asc: bool, picks: seq<Entry>, messages: seq<Bytes>)
    requires |messages| == |picks|
    requires forall i :: 0 <= i < |picks| ==> |picks[i].key| <= 127 && |picks[i].value| <= 127
    requires forall i :: 0 <= i < |picks| ==>
      messages[i] == EncodeValueMessage(ValueMessage(false, asc, picks[i].key, picks[i].value)).value
    ensures AbsorbPicks(asc, messages) == SingleFold(asc, picks)
  {
    if picks != [] {
      var n := |picks| - 1;
      AbsorbPicksWritten(asc, picks[..n], messages[..n]);
      var m := ValueMessage(false, asc, picks[n].key, picks[n].value);
      ValueRoundTrip(m, []);
      assert messages[n] + [] == messages[n];
    }
  }

  /**
   * Single mode end to end: with distinct non-empty order keys of at most 127
   * bytes (and values as short), the coordinator's pair after the partitions'
   * messages is the pair one aggregator over all rows would hold.
   */
  lemma SingleEndToEnd(asc: bool, parts: seq<seq<Entry>>, picks: seq<Entry>, messages: seq<Bytes>)
    requires |picks| == |parts| && |messages| == |picks|
    requires NonEmptyKeys(Flatten(parts)) && DistinctKeys(Flatten(parts))
    requires forall i :: 0 <= i < |parts| ==> SingleFold(asc, parts[i]) == Pick(picks[i].key, Some(picks[i].value))
    requires forall i :: 0 <= i < |picks| ==> |picks[i].key| <= 127 && |picks[i].value| <= 127
    requires forall i :: 0 <= i < |picks| ==>
      messages[i] == EncodeValueMessage(ValueMessage(false, asc, picks[i].key, picks[i].value)).value
    ensures AbsorbPicks(asc, messages) == SingleFold(asc, Flatten(parts))
  {
    AbsorbPicksWritten(asc, picks, messages);
    PartitionedSingle(asc, parts, picks);
  }
}
