/**
 * What the two coordinator-side aggregators (`FirstAndLastBaseClientAggregator`
 * and `FirstLastValueBaseClientAggregator`) share: the `evaluate` walk that
 * picks the `offset`-th entry of the merged map.
 */
module ClientMerge {
  import opened Bytes
  import opened Wrappers
  import opened SortedMap
  import opened TopK

  /**
   * The `for` loop of `evaluate` in offset mode: walks `keySet()` (ascending)
   * or `descendingKeySet()`, counting down from `offset`, and returns the value
   * of the key met when the counter, before its decrement, is 1.
   */
  method NthWalk(asc: bool, topValues: seq<Entry>, offset: int) returns (r: Option<Bytes>)
    requires IsTreeMap(topValues)
    ensures r == NthValue(Walk(asc, topValues), offset)
    ensures r.Some? <==> 1 <= offset <= |topValues|
  {
    if |topValues| == 0 {
      return None;
    }
    var keySet := Walk(asc, topValues);
    WalkSorted(asc, topValues);
    ReverseContents(topValues);
    var counter := offset;
    var i := 0;
    while i < |keySet|
      invariant 0 <= i <= |keySet|
      invariant counter == offset - i
      invariant !(1 <= offset <= i)
    {
      var currentKey := keySet[i].key;
      var hit := counter == 1;
      counter := counter - 1;
      if hit {
        if asc {
          GetEntry(true, topValues, i);
        } else {
          GetEntry(true, topValues, |topValues| - 1 - i);
        }
        return Get(topValues, currentKey);
      }
      i := i + 1;
    }
    return None;
  }
}
