# FIRST_BY / LAST_BY / NTH aggregation and the embedded JDBC driver's URL handling, modelled in Dafny

This project models the part of Apache Phoenix that computes `FIRST_BY`, `LAST_BY`, `FIRST_VALUE`, `LAST_VALUE` and `NTH_VALUE` in two phases, together with two small string decoders.

- **Partition side.** Each region runs a `FirstByLastByServerAggregator` per group. One of two modes is set by `init`:
  - *Single mode* keeps the row whose order key is most extreme.
  - *Offset mode* keeps a bounded, ordered map of the `offset` most extreme keys.
- **Wire formats.** What a partition sends is encoded in one of two layouts:
  - `FirstLastValueDataContainer`: flag bytes, then length-prefixed order and value bytes.
  - `FirstByLastByOffsetDataContainer`: flag bytes, a big-endian `int` offset, then the serialised map.
- **Coordinator side.** The coordinator runs `FirstAndLastBaseClientAggregator` or `FirstLastValueBaseClientAggregator`.
  - In single mode it decodes each partial result and keeps the most extreme.
  - In offset mode it takes the union of the partial maps, then walks the union in order and returns the value of the `offset`-th key.
- **`HEX_TO_BYTES`** turns a hexadecimal string into bytes.
- **`PhoenixEmbeddedDriver`** decides which JDBC URLs it accepts. `ConnectionInfo` parses a URL into quorum, port, root node, keytab and principal. It then fills missing fields from properties, prints itself, compares itself and turns itself into properties.

## Data model

- **Bytes.** Java's signed `byte` is the unsigned `byte` (0..255). Signed readings are taken explicitly where the code reads a byte as a signed length.
- **Key order.** HBase's `Bytes.compareTo` and `BinaryComparator` are unsigned lexicographic comparison, in which a strict prefix is smaller (`Bytes.Compare`).
- **Ordered maps.** A `TreeMap<byte[], byte[]>` is a strictly ascending `seq<Entry>` (`SortedMap`). Its `put`, `remove`, `putAll`, `firstKey`, `lastKey`, `keySet` and `descendingKeySet` are functions over that sequence. `View` relates the sequence to a `map`.
- **Mutable classes.** The aggregators and containers are classes whose fields the methods update, as in the source.
  - Their specifications are functions: `TopK.StepBy`/`TopK.TopFold` for the bounded map, `SingleMode.SingleStep`/`SingleMode.SingleFold` for the single pick, and `EncodeValueMessage`/`DecodeValueMessage` and `EncodePayload`/`DecodePayload` for the wire formats.
  - The server class keeps a ghost history of every row it has aggregated. Its `Tracks` invariant relates the state to a fold over that history.
- **Boundary values.** `int` is `JavaLang.Int32`. `null` is `None`. A thrown exception is an `Err`, or a returned `Option<JavaException>` for methods that otherwise return nothing.
- **Serialisation.** Java object serialisation of the map is replaced by a concrete codec (`MapCodec`: a varint count, then varint-length-prefixed keys and values). It has a proved round trip and stands in for `ObjectOutputStream`/`ObjectInputStream`.

## Model

| member | source | states |
|---|---|---|
| Bytes.CompareZero | phoenix-core/src/main/java/org/apache/phoenix/expression/aggregator/FirstByLastByServerAggregator.java:93-99 | `Bytes.compareTo` is 0 exactly on equal byte strings |
| Bytes.CompareAntisymmetric | phoenix-core/src/main/java/org/apache/phoenix/expression/aggregator/FirstByLastByServerAggregator.java:93-99 | `compareTo(a, b) < 0` exactly when `compareTo(b, a) > 0` |
| Bytes.LessTransitive | phoenix-core/src/main/java/org/apache/phoenix/expression/aggregator/FirstByLastByServerAggregator.java:93-99 | the unsigned lexicographic order is transitive |
| Bytes.LessTotal | phoenix-core/src/main/java/org/apache/phoenix/expression/aggregator/FirstByLastByServerAggregator.java:93-99 | any two distinct keys are ordered one way or the other |
| Bytes.EmptyIsLeast | phoenix-core/src/main/java/org/apache/phoenix/expression/aggregator/FirstByLastByServerAggregator.java:111-116 | the empty key is below every non-empty key, so it beats every key in ascending mode |
| Bytes.NarrowLength | phoenix-core/src/main/java/org/apache/phoenix/util/FirstLastValueDataContainer.java:100-101 | the `(byte)` cast of a length keeps it exactly when it is below 128 and never makes it larger |
| Bytes.FromSigned | phoenix-core/src/main/java/org/apache/phoenix/util/FirstLastValueDataContainer.java:114 | the byte written for a signed value reads back as that value |
| JavaLang.IntBytesRoundTrip | phoenix-core/src/main/java/org/apache/phoenix/util/FirstByLastByOffsetDataContainer.java:116-118 | `ByteBuffer.getInt` inverts `Bytes.toBytes(int)` for every `int`, negatives included |
| JavaLang.BytesIntRoundTrip | phoenix-core/src/main/java/org/apache/phoenix/util/FirstByLastByOffsetDataContainer.java:89-96 | any four bytes survive `getInt` followed by `Bytes.toBytes` |
| JavaLang.ParseIntToString | phoenix-core/src/main/java/org/apache/phoenix/jdbc/PhoenixEmbeddedDriver.java:318-319 | `Integer.parseInt(Integer.toString(x)) == x` for every `int` |
| JavaLang.TokensJoin | phoenix-core/src/main/java/org/apache/phoenix/jdbc/PhoenixEmbeddedDriver.java:169 | the tokens of a `StringTokenizer` that returns delimiters concatenate back to its input |
| JavaLang.TokenShape | phoenix-core/src/main/java/org/apache/phoenix/jdbc/PhoenixEmbeddedDriver.java:169 | each such token is one delimiter or a run free of delimiters |
| JavaIO.ArrayCopy | phoenix-core/src/main/java/org/apache/phoenix/util/FirstLastValueDataContainer.java:50-51 | `System.arraycopy` throws `ArrayIndexOutOfBoundsException` exactly on an out-of-range slice, else copies that slice and nothing else |
| JavaIO.ByteArrayOutputStream.Write | phoenix-core/src/main/java/org/apache/phoenix/util/FirstByLastByOffsetDataContainer.java:62-63 | `write(int)` appends the low byte |
| JavaIO.ByteArrayOutputStream.WriteAll | phoenix-core/src/main/java/org/apache/phoenix/util/FirstByLastByOffsetDataContainer.java:64 | `write(byte[])` appends the array |
| JavaIO.ByteArrayInputStream.Read | phoenix-core/src/main/java/org/apache/phoenix/util/FirstByLastByOffsetDataContainer.java:86-87 | `read()` gives the next byte and advances, or -1 at the end |
| JavaIO.ByteArrayInputStream.ReadInto | phoenix-core/src/main/java/org/apache/phoenix/util/FirstByLastByOffsetDataContainer.java:91-93 | `read(a)` on a one-byte array fills it and advances, or returns -1 and leaves it unchanged |
| SortedMap.InsertContents | phoenix-core/src/main/java/org/apache/phoenix/expression/aggregator/FirstByLastByServerAggregator.java:85 | `put` keeps the map sorted, holds the new entry and every old entry with another key, and grows by one exactly for a new key |
| SortedMap.RemoveContents | phoenix-core/src/main/java/org/apache/phoenix/expression/aggregator/FirstByLastByServerAggregator.java:94 | `remove` keeps the map sorted and drops exactly the entry with that key |
| SortedMap.RemoveLast | phoenix-core/src/main/java/org/apache/phoenix/expression/aggregator/FirstByLastByServerAggregator.java:92-94 | removing `lastKey()` drops the last entry |
| SortedMap.RemoveFirst | phoenix-core/src/main/java/org/apache/phoenix/expression/aggregator/FirstByLastByServerAggregator.java:98-100 | removing `firstKey()` drops the first entry |
| SortedMap.PutAllContents | phoenix-core/src/main/java/org/apache/phoenix/expression/aggregator/FirstAndLastBaseClientAggregator.java:113 | `putAll` keeps a map whose entries are those of the argument plus the old ones with keys it lacks |
| SortedMap.PutAllView | phoenix-core/src/main/java/org/apache/phoenix/expression/aggregator/FirstAndLastBaseClientAggregator.java:113 | as maps, `putAll` is map union with the argument winning |
| SortedMap.PutView | phoenix-core/src/main/java/org/apache/phoenix/expression/aggregator/FirstByLastByServerAggregator.java:85 | as a map, `put` is map update, growing exactly for a new key |
| SortedMap.RemoveView | phoenix-core/src/main/java/org/apache/phoenix/expression/aggregator/FirstByLastByServerAggregator.java:94 | as a map, `remove` is key removal |
| SortedMap.ViewDetermines | phoenix-core/src/main/java/org/apache/phoenix/expression/aggregator/FirstByLastByServerAggregator.java:50 | two tree maps with the same contents are the same sequence |
| SortedMap.WalkSorted | phoenix-core/src/main/java/org/apache/phoenix/expression/aggregator/FirstAndLastBaseClientAggregator.java:81-86 | `keySet()` / `descendingKeySet()` visit every entry once, in the requested direction |
| SortedMap.GetEntry | phoenix-core/src/main/java/org/apache/phoenix/expression/aggregator/FirstAndLastBaseClientAggregator.java:91 | `get` of a visited key returns its value |
| SortedMap.KeysCardinality | phoenix-core/src/main/java/org/apache/phoenix/expression/aggregator/FirstByLastByServerAggregator.java:83 | the number of distinct keys is at most the number of entries |
| TopK.StepTake | phoenix-core/src/main/java/org/apache/phoenix/expression/aggregator/FirstByLastByServerAggregator.java:82-108 | one `aggregate` step on the first `offset` keys equals the first `offset` keys after inserting the new row |
| TopK.TopFoldTakes | phoenix-core/src/main/java/org/apache/phoenix/expression/aggregator/FirstByLastByServerAggregator.java:82-108 | with distinct keys, the map after any rows is the first `offset` of those rows in direction order |
| TopK.TopFoldSmallest | phoenix-core/src/main/java/org/apache/phoenix/expression/aggregator/FirstByLastByServerAggregator.java:83-107 | with distinct keys, the map is sorted, holds exactly `min(offset, n)` rows seen, and every held key comes before every row left out |
| TopK.TopFoldBound | phoenix-core/src/main/java/org/apache/phoenix/expression/aggregator/FirstByLastByServerAggregator.java:82-108 | whatever the rows, duplicates included, the map stays sorted and never exceeds `offset` entries |
| TopK.StepBound | phoenix-core/src/main/java/org/apache/phoenix/expression/aggregator/FirstByLastByServerAggregator.java:82-108 | one step preserves sortedness and the `offset` bound |
| TopK.DuplicateShrinks | phoenix-core/src/main/java/org/apache/phoenix/expression/aggregator/FirstByLastByServerAggregator.java:90-107 | a full map that evicts its boundary key and then overwrites an existing key shrinks: three rows with a repeated key leave one entry |
| TopK.RankedContents | phoenix-core/src/main/java/org/apache/phoenix/expression/aggregator/FirstByLastByServerAggregator.java:82-108 | ranking distinct rows gives a sorted permutation of them |
| TopK.MergeContents | phoenix-core/src/main/java/org/apache/phoenix/expression/aggregator/FirstAndLastBaseClientAggregator.java:113 | merging two sorted maps with disjoint keys is sorted and holds exactly their entries |
| TopK.MergeTake | phoenix-core/src/main/java/org/apache/phoenix/expression/aggregator/FirstAndLastBaseClientAggregator.java:81-94 | the first `n` of a merge depend only on the first `n` of each side |
| TopK.WalkPutAll | phoenix-core/src/main/java/org/apache/phoenix/expression/aggregator/FirstAndLastBaseClientAggregator.java:113 | walking the `putAll` of two disjoint maps is the merge of their walks |
| TopK.RankedAppend | phoenix-core/src/main/java/org/apache/phoenix/expression/aggregator/FirstAndLastBaseClientAggregator.java:113 | ranking two disjoint batches together is merging their rankings |
| TopK.NthTake | phoenix-core/src/main/java/org/apache/phoenix/expression/aggregator/FirstAndLastBaseClientAggregator.java:88-94 | the `n`-th entry of a walk is unchanged by keeping only its first `cap >= n` entries |
| TopK.PartitionedTop | phoenix-core/src/main/java/org/apache/phoenix/expression/aggregator/FirstAndLastBaseClientAggregator.java:108-116 | the union of partition top-`offset` maps, walked, has the same first `offset` entries as ranking all rows |
| TopK.PartitionedNth | phoenix-core/src/main/java/org/apache/phoenix/expression/aggregator/FirstAndLastBaseClientAggregator.java:81-94 | the `offset`-th value of the union equals the `offset`-th of all rows ranked, and of one aggregator's map over all rows |
| SingleMode.BetterIsBefore | phoenix-core/src/main/java/org/apache/phoenix/expression/aggregator/FirstByLastByServerAggregator.java:110-115 | "higher" means the new key comes strictly before the held one in the direction |
| SingleMode.ReplacesIsStep | phoenix-core/src/main/java/org/apache/phoenix/expression/aggregator/FirstByLastByServerAggregator.java:116-120 | a step replaces the pick exactly when nothing is held or the new key is strictly better; otherwise, ties included, the earlier row stays |
| SingleMode.EmptyKeyResets | phoenix-core/src/main/java/org/apache/phoenix/expression/aggregator/FirstByLastByServerAggregator.java:116 | a held empty key counts as nothing held: any row replaces it |
| SingleMode.EmptyKeyWinsAscending | phoenix-core/src/main/java/org/apache/phoenix/expression/aggregator/FirstByLastByServerAggregator.java:111-116 | in ascending mode a row with an empty key replaces any pick |
| SingleMode.EmptyKeyForgotten | phoenix-core/src/main/java/org/apache/phoenix/expression/aggregator/FirstByLastByServerAggregator.java:116-120 | an empty key that won is replaced by the next row, so the result is not the minimum |
| SingleMode.SingleFoldPicks | phoenix-core/src/main/java/org/apache/phoenix/expression/aggregator/FirstByLastByServerAggregator.java:110-120 | over non-empty keys the fold picks a row no other row beats, and the first such row |
| SingleMode.ExtremeUnique | phoenix-core/src/main/java/org/apache/phoenix/expression/aggregator/FirstByLastByServerAggregator.java:110-120 | with distinct keys there is one most extreme row |
| SingleMode.SingleFoldExtreme | phoenix-core/src/main/java/org/apache/phoenix/expression/aggregator/FirstByLastByServerAggregator.java:110-120 | with distinct non-empty keys the fold returns the most extreme row |
| SingleMode.SingleFoldOrderFree | phoenix-core/src/main/java/org/apache/phoenix/expression/aggregator/FirstAndLastBaseClientAggregator.java:135-144 | with distinct non-empty keys the pick does not depend on arrival order |
| SingleMode.PartitionedSingle | phoenix-core/src/main/java/org/apache/phoenix/expression/aggregator/FirstAndLastBaseClientAggregator.java:135-144 | folding the partitions' picks gives the pick over all rows |
| ValueContainer.EncodeValueMessage | phoenix-core/src/main/java/org/apache/phoenix/util/FirstLastValueDataContainer.java:100-104 | the message exists exactly when both lengths are at most 127, and it has length `order + value + 4` |
| ValueContainer.FirstLastValueDataContainer.GetBytesMessage | phoenix-core/src/main/java/org/apache/phoenix/util/FirstLastValueDataContainer.java:86-126 | the array filled step by step is the encoded message; longer fields raise the exception the signed length cast causes |
| ValueContainer.FirstLastValueDataContainer.SetBytesMessage | phoenix-core/src/main/java/org/apache/phoenix/util/FirstLastValueDataContainer.java:32-52 | the fields become the decoded message, or the decoder's exception is returned |
| ValueContainer.FirstLastValueDataContainer.constructor | phoenix-core/src/main/java/org/apache/phoenix/util/FirstLastValueDataContainer.java:24-29 | both flags start false and both byte fields empty |
| ValueContainer.FirstLastValueDataContainer.SetIsAscending | phoenix-core/src/main/java/org/apache/phoenix/util/FirstLastValueDataContainer.java:54-56 | sets the direction and nothing else |
| ValueContainer.FirstLastValueDataContainer.SetCompression | phoenix-core/src/main/java/org/apache/phoenix/util/FirstLastValueDataContainer.java:62-64 | sets the compression flag and nothing else |
| ValueContainer.FirstLastValueDataContainer.SetOrderValue | phoenix-core/src/main/java/org/apache/phoenix/util/FirstLastValueDataContainer.java:70-72 | sets the order bytes and nothing else |
| ValueContainer.FirstLastValueDataContainer.SetValue | phoenix-core/src/main/java/org/apache/phoenix/util/FirstLastValueDataContainer.java:78-80 | sets the value bytes and nothing else |
| ValueContainer.WriteHeader | phoenix-core/src/main/java/org/apache/phoenix/util/FirstLastValueDataContainer.java:104-114 | writes the two flags and the signed sort length; a buffer of fewer than three bytes throws |
| ValueContainer.WriteParts | phoenix-core/src/main/java/org/apache/phoenix/util/FirstLastValueDataContainer.java:115-123 | writes order, value length and value from byte 3, or throws exactly when they do not fit |
| ValueContainer.CopyWhole | phoenix-core/src/main/java/org/apache/phoenix/util/FirstLastValueDataContainer.java:47-51 | fills the new array from the message, or throws exactly when the message is too short |
| ValueContainer.Room | phoenix-core/src/main/java/org/apache/phoenix/util/FirstLastValueDataContainer.java:100-104 | the buffer has room for both parts exactly when both lengths are at most 127 |
| ValueContainer.ValueRoundTrip | phoenix-core/src/main/java/org/apache/phoenix/util/FirstLastValueDataContainer.java:32-126 | decoding an encoded message restores both flags, order and value, whatever bytes follow |
| ValueContainer.ValueReencode | phoenix-core/src/main/java/org/apache/phoenix/util/FirstLastValueDataContainer.java:32-126 | re-encoding a decoded message reproduces its bytes, with flags normalised to 0/1 and trailing bytes dropped |
| ValueContainer.FlagOnlyOne | phoenix-core/src/main/java/org/apache/phoenix/util/FirstLastValueDataContainer.java:34-42 | a flag byte reads as true only when it is exactly 1 |
| ValueContainer.ShortMessage | phoenix-core/src/main/java/org/apache/phoenix/util/FirstLastValueDataContainer.java:44-51 | a message whose value-length byte, or whose value, lies past its end throws `ArrayIndexOutOfBoundsException` |
| OffsetContainer.EncodePayload | phoenix-core/src/main/java/org/apache/phoenix/util/FirstByLastByOffsetDataContainer.java:58-80 | byte 0 is the compression flag, byte 1 the direction, bytes 2-5 the big-endian offset, the map from byte 6 |
| OffsetContainer.OffsetBytes | phoenix-core/src/main/java/org/apache/phoenix/util/FirstByLastByOffsetDataContainer.java:89-94 | the four offset bytes are bytes 2-5, a missing byte reading as 0 |
| OffsetContainer.ReadOffsetBytes | phoenix-core/src/main/java/org/apache/phoenix/util/FirstByLastByOffsetDataContainer.java:89-94 | the loop of single-byte reads yields `OffsetBytes` and leaves the stream after the header |
| OffsetContainer.FirstByLastByOffsetDataContainer.constructor | phoenix-core/src/main/java/org/apache/phoenix/util/FirstByLastByOffsetDataContainer.java:40-44 | the container starts empty |
| OffsetContainer.FirstByLastByOffsetDataContainer.SetIsAscending | phoenix-core/src/main/java/org/apache/phoenix/util/FirstLastValueDataContainer.java:54-56 | sets the direction and nothing else; the setter is inherited from `FirstByLastByDataContainer`, which is not part of this model and is taken to match `FirstLastValueDataContainer` |
| OffsetContainer.FirstByLastByOffsetDataContainer.SetOffset | phoenix-core/src/main/java/org/apache/phoenix/util/FirstByLastByOffsetDataContainer.java:46-48 | sets the offset and nothing else |
| OffsetContainer.FirstByLastByOffsetDataContainer.SetData | phoenix-core/src/main/java/org/apache/phoenix/util/FirstByLastByOffsetDataContainer.java:54-56 | sets the map and nothing else |
| OffsetContainer.FirstByLastByOffsetDataContainer.GetPayload | phoenix-core/src/main/java/org/apache/phoenix/util/FirstByLastByOffsetDataContainer.java:58-80 | the stream writes produce the encoded payload |
| OffsetContainer.FirstByLastByOffsetDataContainer.SetPayload | phoenix-core/src/main/java/org/apache/phoenix/util/FirstByLastByOffsetDataContainer.java:82-110 | flags (non-zero is true) and offset are always set; the map is replaced when it reads, else its exception is returned and the map kept |
| OffsetContainer.PayloadRoundTrip | phoenix-core/src/main/java/org/apache/phoenix/util/FirstByLastByOffsetDataContainer.java:58-110 | reading a written payload restores both flags, the offset and the map, whatever follows |
| OffsetContainer.DecodedPayloadIsTreeMap | phoenix-core/src/main/java/org/apache/phoenix/util/FirstByLastByOffsetDataContainer.java:101 | whatever map a payload yields is a well-formed tree map |
| OffsetContainer.EmptyPayload | phoenix-core/src/main/java/org/apache/phoenix/util/FirstByLastByOffsetDataContainer.java:86-96 | an empty payload reads both flags as true and the offset as 0, and the map fails |
| OffsetContainer.TruncatedOffset | phoenix-core/src/main/java/org/apache/phoenix/util/FirstByLastByOffsetDataContainer.java:89-96 | missing offset bytes read as 0 |
| MapCodec.MapRoundTrip | phoenix-core/src/main/java/org/apache/phoenix/util/FirstByLastByOffsetDataContainer.java:69-101 | the map body reads back as the map written, whatever follows |
| MapCodec.DecodedIsTreeMap | phoenix-core/src/main/java/org/apache/phoenix/util/FirstByLastByOffsetDataContainer.java:101 | the reader yields only well-formed tree maps |
| ServerAggregator.FirstByLastByServerAggregator.constructor | phoenix-core/src/main/java/org/apache/phoenix/expression/aggregator/FirstByLastByServerAggregator.java:46-55 | single mode, offset -1, nothing held |
| ServerAggregator.FirstByLastByServerAggregator.Reset | phoenix-core/src/main/java/org/apache/phoenix/expression/aggregator/FirstByLastByServerAggregator.java:57-66 | clears the pick and the map and returns to single mode with offset -1 |
| ServerAggregator.FirstByLastByServerAggregator.Init | phoenix-core/src/main/java/org/apache/phoenix/expression/aggregator/FirstByLastByServerAggregator.java:181-195 | stores the offset, enables offset mode when it is positive, and flips the direction for a DESC order expression |
| ServerAggregator.FirstByLastByServerAggregator.Aggregate | phoenix-core/src/main/java/org/apache/phoenix/expression/aggregator/FirstByLastByServerAggregator.java:73-123 | in offset mode the map takes one `StepBy` step, and `lastKey`/`firstKey` on an empty map throw; in single mode the pick takes one `SingleStep` step; the history invariant is kept |
| ServerAggregator.FirstByLastByServerAggregator.Evaluate | phoenix-core/src/main/java/org/apache/phoenix/expression/aggregator/FirstByLastByServerAggregator.java:141-174 | absent for an empty map or no pick; otherwise the encoded payload or message |
| ServerAggregator.AscendingAdmit | phoenix-core/src/main/java/org/apache/phoenix/expression/aggregator/FirstByLastByServerAggregator.java:91-96 | ascending: removing the last key and putting a smaller new one is the step function |
| ServerAggregator.DescendingAdmit | phoenix-core/src/main/java/org/apache/phoenix/expression/aggregator/FirstByLastByServerAggregator.java:97-107 | descending: removing the first key and putting a larger new one is the step function |
| ServerAggregator.DescendingReject | phoenix-core/src/main/java/org/apache/phoenix/expression/aggregator/FirstByLastByServerAggregator.java:97-103 | descending: a key not above the least held leaves the map as it was |
| ServerAggregator.OffsetModeKeeps | phoenix-core/src/main/java/org/apache/phoenix/expression/aggregator/FirstByLastByServerAggregator.java:83-107 | with distinct keys the map holds exactly the `min(offset, n)` most extreme rows seen |
| ClientMerge.NthWalk | phoenix-core/src/main/java/org/apache/phoenix/expression/aggregator/FirstAndLastBaseClientAggregator.java:88-95 | the counting loop returns the value of the `offset`-th key in direction order, and returns one exactly when `1 <= offset <= size` |
| FirstAndLastClient.FirstAndLastBaseClientAggregator.constructor | phoenix-core/src/main/java/org/apache/phoenix/expression/aggregator/FirstAndLastBaseClientAggregator.java:49-62 | single mode, offset -1, nothing held |
| FirstAndLastClient.FirstAndLastBaseClientAggregator.Reset | phoenix-core/src/main/java/org/apache/phoenix/expression/aggregator/FirstAndLastBaseClientAggregator.java:64-72 | clears value, pick and map; keeps mode, offset and direction |
| FirstAndLastClient.FirstAndLastBaseClientAggregator.Init | phoenix-core/src/main/java/org/apache/phoenix/expression/aggregator/FirstAndLastBaseClientAggregator.java:153-159 | any non-zero offset enables offset mode and is stored; 0 changes nothing |
| FirstAndLastClient.FirstAndLastBaseClientAggregator.Aggregate | phoenix-core/src/main/java/org/apache/phoenix/expression/aggregator/FirstAndLastBaseClientAggregator.java:106-146 | offset mode: `putAll` of the decoded map with the payload's direction, or no change when it fails to read; a single-key tuple is adopted verbatim; otherwise one `SingleStep` in the message's direction, or the decoder's exception |
| FirstAndLastClient.FirstAndLastBaseClientAggregator.Evaluate | phoenix-core/src/main/java/org/apache/phoenix/expression/aggregator/FirstAndLastBaseClientAggregator.java:74-104 | offset mode: the `offset`-th value of the walk; single mode: exactly `topValue` |
| FirstLastValueClient.FirstLastValueBaseClientAggregator.constructor | phoenix-core/src/main/java/org/apache/phoenix/expression/aggregator/FirstLastValueBaseClientAggregator.java:43-52 | single mode, offset -1, nothing held |
| FirstLastValueClient.FirstLastValueBaseClientAggregator.Reset | phoenix-core/src/main/java/org/apache/phoenix/expression/aggregator/FirstLastValueBaseClientAggregator.java:54-59 | clears pick and map; keeps mode, offset and direction |
| FirstLastValueClient.FirstLastValueBaseClientAggregator.Init | phoenix-core/src/main/java/org/apache/phoenix/expression/aggregator/FirstLastValueBaseClientAggregator.java:141-146 | any non-zero offset enables offset mode and is stored; 0 changes nothing |
| FirstLastValueClient.FirstLastValueBaseClientAggregator.Aggregate | phoenix-core/src/main/java/org/apache/phoenix/expression/aggregator/FirstLastValueBaseClientAggregator.java:95-134 | the same merge as the `FIRST_BY` client: union in offset mode, verbatim adoption, or one strict-improvement step |
| FirstLastValueClient.FirstLastValueBaseClientAggregator.Evaluate | phoenix-core/src/main/java/org/apache/phoenix/expression/aggregator/FirstLastValueBaseClientAggregator.java:61-93 | offset mode: the `offset`-th value of the walk, absent when there are fewer entries; single mode: exactly `topValue` |
| Aggregation.AbsorbWritten | phoenix-core/src/main/java/org/apache/phoenix/expression/aggregator/FirstAndLastBaseClientAggregator.java:108-116 | absorbing the partitions' payloads builds the union of their maps |
| Aggregation.OffsetEndToEnd | phoenix-core/src/main/java/org/apache/phoenix/expression/aggregator/FirstAndLastBaseClientAggregator.java:81-116 | with distinct keys, the coordinator's `offset`-th value over the partitions' payloads is the `offset`-th over all rows ranked |
| Aggregation.AbsorbPicksWritten | phoenix-core/src/main/java/org/apache/phoenix/expression/aggregator/FirstAndLastBaseClientAggregator.java:128-144 | absorbing the partitions' messages folds their picks |
| Aggregation.SingleEndToEnd | phoenix-core/src/main/java/org/apache/phoenix/expression/aggregator/FirstAndLastBaseClientAggregator.java:128-144 | with distinct non-empty keys, the coordinator's pick is the pick over all rows |
| HexToBytes.Evaluate | phoenix-core/src/main/java/org/apache/phoenix/expression/HexToBytesFunction.java:49-75 | the loop writing `out[i / 2]` computes the decoding function: absent input stays absent, otherwise the bytes or the first error |
| HexToBytes.HexDecodeOk | phoenix-core/src/main/java/org/apache/phoenix/expression/HexToBytesFunction.java:61-72 | decoding succeeds exactly for even length with every pair parsing; then there are `length / 2` bytes, byte `k` the low 8 bits of pair `k` |
| HexToBytes.DecodeFromOk | phoenix-core/src/main/java/org/apache/phoenix/expression/HexToBytesFunction.java:62-70 | the same, for the loop started at any even position |
| HexToBytes.FirstBadPiece | phoenix-core/src/main/java/org/apache/phoenix/expression/HexToBytesFunction.java:63-66 | the first pair that does not parse is the one reported |
| HexToBytes.OddLength | phoenix-core/src/main/java/org/apache/phoenix/expression/HexToBytesFunction.java:67-68 | odd length with every full pair parsing is reported as an invalid length |
| HexToBytes.HexRoundTrip | phoenix-core/src/main/java/org/apache/phoenix/expression/HexToBytesFunction.java:61-72 | decoding the two-digit hex spelling of any bytes returns those bytes |
| HexToBytes.SignedPiece | phoenix-core/src/main/java/org/apache/phoenix/expression/HexToBytesFunction.java:64 | `parseInt` takes a sign, so "-1" decodes to 0xFF and "+f" to 0x0F |
| HexToBytes.NotHexExample | phoenix-core/src/it/java/org/apache/phoenix/end2end/HexToBytesFunctionIT.java:85 | "zzxxuuyyzzxxuuyy" fails on its first pair |
| HexToBytes.OddExample | phoenix-core/src/it/java/org/apache/phoenix/end2end/HexToBytesFunctionIT.java:101 | "8" fails as an invalid length |
| EmbeddedDriver.Lookup | phoenix-core/src/main/java/org/apache/phoenix/jdbc/PhoenixEmbeddedDriver.java:245 | a property read finds exactly the keys present, with their values |
| EmbeddedDriver.AcceptsURL | phoenix-core/src/main/java/org/apache/phoenix/jdbc/PhoenixEmbeddedDriver.java:77-104 | an accepted URL starts with the protocol, is followed by nothing, the terminator or the separator, and is never the remote `//` form |
| EmbeddedDriver.AcceptedForms | phoenix-core/src/main/java/org/apache/phoenix/jdbc/PhoenixEmbeddedDriver.java:77-101 | the bare protocol and protocol plus terminator are accepted; protocol plus separator is accepted exactly when "//" does not follow |
| EmbeddedDriver.RejectedForms | phoenix-core/src/main/java/org/apache/phoenix/jdbc/PhoenixEmbeddedDriver.java:78-103 | a URL without the protocol, or with any other character after it, is rejected |
| EmbeddedDriver.TestUrlForms | phoenix-core/src/main/java/org/apache/phoenix/jdbc/PhoenixEmbeddedDriver.java:403-405 | a URL ending in, or containing, the test parameter is a test URL |
| EmbeddedDriver.IsTestUrl | phoenix-core/src/main/java/org/apache/phoenix/jdbc/PhoenixEmbeddedDriver.java:403-405 | a test URL contains the terminator, so a URL without properties is never a test URL |
| EmbeddedDriver.ConnectionInfo.Equals | phoenix-core/src/main/java/org/apache/phoenix/jdbc/PhoenixEmbeddedDriver.java:370-392 | `equals` holds exactly for another info with the same five fields |
| EmbeddedDriver.ConnectionInfo.AsProps | phoenix-core/src/main/java/org/apache/phoenix/jdbc/PhoenixEmbeddedDriver.java:313-332 | a property is present exactly for each non-null field, with that field's text |
| EmbeddedDriver.Normalize | phoenix-core/src/main/java/org/apache/phoenix/jdbc/PhoenixEmbeddedDriver.java:236-289 | the method reassigning locals computes the normalising function |
| EmbeddedDriver.NormalizeFails | phoenix-core/src/main/java/org/apache/phoenix/jdbc/PhoenixEmbeddedDriver.java:244-275 | normalising fails exactly for no quorum anywhere, an unparseable port property, or a connectionless info with a port or root node |
| EmbeddedDriver.NormalizedShape | phoenix-core/src/main/java/org/apache/phoenix/jdbc/PhoenixEmbeddedDriver.java:244-288 | the result has a quorum, no empty keytab and no principal without a keytab, and keeps the quorum, port and root node that were set |
| EmbeddedDriver.InheritedEqualsExplicit | phoenix-core/src/main/java/org/apache/phoenix/jdbc/PhoenixEmbeddedDriver.java:242-243 | a non-connectionless info normalises to the same result as an empty info whose properties are overridden by the info's own fields |
| EmbeddedDriver.NormalizeIdempotent | phoenix-core/src/main/java/org/apache/phoenix/jdbc/PhoenixEmbeddedDriver.java:236-289 | for an info with its own quorum and no empty keytab, normalising the result again changes nothing |
| EmbeddedDriver.InheritedConnectionless | phoenix-core/src/main/java/org/apache/phoenix/jdbc/PhoenixEmbeddedDriver.java:252-267 | whenever the properties give the connectionless quorum and a parseable port, the empty info normalises to one with that port, which cannot be normalised again |
| ConnectionUrl.Create | phoenix-core/src/main/java/org/apache/phoenix/jdbc/PhoenixEmbeddedDriver.java:168-234 | the tokenizer loop and the in-place shifts compute the parsing function |
| ConnectionUrl.PlaceFields | phoenix-core/src/main/java/org/apache/phoenix/jdbc/PhoenixEmbeddedDriver.java:183-228 | the port and shift table places the fields, and reports malformed exactly when the assembly fails |
| ConnectionUrl.CreateFields | phoenix-core/src/main/java/org/apache/phoenix/jdbc/PhoenixEmbeddedDriver.java:168-234 | protocol plus up to five separator-prefixed fields parses as assembling those fields |
| ConnectionUrl.TrailingSeparator | phoenix-core/src/main/java/org/apache/phoenix/jdbc/PhoenixEmbeddedDriver.java:174-186 | a lone trailing separator is accepted and ignored |
| ConnectionUrl.WithProperties | phoenix-core/src/main/java/org/apache/phoenix/jdbc/PhoenixEmbeddedDriver.java:174-185 | a terminator ends the fields, whatever follows it |
| ConnectionUrl.EmptyFieldMalformed | phoenix-core/src/main/java/org/apache/phoenix/jdbc/PhoenixEmbeddedDriver.java:174-181 | an empty field between delimiters is malformed |
| ConnectionUrl.TooManyFields | phoenix-core/src/main/java/org/apache/phoenix/jdbc/PhoenixEmbeddedDriver.java:174-186 | a sixth field is malformed |
| ConnectionUrl.NegativePortMalformed | phoenix-core/src/main/java/org/apache/phoenix/jdbc/PhoenixEmbeddedDriver.java:187-190 | a numeric second field below 0 is malformed |
| ConnectionUrl.KeytabAfterPort | phoenix-core/src/main/java/org/apache/phoenix/jdbc/PhoenixEmbeddedDriver.java:191-198 | four fields with a port: the third must end in ".keytab" and becomes the keytab, the fourth the principal, the root node null |
| ConnectionUrl.FifthFieldDropped | phoenix-core/src/main/java/org/apache/phoenix/jdbc/PhoenixEmbeddedDriver.java:199-225 | five fields with a non-numeric second: it must start with "/", becomes the root node, and the fifth field is lost |
| ConnectionUrl.PrefixNotChecked | phoenix-core/src/main/java/org/apache/phoenix/jdbc/PhoenixEmbeddedDriver.java:169 | `create` skips the protocol's length without checking what is there |
| EmbeddedDriver.ConnectionInfo.ToString | phoenix-core/src/main/java/org/apache/phoenix/jdbc/PhoenixEmbeddedDriver.java:394-400 | the text starts with the quorum (`null` when absent), ends with `:` and the principal when there is one, and is the quorum alone when no other field is set |
| ConnectionUrl.ToStringFields | phoenix-core/src/main/java/org/apache/phoenix/jdbc/PhoenixEmbeddedDriver.java:394-400 | `toString` is the quorum followed by each non-null field after a separator |
| ConnectionUrl.CreateRoundTrip | phoenix-core/src/main/java/org/apache/phoenix/jdbc/PhoenixEmbeddedDriver.java:168-234 | parsing the protocol, a separator and `toString` gives back any info whose fields parse back |
| ConnectionHash.HashCodeAsWritten | phoenix-core/src/main/java/org/apache/phoenix/jdbc/PhoenixEmbeddedDriver.java:358-368 | as written, `hashCode` can only fail with `NullPointerException`, and agrees with the intended hash when there is no principal or it equals the keytab |
| ConnectionHash.AsWrittenThrows | phoenix-core/src/main/java/org/apache/phoenix/jdbc/PhoenixEmbeddedDriver.java:358-368 | as written, `hashCode` throws exactly for a principal without a keytab |
| ConnectionHash.AsWrittenExample | phoenix-core/src/main/java/org/apache/phoenix/jdbc/PhoenixEmbeddedDriver.java:366 | quorum "localhost" with principal "user" and no keytab throws |
| ConnectionHash.AsWrittenIgnoresPrincipal | phoenix-core/src/main/java/org/apache/phoenix/jdbc/PhoenixEmbeddedDriver.java:366 | as written, the principal's text never changes the hash |
| ConnectionHash.HashCode | phoenix-core/src/main/java/org/apache/phoenix/jdbc/PhoenixEmbeddedDriver.java:358-368 | the intended hash is `Arrays.hashCode` of the five field hashes in wrapping `int` arithmetic |
| ConnectionHash.PrincipalCounts | phoenix-core/src/main/java/org/apache/phoenix/jdbc/PhoenixEmbeddedDriver.java:366 | in the intended hash, changing the principal changes the hash exactly when its string hash changes |

## Left out

- Driver plumbing is not modelled: `connect`, `getConnectionQueryServices`, the version getters, `getParentLogger` and the `Driver` interface.
- Logging is not modelled. Exceptions the source logs and swallows leave the state as the catch block leaves it.
- `ConvertTimezoneFunction`, `TIMEZONE_OFFSET`, the function factory classes and `bin/phoenix_utils.py` are not part of this model. The first two depend on `java.util.TimeZone`; the factories only pass the direction, which is a parameter here.
- The children/`Tuple`/`ImmutableBytesWritable` plumbing is not modelled: the server's `aggregate` takes the order bytes and the value bytes directly, in the order the code evaluates them.
- The clients' `messageFromRow` copy, which sizes the array by `ptr.getSize()`, is taken to copy exactly the message.
- The server's `toString` and `getSize` are not modelled, and neither are the containers' getters, which only read a field.
- The `try`/`catch` around the server's first `put` is not modelled: `put` on the model's map raises nothing.
- Exception messages are not modelled; only the exception kind is kept.
- `ClassNotFoundException` from `readObject` is not modelled; the stand-in codec reports failure as `IOException`.
- MapCodec.MapRoundTrip: Java object serialisation is replaced by a stand-in codec with the same round trip. The model proves nothing about the real byte format.
- `BinarySerializableComparator` is not part of this model and is taken to be the order of `Bytes.compareTo`, which the eviction code relies on.
- `FirstByLastByDataContainer` is not part of this model and is taken to have the layout of `FirstLastValueDataContainer`.
- `FirstLastValueOffsetDataContainer` is not part of this model and is taken to have the layout of `FirstByLastByOffsetDataContainer`.
- `PhoenixRuntime` is not part of this model. Its constants are taken as `jdbc:phoenix`, `:` as separator, `;` as terminator, `none` as the connectionless quorum and `test=true` as the test parameter.
- The property keys the driver reads are an enumeration, not strings, and `ReadOnlyProps` is a map.
- The containers' byte-array fields start empty here, not `null`.
- ValueContainer.FirstLastValueDataContainer.SetBytesMessage: after an exception part-way through, the contract states the two flags (set as far as the message was read, as in Java) but not the byte fields, which may already hold new zero-filled arrays.
- HexToBytes.Evaluate: only ASCII `0-9`, `a-f` and `A-F` are hex digits, whereas Java's `Integer.parseInt(_, 16)` uses `Character.digit`, which also accepts other Unicode decimal digits and the fullwidth letters; and the length is counted in characters where Java counts UTF-16 units, so a character outside the basic multilingual plane is an odd-length input here and a bad pair in Java. The model agrees with Java on every string that has no character outside the basic multilingual plane and no non-ASCII character `Character.digit` accepts.
- HexToBytes.HexDecodeOk: the success condition is stated for the ASCII hex digit set and for lengths in characters, with the same two gaps as HexToBytes.Evaluate.
- HexToBytes.DecodeFromOk: the same two gaps as HexToBytes.Evaluate, for the loop started at any even position.
- JavaLang.ParseInt: only ASCII digits are digits, whereas Java's `Character.digit` accepts other Unicode digits too.
- ConnectionHash.StringHash: hashes Dafny characters where Java hashes UTF-16 code units; the two agree on the basic multilingual plane.
- ClientMerge.NthWalk: the counter is an unbounded integer. Java's `counter--` wraps when `offset` is below `MIN_VALUE` plus the number of keys (for `offset` equal to `MIN_VALUE + 1`, at the second key); counting back down to 1 after the wrap would need more than 2^31 entries.
- `hashCode` is modelled only for the finding below; no other member uses it.
- These parsing quirks are modelled as written, not corrected:
  - a trailing lone separator is accepted;
  - `create` does not check the protocol prefix;
  - five fields with a non-numeric second field drop the fifth;
  - normalising an info that inherited the connectionless quorum is not idempotent.
- EmbeddedDriver.AcceptsURL and EmbeddedDriver.IsTestUrl are modelled for non-null URLs only; Java's `startsWith`/`endsWith` throw `NullPointerException` on a null URL, whereas `create` handles null explicitly.
- Concurrency of the scatter/gather around the aggregators lies outside these classes and is not modelled.

## Findings

| source | as written | input that shows it | evidently intended | confidence | as-written member | corrected member |
|---|---|---|---|---|---|---|
| phoenix-core/src/main/java/org/apache/phoenix/jdbc/PhoenixEmbeddedDriver.java:366 | the principal step tests `principal` for null but hashes `keytab` | an info with quorum "localhost", principal "user" and no keytab, as the five-argument constructor marked for testing allows; `create` and `normalize` never produce one | hash the principal, as the other four steps hash their own field | not executed | ConnectionHash.HashCodeAsWritten (ConnectionHash.AsWrittenThrows, ConnectionHash.AsWrittenExample) | ConnectionHash.HashCode (ConnectionHash.PrincipalCounts) |
