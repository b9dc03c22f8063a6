# Data primitives of an ordered key-value store, in Dafny

This project models the data primitives of the storage layer (package
`proto`). The model covers five pieces:

- **Keys.** Byte strings of at most `KeyMaxLength` bytes, in unsigned
  byte-lexicographic order (`Compare`, `Less`, `Equal`). `Next` gives the
  successor, `Prev` the predecessor and `PrefixEnd` the end of a prefix range.
- **Timestamps.** Pairs (`WallTime`, `Logical`), ordered by wall time first.
- **Values.** A class with a bytes field, an integer field and a checksum that
  `InitChecksum` stamps and `Verify` checks.
- **GC metadata.** The elapsed-bucket count behind `EstimatedBytes`.
- **NodeList.** A class holding a set of node IDs with `Add`, `Contains` and
  `GetNodes`.

The only file this model draws on is `proto/data_test.go`. It states the
behaviour case by case. The implementation file is not part of this model. So
each operation is defined to satisfy every case in the test, and the general
properties are then proved over all inputs.

Files:

- `base.dfy`: Go's `int32`/`int64`, the `Option`, `Result` and `Outcome`
  types, and Go's wrapping int64 addition.
- `keys.dfy`: the key operations.
- `key_cases.dfy`: the key test tables.
- `timestamp.dfy`: timestamps.
- `value.dfy`: values and checksums.
- `gc_metadata.dfy`: `GCMetadata.EstimatedBytes`.
- `node_list.dfy`: `NodeList`.

Modelling decisions:

- A nil key and an empty key are both `[]`, so `Key(nil)` equals `Key("")`.
- `KeyMaxLength` is 4096. The test only needs it to be at least 9.
- `Prev` returns `Failure(NoPredecessor)` on `KeyMin`, where Go panics, and
  `Failure(KeyTooLong)` on a key longer than `KeyMaxLength`, which lies outside
  the bounded key space.
- `PrefixEnd` follows the test table. The last byte is incremented with carry
  and the key keeps its length: `{0x00, 0xff}` gives `{0x01, 0x00}`. A
  strip-then-increment reading ("drop the trailing 0xff bytes, then increment
  the last byte left") would give `{0x01}` instead. The test pins the carrying
  form, so the model follows the test (see Findings).
- The checksum is an ideal digest: the triple (key, bytes field, integer
  field). It is injective by construction. That is the assumption the
  wrong-key and changed-content properties rest on.
- `NodeList` keeps its IDs in a strictly increasing sequence, which the test
  permits. Searching it by binary search is this model's own choice.
- `EstimatedBytes` takes the current time in nanoseconds, matching
  `time.Unix(i, 0)`. Go's truncating division is written out as `GoDiv`.

## Model

| member | source | states |
|---|---|---|
| `Keys.Compare` | proto/data_test.go:121-139 | Compare returns only -1, 0 or 1 |
| `Keys.CompareMeaning` | proto/data_test.go:121-139 | Compare(a, b) is 0 exactly when a == b, -1 exactly when a comes first in the positional lexicographic order (a proper prefix, or a smaller first differing byte), and 1 exactly when b comes first |
| `Keys.CompareAntisymmetric` | proto/data_test.go:126-132 | Compare(a, b) == -Compare(b, a) |
| `Keys.LessTrichotomy` | proto/data_test.go:103-119 | Less is irreflexive and asymmetric, and any two keys are related by Less or are equal |
| `Keys.LessTransitive` | proto/data_test.go:103-119 | Less is transitive |
| `Keys.Less` | proto/data_test.go:103-119 | Less(a, b) holds exactly when a comes first in the positional lexicographic order |
| `Keys.Equal` | proto/data_test.go:92-101 | Equal(a, b) holds exactly when Compare(a, b) is 0 |
| `Keys.LessIffCompareMinusOne` | proto/data_test.go:103-139 | Less holds exactly when Compare returns -1 |
| `Keys.KeyMaxIsMaximum` | proto/data_test.go:75-79 | every key of at most KeyMaxLength bytes is KeyMax or below it |
| `Keys.Next` | proto/data_test.go:33-57 | Next(k) is one byte longer than k, is greater than k and not equal to it |
| `Keys.NextIsImmediateSuccessor` | proto/data_test.go:33-41 | k < m exactly when m is Next(k) or above it: no key lies strictly between k and Next(k) |
| `Keys.Prev` | proto/data_test.go:163-217 | Prev fails exactly on KeyMin (no predecessor) and on keys longer than KeyMaxLength (too long); otherwise its result is below k and no longer than KeyMaxLength |
| `Keys.PrevIsImmediatePredecessor` | proto/data_test.go:163-211 | for keys of at most KeyMaxLength bytes, m < k exactly when m is Prev(k) or below it: Prev(k) is the greatest bounded key below k |
| `Keys.PrevOfNext` | proto/data_test.go:168-169 | Prev(Next(k)) succeeds with k when k is shorter than KeyMaxLength, and reports the over-long key otherwise |
| `Keys.Increment` | proto/data_test.go:76-83 | incrementing with carry fails exactly on all-0xff keys and otherwise keeps the length |
| `Keys.IncrementIsPaddedStrip` | proto/data_test.go:80-83 | the carried increment equals the tight end padded with zero bytes back to the key's length |
| `Keys.PrefixEnd` | proto/data_test.go:60-89 | PrefixEnd(KeyMin) is KeyMax; every other key keeps its length; an all-0xff key is a fixed point |
| `Keys.PrefixEndIsUpperBound` | proto/data_test.go:60-69 | for a key k that is neither empty nor all 0xff, every key with prefix k lies below PrefixEnd(k), and the tight end is at most PrefixEnd(k) |
| `Keys.PrefixEndAboveNext` | proto/data_test.go:61-69 | k < PrefixEnd(k) and Next(k) < PrefixEnd(k) for non-empty keys that are not all 0xff |
| `Keys.PrefixEndOfKeyMin` | proto/data_test.go:75 | every bounded key other than KeyMax lies below PrefixEnd(KeyMin) |
| `Keys.PrefixEndAdmitsNonPrefixKey` | proto/data_test.go:82 | {0x01} lies in [{0x00, 0xff}, PrefixEnd({0x00, 0xff})) without having {0x00, 0xff} as a prefix |
| `Keys.StripAndIncrement` | proto/data_test.go:80-83 | stripping trailing 0xff bytes and incrementing fails exactly on all-0xff keys; otherwise it keeps the bytes before the incremented position and leaves only 0xff bytes behind it |
| `Keys.TightPrefixEnd` | proto/data_test.go:75-79 | the corrected prefix end: KeyMax for KeyMin, a fixed point on all-0xff keys, never longer than a non-empty key |
| `Keys.TightPrefixEndBoundsPrefixRange` | proto/data_test.go:60-89 | for a key k that is not empty and not all 0xff, m has prefix k exactly when k <= m < TightPrefixEnd(k) |
| `KeyCases.NextCases` | proto/data_test.go:33-57 | every Next case of the test table, and "a" < Next("a") |
| `KeyCases.PrefixEndFixedCases` | proto/data_test.go:75-79 | PrefixEnd of KeyMin is KeyMax, and {0xff}, {0xff, 0xff} and KeyMax are fixed points |
| `KeyCases.PrefixEndIncrementCases` | proto/data_test.go:76-83 | the incrementing and carrying PrefixEnd cases of the test table |
| `KeyCases.PrefixEndAboveCases` | proto/data_test.go:61-69 | "a1" and Next("a1") lie below PrefixEnd("a1") |
| `KeyCases.OrderCases` | proto/data_test.go:92-139 | every Equal, Less and Compare case of the tests |
| `KeyCases.PrevDropCases` | proto/data_test.go:163-217 | the Prev cases that drop a trailing zero, and Prev(KeyMin) failing |
| `KeyCases.PrevPadCases` | proto/data_test.go:170-183 | the Prev cases padded with 0xff up to KeyMaxLength |
| `KeyCases.PrevFullLengthCases` | proto/data_test.go:184-197 | the Prev cases on full-length keys, including KeyMax |
| `Timestamps.Rank` | proto/data_test.go:236-266 | the reference order: a timestamp's rank puts WallTime in the high bits and the shifted logical counter in the low 32 bits |
| `Timestamps.RankOrdersFields` | proto/data_test.go:236-266 | comparing wall time first and the logical counter second is comparing ranks, and equal fields are equal ranks |
| `Timestamps.Less` | proto/data_test.go:236-250 | Timestamp.Less holds exactly when the first rank is below the second |
| `Timestamps.Equal` | proto/data_test.go:252-266 | Timestamp.Equal holds exactly when the ranks are equal, and exactly when the timestamps are equal |
| `Timestamps.LessIsStrictTotalOrder` | proto/data_test.go:236-250 | Less is irreflexive, asymmetric, total up to Equal and transitive |
| `Timestamps.ZeroIsLeastNonNegative` | proto/data_test.go:237-244 | the zero timestamp is below every other timestamp with non-negative fields |
| `Timestamps.TimestampCases` | proto/data_test.go:236-266 | {0,0} equals itself and is not below itself, {0,0} < {1,0} < {1,1}, and those pairs are not Equal |
| `Base.WrapAdd64` | proto/data_test.go:354 | Go's int64 addition agrees with exact addition modulo 2^64, and equals it when there is no overflow |
| `Base.IncrementChanges` | proto/data_test.go:342-357 | i + 1 with wrap-around differs from i for every int64, and MaxInt64 + 1 is MinInt64 |
| `Values.ComputeChecksum` | proto/data_test.go:284-304 | the checksum binds the key, and a set integer (0 included) or set bytes never share a checksum with the same value unset |
| `Values.ChecksumIsInjective` | proto/data_test.go:329-337 | two checksums agree exactly when key, bytes and integer all agree |
| `Values.Value.Verify` | proto/data_test.go:268-359 | both fields set fails with the invalid-union error; an unstamped value passes; a stamped value passes exactly when the stamp covers this key and the current content, and otherwise fails with a checksum mismatch |
| `Values.Value.InitChecksum` | proto/data_test.go:316-331 | stamps the checksum of the key and current content; afterwards Verify passes for that key (unless both fields are set) and fails for every other key |
| `Values.VerifyRejectsChangedContent` | proto/data_test.go:333-337 | after the content changes, Verify fails for the key the value was stamped with |
| `Values.VerifyRejectsIncrementedInteger` | proto/data_test.go:353-357 | replacing a stamped integer i by i + 1 (wrapping) makes Verify fail, for every int64 |
| `Values.BothSetScenario` | proto/data_test.go:268-274 | a value with both fields set fails Verify before and after stamping |
| `Values.EmptyValueScenario` | proto/data_test.go:306-320 | an empty value verifies for any key before stamping and for its key after |
| `Values.BytesScenario` | proto/data_test.go:322-338 | a stamped bytes value verifies for its key, fails for another key, and fails after its bytes change |
| `Values.IntegerScenario` | proto/data_test.go:340-359 | a stamped integer value verifies for its key, fails for another key, and fails after the integer becomes i + 1, for every int64 |
| `GC.GoDiv` | proto/data_test.go:368 | Go's division by a positive divisor rounds toward zero: q*b <= a < q*b + b for a non-negative dividend, q*b - b < a <= q*b for a negative one |
| `GC.BucketNanos` | proto/data_test.go:362-366 | the bucket width is the TTL in nanoseconds divided by the bucket count, truncated: positive, the buckets fit within the TTL, and one more nanosecond per bucket would overrun it |
| `GC.EstimatedBytes` | proto/data_test.go:361-372 | the estimate is between 0 and the bucket count; when positive, that many whole buckets have elapsed; when below the bucket count, the next bucket has not elapsed |
| `GC.EstimatedBytesMonotone` | proto/data_test.go:367-372 | the estimate never decreases as time passes |
| `GC.EstimatedBytesBounds` | proto/data_test.go:367-372 | the estimate is 0 before one bucket has elapsed, and the bucket count once the whole TTL has elapsed |
| `GC.TestMetadataEstimates` | proto/data_test.go:361-372 | with TTL 100 s, 10 buckets and LastGCNanos 0, the estimate at i seconds is Go's i / 10 for every -1 <= i < 110 |
| `Nodes.DistinctCount` | proto/data_test.go:403-406 | a sequence without repeats has exactly as many distinct values as elements |
| `Nodes.NodeList.Search` | proto/data_test.go:395 | binary search returns the first position whose node is not below n |
| `Nodes.NodeList.Contains` | proto/data_test.go:395-410 | Contains(n) is true exactly when n is in the list |
| `Nodes.NodeList.Add` | proto/data_test.go:399-402 | Add keeps the list strictly increasing, adds exactly n to its set of IDs, and leaves the list unchanged when n is already present |
| `Nodes.NodeList.GetNodes` | proto/data_test.go:403-406 | GetNodes has no duplicates, holds exactly the list's IDs, and its length is the number of distinct IDs |
| `Nodes.AddDownFrom` | proto/data_test.go:399-402 | adding items[i] down to items[0] adds exactly those IDs and keeps the list valid |
| `Nodes.AddEachScenario` | proto/data_test.go:390-411 | for distinct items, each item is absent before it is added; after it and every earlier item are added again, the list holds i + 1 nodes and contains the item |

## Left out

- `Key.String()` (proto/data_test.go:220-227): debug rendering, not modelled.
- Marshalling a value with `Integer = 0` through gogoproto
  (proto/data_test.go:284-304): this is a foreign wire encoding, not modelled.
  The model keeps integer 0 apart from an unset integer, because the integer
  field is an `Option`.
- The concrete checksum algorithm is not modelled. An ideal injective digest
  stands in for it.
- GC.EstimatedBytes: does not model the second argument (the current non-live
  bytes) or the prorated term it adds once the elapsed time exceeds the TTL
  (proto/data_test.go:374-385). That loop's expected values use `float64`, and
  the test does not pin the argument's role. A correction term of TTL times
  the prorated fraction would give 14 rather than 10 at 105 s in the first
  loop, so none is used. The model agrees with the test's first loop
  (proto/data_test.go:367-372).
- GC.EstimatedBytes: the subtraction `now - LastGCNanos` is exact here. Go's
  int64 subtraction could wrap for times about 292 years apart; that is not
  modelled.
- GC.EstimatedBytes: the bucket count it returns agrees with the test only
  because the test's `ByteCounts` are 10, 9, ..., 1. How the implementation
  reads `ByteCounts` is not part of this model.
- `rand.Perm` (proto/data_test.go:392): the NodeList scenario is stated for
  every sequence of distinct items instead.
- The implementation of NodeList is not part of this model. The sorted
  sequence and the binary search are this model's own choice; the test only
  observes membership and the number of distinct IDs.
- The `testing.T` harness, error formatting and concurrency are not modelled.
  Concurrent use of one `NodeList` or `Value` is left to callers.

## Findings

| source | as written | input that shows it | evidently intended | confidence | as-written member | corrected member |
|---|---|---|---|---|---|---|
| proto/data_test.go:82-83 | PrefixEnd increments with carry and keeps the key's length: {0x00, 0xff} becomes {0x01, 0x00} | k = {0x00, 0xff}, m = {0x01}: k <= m < PrefixEnd(k), yet m does not have prefix k, so a prefix scan over [k, PrefixEnd(k)) returns m | drop the carried bytes ({0x00, 0xff} becomes {0x01}), so that [k, PrefixEnd(k)) is exactly the keys with prefix k | medium, not executed | `Keys.PrefixEndAdmitsNonPrefixKey` | `Keys.TightPrefixEndBoundsPrefixRange` |
