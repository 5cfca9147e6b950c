# Synthetic graph generators of the Cosmos DB graph bulk-executor sample

The sample loads a synthetic graph into a partitioned Cosmos DB graph collection.
It uses the external `GraphBulkExecutor` library to do so. The only logic of its
own is in `Utils`. `GenerateVertices(count)` first yields one deliberately
malformed vertex, whose id has 2000 characters and so breaks the store's
1000-character limit. It then yields `count` regular vertices numbered from 0.
`GenerateEdges(count)` yields the chain of edges `0 -> 1 -> ... -> count-1`.
The program imports the vertices and then the edges.

This project models those generators in Dafny:

- `Int64.dfy` models C# `long` and the two's-complement wrap-around of unchecked arithmetic.
- `Decimal.dfy` models `long.ToString()` for non-negative values (`FromNat`) and its inverse
  (`ToNat`). It proves both round trips, injectivity, and that a non-negative `long` has at most
  19 digits.
- `Gremlin.dfy` models `GremlinVertex` and `GremlinEdge` as values with an ordered list of
  (name, value) properties. `AddProperty` appends one pair. `PropertyValue` looks up a property
  by name.
- `Utils.dfy` has the generators. Each `yield return` loop becomes a method that runs the same
  loop, with the same `long` bound, and appends to a sequence. `GenerateVertices` is proved equal
  to the specification function `Vertices`. `GenerateEdges` is proved equal to `EdgesAsWritten`,
  and to `Edges` for every `count` except `long.MinValue` (see "## Findings"). The lemmas about
  `Edges` and `Vertices` state what the graph looks like:
  counts, element fields, ordering, distinct ids, which elements break the id limit, and that
  every edge endpoint is a generated vertex with a matching partition key.

The partition-key property name comes from the `CollectionPartitionKey` app setting. Here it is
the parameter `partitionKey`.

The design of the wider system centres on a partitioned bulk-import engine: routing,
batching, throttling, retry, scheduling and aggregation. None of that engine is in the
repository's source. It is the external `Microsoft.Azure.CosmosDB.BulkExecutor` library.
This model follows the code, so it covers only the generators the sample feeds into that engine.

## Model

| member | source | states |
|---|---|---|
| `Int64.Wrap` | GraphBulkExecutorSample/GraphBulkExecutorSample/Util.cs:103-105 | the result of unchecked `long` arithmetic is a `long` and is congruent to the exact result modulo 2^64; it equals the exact result when that fits in a `long` |
| `Int64.DecrementOfMinWraps` | GraphBulkExecutorSample/GraphBulkExecutorSample/Util.cs:73 | `long.MinValue - 1` wraps to `long.MaxValue` |
| `Decimal.FromNat` | GraphBulkExecutorSample/GraphBulkExecutorSample/Util.cs:78-79 | `i.ToString()` for `i >= 0` is a non-empty string of decimal digits with no leading zero; it starts with '0' exactly when `i` is 0 |
| `Decimal.ToNatFromNat` | GraphBulkExecutorSample/GraphBulkExecutorSample/Util.cs:76-79 | reading back the decimal rendering of `n` gives `n` |
| `Decimal.FromNatToNat` | GraphBulkExecutorSample/GraphBulkExecutorSample/Util.cs:100 | every canonical digit string (no leading zero) is the rendering of its own value, so rendering is onto the canonical strings |
| `Decimal.LeadingDigitPositive` | GraphBulkExecutorSample/GraphBulkExecutorSample/Util.cs:100 | a digit string that does not start with '0' denotes a positive number |
| `Decimal.FromNatInjective` | GraphBulkExecutorSample/GraphBulkExecutorSample/Util.cs:76-79 | two numbers have the same rendering if and only if they are equal |
| `Decimal.FromNatLength` | GraphBulkExecutorSample/GraphBulkExecutorSample/Util.cs:100 | a number below 10^d renders in at most d characters |
| `Decimal.LongLength` | GraphBulkExecutorSample/GraphBulkExecutorSample/Util.cs:100 | a non-negative `long` renders in at most 19 characters |
| `Gremlin.PropertyValue` | GraphBulkExecutorSample/GraphBulkExecutorSample/Util.cs:95-105 | a property lookup by name finds nothing if and only if no property has that name; otherwise it returns the value of the first property with that name |
| `Utils.LongId` | GraphBulkExecutorSample/GraphBulkExecutorSample/Util.cs:111-114 | `getLongId()` is 2000 '1' characters, over the 1000-character id limit |
| `Utils.Edges` | GraphBulkExecutorSample/GraphBulkExecutorSample/Util.cs:71-89 | `count - 1` edges when `count >= 1` and none otherwise; edge k has id "e"+k, label "knows", source id k, destination id k+1, both endpoint labels "vertex", partition keys k and k+1, and the single property ("duration", k) |
| `Utils.GenerateEdges` | GraphBulkExecutorSample/GraphBulkExecutorSample/Util.cs:71-89 | the `for` loop, bounded by `count - 1` evaluated as a `long`, that builds and appends one edge per iteration yields exactly `EdgesAsWritten(count)`, and `Edges(count)` whenever `count` is not `long.MinValue` |
| `Utils.EdgesAsWritten` | GraphBulkExecutorSample/GraphBulkExecutorSample/Util.cs:71-89 | the loop as written yields `max(b, 0)` edges, where `b` is the wrapped bound `count - 1`; edge k has id "e"+k, label "knows", source id k, destination id k+1, both endpoint labels "vertex", partition keys k and k+1, and the single property ("duration", k) |
| `Utils.Vertices` | GraphBulkExecutorSample/GraphBulkExecutorSample/Util.cs:91-109 | `max(count, 0) + 1` vertices; first the malformed one: id `getLongId()`, label "vertex", sole property (partition key, the `int` 0); then vertex k at position k+1: id k, label "vertex", properties in order partition key = k, name1 = "name"+k, name2 = k*2, name3 = k*3, name4 = k+100, each a `long` |
| `Utils.GenerateVertices` | GraphBulkExecutorSample/GraphBulkExecutorSample/Util.cs:91-109 | building the malformed vertex and then running the `for` loop that appends one vertex per iteration yields exactly `Vertices(count, partitionKey)` |
| `Utils.VertexPartitionKeys` | GraphBulkExecutorSample/GraphBulkExecutorSample/Util.cs:95-101 | looking up the partition-key property gives the `int` 0 on the malformed vertex and k on regular vertex k |
| `Utils.VertexDerivedValues` | GraphBulkExecutorSample/GraphBulkExecutorSample/Util.cs:103-105 | while `3 * (count - 1)` fits in a `long`, name2, name3 and name4 hold exactly 2k, 3k and k+100 |
| `Utils.EdgeIdsEncodeIndex` | GraphBulkExecutorSample/GraphBulkExecutorSample/Util.cs:73-76 | edge k's id is 'e' followed by digits whose value is k, so edges come out in strictly increasing index order |
| `Utils.EdgeIdsDistinct` | GraphBulkExecutorSample/GraphBulkExecutorSample/Util.cs:73-76 | no two edges share an id |
| `Utils.VertexIdsDistinct` | GraphBulkExecutorSample/GraphBulkExecutorSample/Util.cs:94-100 | no two vertices share an id, the malformed one included |
| `Utils.OnlyFirstVertexOverIdLimit` | GraphBulkExecutorSample/GraphBulkExecutorSample/Util.cs:93-100 | the first vertex's id is over the 1000-character limit; every other vertex id and every edge id is within it |
| `Utils.EdgeEndpoints` | GraphBulkExecutorSample/GraphBulkExecutorSample/Util.cs:75-83 | the endpoints of edge k are regular vertices k and k+1, with matching label and partition key; neither is the malformed vertex |
| `Utils.EdgesReferToVertices` | GraphBulkExecutorSample/GraphBulkExecutorSample/Util.cs:75-101 | for the same `count`, every edge's source and destination name a regular generated vertex with the edge's endpoint label and partition-key value; the malformed vertex is never an endpoint |
| `Utils.EdgeLoopBoundAsWritten` | GraphBulkExecutorSample/GraphBulkExecutorSample/Util.cs:73 | the loop bound `count - 1` evaluated as a `long` is a `long`, and it is exactly `count - 1` unless `count` is `long.MinValue` |
| `Utils.EdgesAsWrittenAgree` | GraphBulkExecutorSample/GraphBulkExecutorSample/Util.cs:73 | for every `count` except `long.MinValue`, the loop as written yields the same edges as the intended bound |
| `Utils.EdgesAsWrittenDangleAtMinValue` | GraphBulkExecutorSample/GraphBulkExecutorSample/Util.cs:73 | at `count = long.MinValue` the loop as written yields `long.MaxValue` edges instead of none, and edge 0 names a vertex id that `GenerateVertices` does not yield |

## Left out

- Everything in `Program.cs` is left out: configuration reading, client construction, database and collection set-up and clean-up, the retry-option changes around executor start-up, and the two `BulkImportAsync` calls. These are network calls and calls into a library whose code is not in the repository.
- The bulk-import engine (partition routing, batching, throttling and retry, concurrent scheduling, result aggregation) is not modelled. It is the external `Microsoft.Azure.CosmosDB.BulkExecutor` library and none of it is in the source.
- The console summary is left out. It is floating-point division and rounding over figures the library supplies.
- `CreateErrorDump` is left out because it only writes files.
- `Utils.GetCollectionIfExists`, `Utils.GetDatabaseIfExists` and `Utils.CreatePartitionedCollectionAsync` are left out. They are queries and asynchronous calls against the remote store.
- Laziness of `yield return` is not modelled. Each generator builds the whole finite sequence, so the model says nothing about when an element is produced relative to its consumer.
- `AddProperty` is modelled as appending a (name, value) pair. The library's handling of a repeated property name (multi-value properties) is not modelled.
- `Gremlin.PropertyValue` returns the first property with the given name. If `CollectionPartitionKey` is one of "name1" to "name4", every regular vertex gets two properties of that name: the partition key first, then the derived value. `Utils.VertexPartitionKeys` and `Utils.EdgesReferToVertices` still hold in that case only because the lookup takes the first match. How the library and the store resolve such a collision is not modelled.
- The partition-key property name is a parameter, not read from configuration.
- `Decimal.FromNat` renders only non-negative numbers. The generators never render a negative one, because every rendered value is a loop index or an index plus one.
- Utils.VertexDerivedValues: states exact values only while `3 * (count - 1)` fits in a `long`. Above that, `Vertices` keeps the wrap-around the C# code performs, via `Int64.Wrap`.

## Findings

| source | as written | input that shows it | evidently intended | confidence | as-written member | corrected member |
|---|---|---|---|---|---|---|
| GraphBulkExecutorSample/GraphBulkExecutorSample/Util.cs:73 | the loop bound `count - 1` is unchecked `long` arithmetic; at `count = long.MinValue` it wraps to `long.MaxValue`, so the loop yields 2^63 - 1 edges | `GenerateEdges(long.MinValue)` together with `GenerateVertices(long.MinValue)`, which yields only the malformed vertex | no edges when `count <= 1`, so every edge endpoint is a generated vertex | not executed; unchecked C# arithmetic, reachable only at `long.MinValue` | `Utils.EdgesAsWrittenDangleAtMinValue` | `Utils.EdgesReferToVertices` |
