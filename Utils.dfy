/** The synthetic graph the sample imports: a vertex generator and an edge
    generator over a counter. The lazy `yield return` iterators are modelled
    by methods that build the whole finite sequence with the same loop; the
    functions `Vertices` and `Edges` say what that sequence is. */
module Utils {
  import Int64
  import Decimal
  import opened Gremlin

  const VertexLabel: string := "vertex"
  const EdgeLabel: string := "knows"
  /** The store rejects documents whose id is longer than this. */
  const MaxIdLength: nat := 1000
  const LongIdLength: nat := 2000

  predicate IdWithinLimit(id: string) {
    |id| <= MaxIdLength
  }

  /** `getLongId()`: an id deliberately over the store's length limit. */
  function LongId(): (id: string)
    ensures |id| == LongIdLength && !IdWithinLimit(id)
    ensures forall i :: 0 <= i < |id| ==> id[i] == '1'
  {
    seq(LongIdLength, _ => '1')
  }

  // ---------------------------------------------------------------- edges

  /** How many edges the edge loop runs for (the loop bound is `count - 1`). */
  function EdgeCount(count: int): nat {
    if count <= 1 then 0 else count - 1
  }

  /** The edge built in iteration `k`: vertex k --knows--> vertex k+1. */
  function EdgeAt(k: nat): GremlinEdge {
    GremlinEdge("e" + Decimal.FromNat(k), EdgeLabel,
                Decimal.FromNat(k), Decimal.FromNat(k + 1),
                VertexLabel, VertexLabel,
                LongValue(k), LongValue(k + 1), [])
      .AddProperty("duration", LongValue(k))
  }

  /** Edge k joins vertex k to vertex k+1 and carries its index as "duration". */
  predicate IsEdgeOfIndex(e: GremlinEdge, k: nat) {
    && e.id == "e" + Decimal.FromNat(k)
    && e.edgeLabel == "knows"
    && e.outVertexId == Decimal.FromNat(k)
    && e.inVertexId == Decimal.FromNat(k + 1)
    && e.outVertexLabel == "vertex" && e.inVertexLabel == "vertex"
    && e.outVertexPartitionKey == LongValue(k)
    && e.inVertexPartitionKey == LongValue(k + 1)
    && e.properties == [Property("duration", LongValue(k))]
  }

  /** What `GenerateEdges(count)` yields, in order. */
  function Edges(count: int): (es: seq<GremlinEdge>)
    requires Int64.InRange(count)
    ensures count >= 1 ==> |es| == count - 1
    ensures count <= 1 ==> es == []
    ensures forall k :: 0 <= k < |es| ==> IsEdgeOfIndex(es[k], k)
  {
    var es := seq(EdgeCount(count), k requires 0 <= k => EdgeAt(k));
    assert forall k :: 0 <= k < |es| ==> es[k] == EdgeAt(k) && IsEdgeOfIndex(EdgeAt(k), k);
    es
  }

  /** `Utils.GenerateEdges(count)`: the counting loop, appending one edge per
      iteration, up to the bound `count - 1` as C# evaluates it. */
  method GenerateEdges(count: int) returns (edges: seq<GremlinEdge>)
    requires Int64.InRange(count)
    ensures edges == EdgesAsWritten(count)
    ensures count != Int64.MinValue ==> edges == Edges(count)
  {
    edges := [];
    var bound := EdgeLoopBoundAsWritten(count);
    var i := 0;
    while i < bound
      invariant 0 <= i && (i <= bound || i == 0)
      invariant |edges| == i
      invariant forall k :: 0 <= k < i ==> edges[k] == EdgeAt(k)
    {
      var e := GremlinEdge("e" + Decimal.FromNat(i), EdgeLabel,
                           Decimal.FromNat(i), Decimal.FromNat(i + 1),
                           VertexLabel, VertexLabel,
                           LongValue(i), LongValue(i + 1), []);
      e := e.AddProperty("duration", LongValue(i));
      edges := edges + [e];
      i := i + 1;
    }
    if count != Int64.MinValue {
      EdgesAsWrittenAgree(count);
    }
  }

  // ------------------------------------------------------------- vertices

  /** How many well-formed vertices the vertex loop emits. */
  function RegularVertexCount(count: int): nat {
    if count <= 0 then 0 else count
  }

  /** The vertex yielded first: over-long id, partition key the `int` literal 0. */
  function BadVertex(partitionKey: string): GremlinVertex {
    GremlinVertex(LongId(), VertexLabel, []).AddProperty(partitionKey, IntValue(0))
  }

  /** The vertex built in iteration `k`; `long` products wrap as in unchecked C#. */
  function VertexAt(k: nat, partitionKey: string): GremlinVertex {
    GremlinVertex(Decimal.FromNat(k), VertexLabel, [])
      .AddProperty(partitionKey, LongValue(k))
      .AddProperty("name1", StringValue("name" + Decimal.FromNat(k)))
      .AddProperty("name2", LongValue(Int64.Wrap(k * 2)))
      .AddProperty("name3", LongValue(Int64.Wrap(k * 3)))
      .AddProperty("name4", LongValue(Int64.Wrap(k + 100)))
  }

  /** Regular vertex k: id k, then the partition key and four derived properties, in that order. */
  predicate IsVertexOfIndex(v: GremlinVertex, k: nat, partitionKey: string) {
    && v.id == Decimal.FromNat(k)
    && v.vertexLabel == "vertex"
    && v.properties ==
         [Property(partitionKey, LongValue(k)),
          Property("name1", StringValue("name" + Decimal.FromNat(k))),
          Property("name2", LongValue(Int64.Wrap(k * 2))),
          Property("name3", LongValue(Int64.Wrap(k * 3))),
          Property("name4", LongValue(Int64.Wrap(k + 100)))]
  }

  /** What `GenerateVertices(count)` yields, in order, with the configured
      partition-key property name passed in as `partitionKey`. */
  function Vertices(count: int, partitionKey: string): (vs: seq<GremlinVertex>)
    requires Int64.InRange(count)
    ensures |vs| == (if count <= 0 then 0 else count) + 1
    ensures vs[0].id == LongId() && vs[0].vertexLabel == "vertex"
    ensures vs[0].properties == [Property(partitionKey, IntValue(0))]
    ensures forall j :: 1 <= j < |vs| ==> IsVertexOfIndex(vs[j], j - 1, partitionKey)
  {
    var regular := seq(RegularVertexCount(count), k requires 0 <= k => VertexAt(k, partitionKey));
    var vs := [BadVertex(partitionKey)] + regular;
    assert forall k :: 0 <= k < |regular| ==> IsVertexOfIndex(regular[k], k, partitionKey);
    assert forall j :: 1 <= j < |vs| ==> vs[j] == regular[j - 1];
    vs
  }

  /** `Utils.GenerateVertices(count)`: the malformed vertex, then the counting loop. */
  method GenerateVertices(count: int, partitionKey: string) returns (vertices: seq<GremlinVertex>)
    requires Int64.InRange(count)
    ensures vertices == Vertices(count, partitionKey)
  {
    var bad := GremlinVertex(LongId(), VertexLabel, []);
    bad := bad.AddProperty(partitionKey, IntValue(0));
    vertices := [bad];
    var i := 0;
    while i < count
      invariant 0 <= i <= RegularVertexCount(count)
      invariant |vertices| == i + 1 && vertices[0] == BadVertex(partitionKey)
      invariant forall k :: 0 <= k < i ==> vertices[k + 1] == VertexAt(k, partitionKey)
    {
      var v := GremlinVertex(Decimal.FromNat(i), VertexLabel, []);
      v := v.AddProperty(partitionKey, LongValue(i));
      v := v.AddProperty("name1", StringValue("name" + Decimal.FromNat(i)));
      v := v.AddProperty("name2", LongValue(Int64.Wrap(i * 2)));
      v := v.AddProperty("name3", LongValue(Int64.Wrap(i * 3)));
      v := v.AddProperty("name4", LongValue(Int64.Wrap(i + 100)));
      vertices := vertices + [v];
      i := i + 1;
    }
  }

  // ------------------------------------------------------------- the graph

  /** Some regular vertex (not the first, malformed one) has this id, label
      and partition-key value. */
  predicate NamesRegularVertex(vs: seq<GremlinVertex>, partitionKey: string, id: string, vertexLabel: string, key: Value) {
    exists j :: 1 <= j < |vs| && vs[j].id == id && vs[j].vertexLabel == vertexLabel
                && PropertyValue(vs[j].properties, partitionKey) == Some(key)
  }

  /** Every vertex's partition-key property is the first property of that name. */
  lemma VertexPartitionKeys(count: int, partitionKey: string)
    requires Int64.InRange(count)
    ensures var vs := Vertices(count, partitionKey);
      && PropertyValue(vs[0].properties, partitionKey) == Some(IntValue(0))
      && forall j :: 1 <= j < |vs| ==> PropertyValue(vs[j].properties, partitionKey) == Some(LongValue(j - 1))
  {
    var vs := Vertices(count, partitionKey);
    assert vs[0].properties[0].name == partitionKey;
    forall j | 1 <= j < |vs|
      ensures PropertyValue(vs[j].properties, partitionKey) == Some(LongValue(j - 1))
    {
      assert vs[j].properties[0] == Property(partitionKey, LongValue(j - 1));
    }
  }

  /** While `3 * i` fits in a `long` (so `2 * i` and `i + 100` do too), the
      derived properties hold the exact values 2k, 3k and k + 100. */
  lemma VertexDerivedValues(count: int, partitionKey: string)
    requires Int64.InRange(count)
    requires count <= 0 || 3 * (count - 1) <= Int64.MaxValue
    ensures var vs := Vertices(count, partitionKey);
      forall j :: 1 <= j < |vs| ==>
        && vs[j].properties[2] == Property("name2", LongValue(2 * (j - 1)))
        && vs[j].properties[3] == Property("name3", LongValue(3 * (j - 1)))
        && vs[j].properties[4] == Property("name4", LongValue(j - 1 + 100))
  {
  }

  /** Edge k's id is "e" followed by k in decimal, so reading the id back
      gives the index: edges are emitted in strictly increasing index order. */
  lemma EdgeIdsEncodeIndex(count: int)
    requires Int64.InRange(count)
    ensures var es := Edges(count);
      forall k :: 0 <= k < |es| ==>
        && |es[k].id| >= 2 && es[k].id[0] == 'e'
        && Decimal.IsDigits(es[k].id[1..]) && Decimal.ToNat(es[k].id[1..]) == k
  {
    var es := Edges(count);
    forall k | 0 <= k < |es|
      ensures |es[k].id| >= 2 && es[k].id[0] == 'e'
      ensures Decimal.IsDigits(es[k].id[1..]) && Decimal.ToNat(es[k].id[1..]) == k
    {
      assert es[k].id[1..] == Decimal.FromNat(k);
      Decimal.ToNatFromNat(k);
    }
  }

  /** No two edges share an id. */
  lemma EdgeIdsDistinct(count: int)
    requires Int64.InRange(count)
    ensures var es := Edges(count);
      forall j, k :: 0 <= j < |es| && 0 <= k < |es| && j != k ==> es[j].id != es[k].id
  {
    var es := Edges(count);
    forall j, k | 0 <= j < |es| && 0 <= k < |es| && j != k
      ensures es[j].id != es[k].id
    {
      assert es[j].id[1..] == Decimal.FromNat(j);
      assert es[k].id[1..] == Decimal.FromNat(k);
      Decimal.FromNatInjective(j, k);
    }
  }

  /** No two vertices share an id: the malformed id is longer than any
      rendered `long`, and the regular ids are distinct renderings. */
  lemma VertexIdsDistinct(count: int, partitionKey: string)
    requires Int64.InRange(count)
    ensures var vs := Vertices(count, partitionKey);
      forall i, j :: 0 <= i < |vs| && 0 <= j < |vs| && i != j ==> vs[i].id != vs[j].id
  {
    var vs := Vertices(count, partitionKey);
    forall i, j | 0 <= i < |vs| && 0 <= j < |vs| && i != j
      ensures vs[i].id != vs[j].id
    {
      if i == 0 {
        Decimal.LongLength(j - 1);
      } else if j == 0 {
        Decimal.LongLength(i - 1);
      } else {
        Decimal.FromNatInjective(i - 1, j - 1);
      }
    }
  }

  /** The first vertex is the only generated element whose id breaks the
      store's length limit. */
  lemma OnlyFirstVertexOverIdLimit(count: int, partitionKey: string)
    requires Int64.InRange(count)
    ensures var vs, es := Vertices(count, partitionKey), Edges(count);
      && !IdWithinLimit(vs[0].id)
      && (forall j :: 1 <= j < |vs| ==> IdWithinLimit(vs[j].id))
      && (forall k :: 0 <= k < |es| ==> IdWithinLimit(es[k].id))
  {
    var vs, es := Vertices(count, partitionKey), Edges(count);
    forall j | 1 <= j < |vs| ensures IdWithinLimit(vs[j].id) {
      Decimal.LongLength(j - 1);
    }
    forall k | 0 <= k < |es| ensures IdWithinLimit(es[k].id) {
      Decimal.LongLength(k);
    }
  }

  /** Edge k's endpoints are regular vertices k and k+1 (positions k+1 and
      k+2), whose ids the malformed vertex does not share. */
  lemma EdgeEndpoints(count: int, partitionKey: string, k: nat)
    requires Int64.InRange(count) && k < |Edges(count)|
    ensures var vs, e := Vertices(count, partitionKey), Edges(count)[k];
      && NamesRegularVertex(vs, partitionKey, e.outVertexId, e.outVertexLabel, e.outVertexPartitionKey)
      && NamesRegularVertex(vs, partitionKey, e.inVertexId, e.inVertexLabel, e.inVertexPartitionKey)
      && vs[0].id != e.outVertexId && vs[0].id != e.inVertexId
  {
    var vs, e := Vertices(count, partitionKey), Edges(count)[k];
    assert IsEdgeOfIndex(e, k);
    assert IsVertexOfIndex(vs[k + 1], k, partitionKey);
    assert IsVertexOfIndex(vs[k + 2], k + 1, partitionKey);
    assert vs[k + 1].properties[0].name == partitionKey;
    assert vs[k + 2].properties[0].name == partitionKey;
    Decimal.LongLength(k);
    Decimal.LongLength(k + 1);
  }

  /** Referential closure: for the same `count`, both endpoints of every edge
      are regular vertices with the edge's endpoint label and partition key,
      and the malformed vertex is never an endpoint. */
  lemma EdgesReferToVertices(count: int, partitionKey: string)
    requires Int64.InRange(count)
    ensures var vs, es := Vertices(count, partitionKey), Edges(count);
      forall e :: e in es ==>
        && NamesRegularVertex(vs, partitionKey, e.outVertexId, e.outVertexLabel, e.outVertexPartitionKey)
        && NamesRegularVertex(vs, partitionKey, e.inVertexId, e.inVertexLabel, e.inVertexPartitionKey)
        && vs[0].id != e.outVertexId && vs[0].id != e.inVertexId
  {
    var es := Edges(count);
    forall e | e in es
      ensures var vs := Vertices(count, partitionKey);
        && NamesRegularVertex(vs, partitionKey, e.outVertexId, e.outVertexLabel, e.outVertexPartitionKey)
        && NamesRegularVertex(vs, partitionKey, e.inVertexId, e.inVertexLabel, e.inVertexPartitionKey)
        && vs[0].id != e.outVertexId && vs[0].id != e.inVertexId
    {
      var k :| 0 <= k < |es| && es[k] == e;
      EdgeEndpoints(count, partitionKey, k);
    }
  }

  // --------------------------------------- the edge loop bound as written

  /** The edge loop's bound `count - 1`, evaluated as unchecked `long`
      arithmetic: it wraps when `count` is the smallest `long`. */
  function EdgeLoopBoundAsWritten(count: int): (b: int)
    requires Int64.InRange(count)
    ensures Int64.InRange(b)
    ensures count > Int64.MinValue ==> b == count - 1
  {
    Int64.Wrap(count - 1)
  }

  /** The edges the loop as written yields: one per iteration below the
      wrapped bound, edge k built as in `Edges`. */
  function EdgesAsWritten(count: int): (es: seq<GremlinEdge>)
    requires Int64.InRange(count)
    ensures EdgeLoopBoundAsWritten(count) >= 0 ==> |es| == EdgeLoopBoundAsWritten(count)
    ensures EdgeLoopBoundAsWritten(count) <= 0 ==> es == []
    ensures forall k :: 0 <= k < |es| ==> IsEdgeOfIndex(es[k], k)
  {
    var b := EdgeLoopBoundAsWritten(count);
    var es := seq(if b <= 0 then 0 else b, k requires 0 <= k => EdgeAt(k));
    assert forall k :: 0 <= k < |es| ==> es[k] == EdgeAt(k) && IsEdgeOfIndex(EdgeAt(k), k);
    es
  }

  /** Except at the smallest `long`, the code as written yields `Edges(count)`. */
  lemma EdgesAsWrittenAgree(count: int)
    requires Int64.InRange(count) && count != Int64.MinValue
    ensures EdgesAsWritten(count) == Edges(count)
  {
  }

  /** At the smallest `long`, the bound wraps to the largest one: the loop
      yields 2^63 - 1 edges while the vertex generator yields only the
      malformed vertex, so edge 0 names a vertex that is never generated. */
  lemma EdgesAsWrittenDangleAtMinValue(partitionKey: string)
    ensures |EdgesAsWritten(Int64.MinValue)| == Int64.MaxValue
    ensures |Edges(Int64.MinValue)| == 0
    ensures forall v :: v in Vertices(Int64.MinValue, partitionKey) ==>
      v.id != EdgesAsWritten(Int64.MinValue)[0].outVertexId
  {
    Int64.DecrementOfMinWraps();
    var es := EdgesAsWritten(Int64.MinValue);
    assert es[0].outVertexId == "0";
  }
}
