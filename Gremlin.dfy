/** The graph elements the bulk importer consumes: `GremlinVertex` and
    `GremlinEdge` with their ordered (name, value) properties. Adding a
    property appends a pair; multi-value merging inside the library is not
    modelled. */
module Gremlin {

  datatype Option<T> = None | Some(value: T)

  /** A property value as the generators box it: an `int` literal, a `long`, or a string. */
  datatype Value = IntValue(i: int) | LongValue(n: int) | StringValue(s: string)

  datatype Property = Property(name: string, value: Value)

  datatype GremlinVertex = GremlinVertex(id: string, vertexLabel: string, properties: seq<Property>)
  {
    /** `GremlinVertex.AddProperty(name, value)`. */
    function AddProperty(name: string, value: Value): GremlinVertex {
      this.(properties := properties + [Property(name, value)])
    }
  }

  datatype GremlinEdge = GremlinEdge(
    id: string,
    edgeLabel: string,
    outVertexId: string,
    inVertexId: string,
    outVertexLabel: string,
    inVertexLabel: string,
    outVertexPartitionKey: Value,
    inVertexPartitionKey: Value,
    properties: seq<Property>)
  {
    /** `GremlinEdge.AddProperty(name, value)`. */
    function AddProperty(name: string, value: Value): GremlinEdge {
      this.(properties := properties + [Property(name, value)])
    }
  }

  /** The value of the first property called `name`, if there is one. */
  function PropertyValue(props: seq<Property>, name: string): (r: Option<Value>)
    ensures r.None? <==> forall i :: 0 <= i < |props| ==> props[i].name != name
    ensures r.Some? ==> exists i :: 0 <= i < |props| && props[i] == Property(name, r.value)
                                    && forall j :: 0 <= j < i ==> props[j].name != name
  {
    if props == [] then None
    else if props[0].name == name then Some(props[0].value)
    else
      var r := PropertyValue(props[1..], name);
      assert forall i :: 0 < i < |props| ==> props[i] == props[1..][i - 1];
      if r.Some? then
        var i :| 0 <= i < |props[1..]| && props[1..][i] == Property(name, r.value)
                 && forall j :: 0 <= j < i ==> props[1..][j].name != name;
        assert props[i + 1] == Property(name, r.value);
        r
      else r
  }
}
