/** readGraph: the graph built from the input, one edge per input line,
    one vertex per label the lines mention. */
module Input {
  import opened Graph
  import opened MaxFlow

  /** One input line "u v c": an edge of capacity c from label u to label v. */
  datatype Line = Line(from: char, to: char, capacity: int)

  /** The labels the lines mention, at either end of an edge. */
  function Labels(lines: seq<Line>): set<char> {
    if lines == [] then {}
    else Labels(lines[..|lines| - 1]) + {lines[|lines| - 1].from, lines[|lines| - 1].to}
  }

  /** A label is in `Labels(lines)` exactly when some line names it at
      either end. */
  lemma {:induction false} LabelsExactly(lines: seq<Line>, c: char)
    ensures c in Labels(lines) <==>
      exists k :: 0 <= k < |lines| && (lines[k].from == c || lines[k].to == c)
    decreases |lines|
  {
    if lines != [] {
      var init := lines[..|lines| - 1];
      LabelsExactly(init, c);
      if c in Labels(init) {
        var k :| 0 <= k < |init| && (init[k].from == c || init[k].to == c);
        assert lines[k] == init[k];
      }
      if !(c in Labels(init)) && c in Labels(lines) {
        assert lines[|lines| - 1].from == c || lines[|lines| - 1].to == c;
      }
      if exists k :: 0 <= k < |lines| && (lines[k].from == c || lines[k].to == c) {
        var k :| 0 <= k < |lines| && (lines[k].from == c || lines[k].to == c);
        if k < |init| {
          assert init[k] == lines[k];
        }
      }
    }
  }

  /** `ids` is the map from label to vertex (readGraph's `vertices`), and
      every vertex is in it under its own label. */
  predicate Labelled(ids: map<char, nat>, names: seq<char>) {
    (forall c :: c in ids ==> ids[c] < |names| && names[ids[c]] == c) &&
    (forall v :: 0 <= v < |names| ==> names[v] in ids)
  }

  /** Edge `k` is the one read from line `k`, as it was read. */
  predicate ReadAs(names: seq<char>, edges: seq<Edge>, k: nat, line: Line)
    requires k < |edges|
  {
    edges[k].source < |names| && edges[k].target < |names| &&
    names[edges[k].source] == line.from && names[edges[k].target] == line.to &&
    edges[k].capacity == line.capacity && edges[k].flow == 0 &&
    !edges[k].isReverse && edges[k].reverse.None?
  }

  /** `vertices[c]` with a new Vertex for a label not seen yet. */
  method VertexFor(c: char, ids: map<char, nat>, names: seq<char>, adj: seq<seq<nat>>,
                   ghost edges: seq<Edge>)
    returns (v: nat, ids': map<char, nat>, names': seq<char>, adj': seq<seq<nat>>)
    requires WellFormed(names, adj, edges) && Labelled(ids, names)
    ensures WellFormed(names', adj', edges) && Labelled(ids', names')
    ensures ids'.Keys == ids.Keys + {c} && c in ids' && v == ids'[c]
    ensures names <= names' && (c in ids ==> names' == names && adj' == adj)
    ensures c !in ids ==> names' == names + [c] && adj' == adj + [[]]
  {
    if c in ids {
      v, ids', names', adj' := ids[c], ids, names, adj;
    } else {
      assert c !in names;
      AddVertexWellFormed(names, adj, edges, c);
      v := |names|;
      ids', names', adj' := ids[c := v], names + [c], adj + [[]];
    }
  }

  /** The edge appended to the arena, inserted into its source's edge set,
      keeps the graph well formed. */
  lemma NewEdgeSorted(names: seq<char>, adj: seq<seq<nat>>, edges: seq<Edge>, edges': seq<Edge>, u: nat)
    requires WellFormed(names, adj, edges) && u < |names|
    requires |edges'| == |edges| + 1 && edges'[..|edges|] == edges && edges'[|edges|].source == u
    requires edges'[|edges|].target < |names|
    ensures SortedEdges(names, edges', adj[u]) && ValidEdge(names, edges', |edges|)
    ensures WellFormed(names, adj[u := InsertEdge(names, edges', adj[u], |edges|)], edges')
  {
    assert SameEndpoints(edges, edges') by {
      forall x | 0 <= x < |edges| ensures edges'[x] == edges[x] {
        assert edges'[..|edges|][x] == edges[x];
      }
    }
    SortedEdgesStable(names, edges, names, edges', adj[u]);
    var ins := InsertEdge(names, edges', adj[u], |edges|);
    AddEdgeWellFormed(names, adj, edges, edges', ins);
  }

  /** One pass of readGraph's loop: the vertices of both labels, looked
      up or created, and the new edge appended to the arena and inserted
      into its source's edge set. */
  method ReadLine(line: Line, ids: map<char, nat>, names: seq<char>, adj: seq<seq<nat>>,
                  edges: seq<Edge>)
    returns (ids': map<char, nat>, names': seq<char>, adj': seq<seq<nat>>, edges': seq<Edge>)
    requires WellFormed(names, adj, edges) && Labelled(ids, names)
    ensures WellFormed(names', adj', edges') && Labelled(ids', names')
    ensures ids'.Keys == ids.Keys + {line.from, line.to} && names <= names'
    ensures |edges'| == |edges| + 1 && edges'[..|edges|] == edges
    ensures ReadAs(names', edges', |edges|, line)
  {
    var u, w;
    u, ids', names', adj' := VertexFor(line.from, ids, names, adj, edges);
    w, ids', names', adj' := VertexFor(line.to, ids', names', adj', edges);
    var e := |edges|;
    edges' := edges + [Edge(u, w, line.capacity, 0, false, None)];
    NewEdgeSorted(names', adj', edges, edges', u);
    adj' := adj'[u := InsertEdge(names', edges', adj'[u], e)];
    assert ids'.Keys == ids.Keys + {line.from, line.to};
    assert names <= names';
  }

  /** The loop at the end of readGraph: every vertex inserted into the
      label-ordered vertex set, which then holds each vertex once, in
      label order. */
  method VertexSet(names: seq<char>) returns (order: seq<nat>)
    requires DistinctNames(names)
    ensures VertexOrder(names, order)
  {
    order := [];
    for v := 0 to |names|
      invariant forall i :: 0 <= i < |order| ==> order[i] < |names|
      invariant forall i, j :: 0 <= i < j < |order| ==> names[order[i]] < names[order[j]]
      invariant forall y: nat :: y in order <==> y < v
    {
      order := InsertVertex(names, order, v);
    }
  }

  /** readGraph on the labels of the source and the target and the input
      lines: None when the source or the target label appears on no line
      (`vertices.at` throws), otherwise the graph with one new vertex per
      label in order of first mention, one edge per line in input order,
      each vertex's edges in set order and the vertex set in label order. */
  method ReadGraph(sourceName: char, targetName: char, lines: seq<Line>)
    returns (graph: Option<Network>)
    ensures graph.None? <==> sourceName !in Labels(lines) || targetName !in Labels(lines)
    ensures graph.Some? ==>
      var g := graph.value;
      fresh(g) && fresh(g.inPath) && g.Valid() && g.AsRead() &&
      (forall c :: c in g.names <==> c in Labels(lines)) &&
      g.names[g.source] == sourceName && g.names[g.target] == targetName &&
      |g.edges| == |lines| &&
      forall k :: 0 <= k < |lines| ==> ReadAs(g.names, g.edges, k, lines[k])
  {
    var ids: map<char, nat> := map[];
    var names: seq<char> := [];
    var adj: seq<seq<nat>> := [];
    var edges: seq<Edge> := [];
    for i := 0 to |lines|
      invariant WellFormed(names, adj, edges) && Labelled(ids, names)
      invariant ids.Keys == Labels(lines[..i]) && |edges| == i
      invariant forall k :: 0 <= k < i ==> ReadAs(names, edges, k, lines[k])
    {
      assert lines[..i + 1][..i] == lines[..i];
      ghost var names0, edges0 := names, edges;
      ids, names, adj, edges := ReadLine(lines[i], ids, names, adj, edges);
      forall k | 0 <= k < i ensures ReadAs(names, edges, k, lines[k]) {
        assert ReadAs(names0, edges0, k, lines[k]);
      }
    }
    assert lines[..|lines|] == lines;
    forall e | 0 <= e < |edges|
      ensures !edges[e].isReverse && edges[e].reverse.None? && edges[e].flow == 0
    {
      assert ReadAs(names, edges, e, lines[e]);
    }
    if sourceName !in ids || targetName !in ids {
      return None;
    }
    var order := VertexSet(names);
    var g := new Network(names, adj, edges, order, ids[sourceName], ids[targetName]);
    return Some(g);
  }
}
