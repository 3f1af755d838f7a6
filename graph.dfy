/** The graph's data: an arena of edges indexed by identity, one ordered
    edge set per vertex, and the pairing of every edge with its reverse. */
module Graph {
  import opened EdgeOrder

  datatype Option<T> = None | Some(value: T)

  /** One edge (struct Edge): endpoints are vertex indices, `reverse` is the
      identity of the paired reverse edge (None stands for nullptr). */
  datatype Edge = Edge(source: nat, target: nat, capacity: int, flow: int,
                       isReverse: bool, reverse: Option<nat>)

  /** All edges have endpoints among the `n` vertices. */
  predicate EndpointsIn(edges: seq<Edge>, n: nat) {
    forall e :: 0 <= e < |edges| ==> edges[e].source < n && edges[e].target < n
  }

  /** `id` names an edge of the arena whose endpoints have labels. */
  predicate ValidEdge(names: seq<char>, edges: seq<Edge>, id: nat) {
    id < |edges| && edges[id].source < |names| && edges[id].target < |names|
  }

  function KeyOf(names: seq<char>, edges: seq<Edge>, id: nat): EdgeKey
    requires ValidEdge(names, edges, id)
  {
    EdgeKey(names[edges[id].source], names[edges[id].target], id)
  }

  /** The comparator applied to two edges of the arena. */
  predicate EdgeBefore(names: seq<char>, edges: seq<Edge>, a: nat, b: nat)
    requires ValidEdge(names, edges, a) && ValidEdge(names, edges, b)
  {
    Before(KeyOf(names, edges, a), KeyOf(names, edges, b))
  }

  /** A std::set<Edge*, EdgePtrComparator>, listed in its iteration order. */
  predicate SortedEdges(names: seq<char>, edges: seq<Edge>, s: seq<nat>) {
    (forall i :: 0 <= i < |s| ==> ValidEdge(names, edges, s[i])) &&
    (forall i, j {:trigger EdgeBefore(names, edges, s[i], s[j])} :: 0 <= i < j < |s| ==> EdgeBefore(names, edges, s[i], s[j]))
  }

  /** `set.insert(x)`: keeps the set ordered; an element equivalent to `x`
      (which can only be `x` itself) leaves the set as it is. */
  function InsertEdge(names: seq<char>, edges: seq<Edge>, s: seq<nat>, x: nat): (r: seq<nat>)
    requires SortedEdges(names, edges, s) && ValidEdge(names, edges, x)
    ensures SortedEdges(names, edges, r)
    ensures forall y :: y in r <==> y in s || y == x
    ensures x in s ==> r == s
    decreases |s|
  {
    if s == [] then [x]
    else if EdgeBefore(names, edges, x, s[0]) then
      assert forall k :: 0 < k < |s| ==> EdgeBefore(names, edges, s[0], s[k]);
      SortedCons(names, edges, x, s);
      [x] + s
    else if EdgeBefore(names, edges, s[0], x) then
      var rest := InsertEdge(names, edges, s[1..], x);
      assert forall k :: 0 < k < |s| ==> EdgeBefore(names, edges, s[0], s[k]);
      assert forall y :: y in rest ==> EdgeBefore(names, edges, s[0], y);
      SortedCons(names, edges, s[0], rest);
      [s[0]] + rest
    else s
  }

  /** Prepending an edge that precedes every element keeps a set ordered. */
  lemma SortedCons(names: seq<char>, edges: seq<Edge>, a: nat, s: seq<nat>)
    requires ValidEdge(names, edges, a) && SortedEdges(names, edges, s)
    requires forall y :: y in s ==> EdgeBefore(names, edges, a, y)
    ensures SortedEdges(names, edges, [a] + s)
  {
    var r := [a] + s;
    forall i, j | 0 <= i < j < |r| ensures EdgeBefore(names, edges, r[i], r[j]) {
      assert r[j] == s[j - 1] && s[j - 1] in s;
      if i > 0 {
        assert r[i] == s[i - 1];
        assert EdgeBefore(names, edges, s[i - 1], s[j - 1]);
      }
    }
  }

  /** Labels are unique: the original keys its vertices by label. */
  predicate DistinctNames(names: seq<char>) {
    forall u, v {:trigger Label(names, u), Label(names, v)} ::
      0 <= u < v < |names| ==> Label(names, u) != Label(names, v)
  }

  /** The label of vertex `v`.  DistinctNames is triggered on this term
      alone, so that its pairs are considered only where a proof asks. */
  function Label(names: seq<char>, v: nat): char
    requires v < |names|
  {
    names[v]
  }

  /** `adj[v]` is vertex v's edge set: ordered, holding exactly the edges
      whose source is v. */
  predicate WellFormed(names: seq<char>, adj: seq<seq<nat>>, edges: seq<Edge>) {
    |adj| == |names| &&
    DistinctNames(names) &&
    EndpointsIn(edges, |names|) &&
    (forall v :: 0 <= v < |adj| ==> SortedEdges(names, edges, adj[v])) &&
    (forall v, i :: 0 <= v < |adj| && 0 <= i < |adj[v]| ==>
       adj[v][i] < |edges| && edges[adj[v][i]].source == v) &&
    (forall e :: 0 <= e < |edges| ==> e in adj[edges[e].source])
  }

  /** `e` and `r` point at each other as reverse edges, with swapped
      endpoints, and exactly one of them is an added reverse edge. */
  predicate Linked(edges: seq<Edge>, e: nat, r: nat)
    requires e < |edges| && r < |edges|
  {
    edges[e].reverse == Some(r) && edges[r].reverse == Some(e) &&
    edges[r].source == edges[e].target && edges[r].target == edges[e].source &&
    edges[r].isReverse != edges[e].isReverse
  }

  /** Every partner that is set is a proper partner. */
  predicate PartiallyPaired(edges: seq<Edge>) {
    forall e :: 0 <= e < |edges| && edges[e].reverse.Some? ==>
      edges[e].reverse.value < |edges| && Linked(edges, e, edges[e].reverse.value)
  }

  /** No added reverse edge lacks its partner (the assertion in addReverseEdges). */
  predicate ReversesPaired(edges: seq<Edge>) {
    forall e :: 0 <= e < |edges| && edges[e].isReverse ==> edges[e].reverse.Some?
  }

  /** The residual graph: every edge has its partner. */
  predicate FullyPaired(edges: seq<Edge>) {
    PartiallyPaired(edges) &&
    forall e :: 0 <= e < |edges| ==> edges[e].reverse.Some?
  }

  /** The vertex set std::set<Vertex*, VertexPtrComparator>, listed in
      label order: every vertex exactly once. */
  predicate VertexOrder(names: seq<char>, order: seq<nat>) {
    (forall i :: 0 <= i < |order| ==> order[i] < |names|) &&
    (forall i, j :: 0 <= i < j < |order| ==> names[order[i]] < names[order[j]]) &&
    (forall v :: 0 <= v < |names| ==> v in order)
  }

  /** `vertices.insert(x)` into the label-ordered vertex set. */
  function InsertVertex(names: seq<char>, s: seq<nat>, x: nat): (r: seq<nat>)
    requires x < |names|
    requires forall i :: 0 <= i < |s| ==> s[i] < |names|
    requires forall i, j :: 0 <= i < j < |s| ==> names[s[i]] < names[s[j]]
    requires DistinctNames(names)
    ensures forall i :: 0 <= i < |r| ==> r[i] < |names|
    ensures forall i, j :: 0 <= i < j < |r| ==> names[r[i]] < names[r[j]]
    ensures forall y :: y in r <==> y in s || y == x
    decreases |s|
  {
    if s == [] then [x]
    else if names[x] < names[s[0]] then [x] + s
    else if names[s[0]] < names[x] then
      var rest := InsertVertex(names, s[1..], x);
      assert forall y :: y in rest ==> names[s[0]] < names[y];
      [s[0]] + rest
    else
      assert Label(names, x) == Label(names, s[0]);
      s
  }

  /** The arena `edges'` extends `edges` without moving any endpoint. */
  predicate SameEndpoints(edges: seq<Edge>, edges': seq<Edge>) {
    |edges| <= |edges'| &&
    forall x :: 0 <= x < |edges| ==>
      edges'[x].source == edges[x].source && edges'[x].target == edges[x].target
  }

  /** Order among existing edges survives new vertices and new edges. */
  lemma SortedEdgesStable(names: seq<char>, edges: seq<Edge>, names': seq<char>,
                          edges': seq<Edge>, s: seq<nat>)
    requires SortedEdges(names, edges, s)
    requires names <= names' && SameEndpoints(edges, edges')
    ensures SortedEdges(names', edges', s)
  {
    forall i | 0 <= i < |s| ensures ValidEdge(names', edges', s[i])
                              && KeyOf(names', edges', s[i]) == KeyOf(names, edges, s[i]) {
      assert ValidEdge(names, edges, s[i]);
    }
    forall i, j | 0 <= i < j < |s| ensures EdgeBefore(names', edges', s[i], s[j]) {
      assert EdgeBefore(names, edges, s[i], s[j]);
    }
  }

  /** A new vertex with an empty edge set keeps the graph well formed. */
  lemma AddVertexWellFormed(names: seq<char>, adj: seq<seq<nat>>, edges: seq<Edge>, c: char)
    requires WellFormed(names, adj, edges) && c !in names
    ensures WellFormed(names + [c], adj + [[]], edges)
  {
    var names', adj' := names + [c], adj + [[]];
    forall u, v | 0 <= u < v < |names'| ensures Label(names', u) != Label(names', v) {
      if v < |names| {
        assert Label(names, u) != Label(names, v);
      } else {
        assert names[u] in names;
      }
    }
    forall v | 0 <= v < |adj'| ensures SortedEdges(names', edges, adj'[v]) {
      if v < |adj| {
        SortedEdgesStable(names, edges, names', edges, adj[v]);
      }
    }
    forall e | 0 <= e < |edges| ensures e in adj'[edges[e].source] {
      assert adj'[edges[e].source] == adj[edges[e].source];
    }
  }

  /** The edge appended to the arena, once it is in its source's edge set
      `ins`, keeps the graph well formed. */
  lemma AddEdgeWellFormed(names: seq<char>, adj: seq<seq<nat>>, edges: seq<Edge>,
                          edges': seq<Edge>, ins: seq<nat>)
    requires WellFormed(names, adj, edges)
    requires |edges'| == |edges| + 1 && SameEndpoints(edges, edges')
    requires edges'[|edges|].source < |names| && edges'[|edges|].target < |names|
    requires SortedEdges(names, edges', ins)
    requires forall y :: y in ins <==> y in adj[edges'[|edges|].source] || y == |edges|
    ensures WellFormed(names, adj[edges'[|edges|].source := ins], edges')
  {
    var x := |edges|;
    var w := edges'[x].source;
    var adj' := adj[w := ins];
    forall v | 0 <= v < |adj'| ensures SortedEdges(names, edges', adj'[v]) {
      if v != w {
        SortedEdgesStable(names, edges, names, edges', adj[v]);
      }
    }
    forall v, i | 0 <= v < |adj'| && 0 <= i < |adj'[v]|
      ensures adj'[v][i] < |edges'| && edges'[adj'[v][i]].source == v
    {
      if v == w {
        var y := adj'[v][i];
        assert y in ins;
        if y != x {
          var j :| 0 <= j < |adj[w]| && adj[w][j] == y;
        }
      } else {
        assert adj'[v][i] == adj[v][i];
      }
    }
    forall e | 0 <= e < |edges'| ensures e in adj'[edges'[e].source] {
      if e < x {
        assert e in adj[edges[e].source];
      }
    }
  }

  /** The reverse edge addReverseEdges creates for edge `e`: swapped
      endpoints, no capacity, no flow, pointing back at `e`. */
  function ReverseEdge(edges: seq<Edge>, e: nat): Edge
    requires e < |edges|
  {
    Edge(edges[e].target, edges[e].source, 0, 0, true, Some(e))
  }

  /** The arena once the reverse of `e` is allocated and linked. */
  function WithReverse(edges: seq<Edge>, e: nat): seq<Edge>
    requires e < |edges|
  {
    (edges + [ReverseEdge(edges, e)])[e := edges[e].(reverse := Some(|edges|))]
  }

  /** Linking a new reverse edge to an unpaired forward edge keeps every
      existing pair intact and pairs the two. */
  lemma WithReversePaired(edges: seq<Edge>, e: nat)
    requires PartiallyPaired(edges) && ReversesPaired(edges)
    requires e < |edges| && edges[e].reverse.None? && !edges[e].isReverse
    ensures PartiallyPaired(WithReverse(edges, e)) && ReversesPaired(WithReverse(edges, e))
    ensures Linked(WithReverse(edges, e), e, |edges|)
  {
    var edges' := WithReverse(edges, e);
    forall x | 0 <= x < |edges'| && edges'[x].reverse.Some?
      ensures edges'[x].reverse.value < |edges'| && Linked(edges', x, edges'[x].reverse.value)
    {
      if x < |edges| && x != e {
        var y := edges[x].reverse.value;
        assert Linked(edges, x, y);
      }
    }
  }
}
