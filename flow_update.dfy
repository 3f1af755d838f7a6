/** Pushing flow along a path (changeFlow) and what it keeps: the shape of
    the graph, the pairing of edges, the balance between an edge and its
    reverse, and per-vertex totals of flow. */
module FlowUpdate {
  import opened Graph

  /** What a flow change leaves alone: endpoints, kind, partner, and
      the sum of residual capacity and flow. */
  predicate SameShape(a: Edge, b: Edge) {
    a.source == b.source && a.target == b.target &&
    a.isReverse == b.isReverse && a.reverse == b.reverse &&
    a.capacity + a.flow == b.capacity + b.flow
  }

  /** Both arenas have the same edges up to capacities and flows. */
  predicate ShapeOf(edges: seq<Edge>, edges': seq<Edge>) {
    |edges'| == |edges| &&
    forall x {:trigger SameShape(edges'[x], edges[x])} :: 0 <= x < |edges| ==> SameShape(edges'[x], edges[x])
  }

  /** `d` units moved onto an edge: capacity down, flow up. */
  function Shifted(e: Edge, d: int): Edge {
    e.(capacity := e.capacity - d, flow := e.flow + d)
  }

  predicate HasPartner(edges: seq<Edge>, e: nat) {
    e < |edges| && edges[e].reverse.Some? && edges[e].reverse.value < |edges|
  }

  /** One iteration of changeFlow's loop: the edge gains `d` units of flow,
      its reverse loses them. */
  function Push(edges: seq<Edge>, e: nat, d: int): (r: seq<Edge>)
    requires HasPartner(edges, e)
    ensures ShapeOf(edges, r)
  {
    var p := edges[e].reverse.value;
    var once := edges[e := Shifted(edges[e], d)];
    once[p := Shifted(once[p], -d)]
  }

  /** Every assertion of changeFlow holds along `path`: each edge has a
      partner and, when its turn comes, capacity at least `d`. */
  predicate CanAugment(edges: seq<Edge>, path: seq<nat>, d: int)
    decreases |path|
  {
    path == [] ||
    (HasPartner(edges, path[0]) && edges[path[0]].capacity >= d &&
     CanAugment(Push(edges, path[0], d), path[1..], d))
  }

  /** The arena after changeFlow(path, d). */
  function Augment(edges: seq<Edge>, path: seq<nat>, d: int): (r: seq<Edge>)
    requires CanAugment(edges, path, d)
    ensures ShapeOf(edges, r)
    decreases |path|
  {
    if path == [] then edges
    else
      var pushed := Push(edges, path[0], d);
      var r := Augment(pushed, path[1..], d);
      ShapeTrans(edges, pushed, r);
      r
  }

  lemma ShapeTrans(a: seq<Edge>, b: seq<Edge>, c: seq<Edge>)
    requires ShapeOf(a, b) && ShapeOf(b, c)
    ensures ShapeOf(a, c)
  {
    forall x | 0 <= x < |a| ensures SameShape(c[x], a[x]) {
      assert SameShape(c[x], b[x]) && SameShape(b[x], a[x]);
    }
  }

  /** Changing flows leaves every edge set ordered and in place. */
  lemma ShapeKeepsWellFormed(names: seq<char>, adj: seq<seq<nat>>, edges: seq<Edge>, edges': seq<Edge>)
    requires WellFormed(names, adj, edges) && ShapeOf(edges, edges')
    ensures WellFormed(names, adj, edges')
  {
    forall x | 0 <= x < |edges| ensures edges'[x].source == edges[x].source && edges'[x].target == edges[x].target {
      assert SameShape(edges'[x], edges[x]);
    }
    forall v | 0 <= v < |adj| ensures SortedEdges(names, edges', adj[v]) {
      SortedEdgesStable(names, edges, names, edges', adj[v]);
    }
  }

  lemma ShapeKeepsPairing(edges: seq<Edge>, edges': seq<Edge>)
    requires ShapeOf(edges, edges')
    ensures PartiallyPaired(edges) ==> PartiallyPaired(edges')
    ensures FullyPaired(edges) ==> FullyPaired(edges')
  {
    forall e | 0 <= e < |edges'| ensures edges'[e].reverse == edges[e].reverse {
      assert SameShape(edges'[e], edges[e]);
    }
    if PartiallyPaired(edges) {
      forall e | 0 <= e < |edges'| && edges'[e].reverse.Some?
        ensures edges'[e].reverse.value < |edges'| && Linked(edges', e, edges'[e].reverse.value)
      {
        assert SameShape(edges'[e], edges[e]);
        var r := edges[e].reverse.value;
        assert SameShape(edges'[r], edges[r]);
      }
    }
  }

  /** An edge and its reverse: flow on the edge is never negative, an edge
      that carries flow has non-negative capacity left, and the reverse
      holds exactly that flow as capacity and its negation as flow. */
  predicate PairBalanced(edges: seq<Edge>, e: nat)
    requires FullyPaired(edges) && e < |edges|
  {
    var r := edges[e].reverse.value;
    0 <= edges[e].flow && (edges[e].capacity >= 0 || edges[e].flow == 0) &&
    edges[r].capacity == edges[e].flow && edges[r].flow == -edges[e].flow
  }

  /** The invariant of the residual graph while flow is being pushed. */
  predicate ResidualInvariant(edges: seq<Edge>) {
    FullyPaired(edges) &&
    forall e :: 0 <= e < |edges| && !edges[e].isReverse ==> PairBalanced(edges, e)
  }

  /** Pushing at most the residual capacity keeps every pair balanced. */
  lemma PushBalanced(edges: seq<Edge>, e: nat, d: int)
    requires ResidualInvariant(edges) && e < |edges|
    requires 0 <= d <= edges[e].capacity
    ensures ResidualInvariant(Push(edges, e, d))
  {
    var p := edges[e].reverse.value;
    var r := Push(edges, e, d);
    ShapeKeepsPairing(edges, r);
    assert r[e] == Shifted(edges[e], d);
    assert r[p] == Shifted(edges[p], -d);
    forall x | 0 <= x < |r| && !r[x].isReverse ensures PairBalanced(r, x) {
      var y := edges[x].reverse.value;
      assert Linked(edges, x, y);
      if x == e || x == p {
      } else {
        assert y != e && y != p by {
          assert Linked(edges, e, p);
        }
        assert r[x] == edges[x] && r[y] == edges[y];
      }
    }
  }

  lemma AugmentBalanced(edges: seq<Edge>, path: seq<nat>, d: int)
    requires ResidualInvariant(edges) && CanAugment(edges, path, d) && d >= 0
    ensures ResidualInvariant(Augment(edges, path, d))
    decreases |path|
  {
    if path != [] {
      PushBalanced(edges, path[0], d);
      AugmentBalanced(Push(edges, path[0], d), path[1..], d);
    }
  }

  lemma {:induction false} PushPairSums(edges: seq<Edge>, e: nat, d: int, x: nat)
    requires PartiallyPaired(edges) && HasPartner(edges, e)
    requires x < |edges| && edges[x].reverse.Some?
    ensures var r := Push(edges, e, d); var y := edges[x].reverse.value;
      r[x].capacity + r[y].capacity == edges[x].capacity + edges[y].capacity &&
      r[x].flow + r[y].flow == edges[x].flow + edges[y].flow
  {
    var p := edges[e].reverse.value;
    var y := edges[x].reverse.value;
    assert Linked(edges, e, p) && Linked(edges, x, y);
  }

  /** For every pair, the pair's total capacity and total flow survive
      changeFlow, whatever the path is. */
  lemma {:induction false} AugmentPairSums(edges: seq<Edge>, path: seq<nat>, d: int, x: nat)
    requires PartiallyPaired(edges) && CanAugment(edges, path, d)
    requires x < |edges| && edges[x].reverse.Some?
    ensures var r := Augment(edges, path, d); var y := edges[x].reverse.value;
      r[x].capacity + r[y].capacity == edges[x].capacity + edges[y].capacity &&
      r[x].flow + r[y].flow == edges[x].flow + edges[y].flow
    decreases |path|
  {
    if path != [] {
      var pushed := Push(edges, path[0], d);
      PushPairSums(edges, path[0], d, x);
      ShapeKeepsPairing(edges, pushed);
      assert SameShape(pushed[x], edges[x]);
      AugmentPairSums(pushed, path[1..], d, x);
    }
  }

  /** Edges of a path that are pairwise distinct and never one another's
      reverse; every path findPath returns is one. */
  predicate Disjoint(edges: seq<Edge>, path: seq<nat>) {
    (forall i :: 0 <= i < |path| ==> path[i] < |edges|) &&
    (forall i, j :: 0 <= i < j < |path| ==> path[i] != path[j]) &&
    (forall i, j :: 0 <= i < |path| && 0 <= j < |path| ==>
       edges[path[i]].reverse != Some(path[j]))
  }

  /** On such a path capacities are only lowered at the edge being
      processed, so every assertion of changeFlow holds when all capacities
      are at least `d` beforehand. */
  lemma {:induction false} DisjointCanAugment(edges: seq<Edge>, path: seq<nat>, d: int)
    requires FullyPaired(edges) && Disjoint(edges, path)
    requires forall i :: 0 <= i < |path| ==> edges[path[i]].capacity >= d
    ensures CanAugment(edges, path, d)
    decreases |path|
  {
    if path != [] {
      var e := path[0];
      var p := edges[e].reverse.value;
      var pushed := Push(edges, e, d);
      ShapeKeepsPairing(edges, pushed);
      var rest := path[1..];
      forall i | 0 <= i < |rest| ensures pushed[rest[i]].capacity >= d {
        assert rest[i] == path[i + 1];
        assert rest[i] != e && rest[i] != p;
      }
      DisjointCanAugment(pushed, rest, d);
    }
  }

  /** changeFlow on such a path: every path edge loses `d` units of
      capacity and gains `d` units of flow, its reverse does the opposite,
      and every other edge is unchanged. */
  lemma {:induction false} AugmentEffect(edges: seq<Edge>, path: seq<nat>, d: int)
    requires FullyPaired(edges) && Disjoint(edges, path) && CanAugment(edges, path, d)
    ensures forall x :: 0 <= x < |edges| ==>
      Augment(edges, path, d)[x] ==
        if x in path then Shifted(edges[x], d)
        else if edges[x].reverse.value in path then Shifted(edges[x], -d)
        else edges[x]
    decreases |path|
  {
    if path != [] {
      var e := path[0];
      var p := edges[e].reverse.value;
      var pushed := Push(edges, e, d);
      var rest := path[1..];
      ShapeKeepsPairing(edges, pushed);
      assert Linked(edges, e, p);
      assert p !in path;
      assert e !in rest;
      AugmentEffect(pushed, rest, d);
      forall x | 0 <= x < |edges|
        ensures Augment(edges, path, d)[x] ==
          if x in path then Shifted(edges[x], d)
          else if edges[x].reverse.value in path then Shifted(edges[x], -d)
          else edges[x]
      {
        assert SameShape(pushed[x], edges[x]);
        if x == e {
        } else if x == p {
        } else {
          assert pushed[x] == edges[x];
          var y := edges[x].reverse.value;
          assert Linked(edges, x, y);
          assert (y in path) == (y in rest);
        }
      }
    }
  }

  /** Per-vertex quantities summed over the arena. */
  datatype Measure = FlowOut(v: nat) | BoundOut(v: nat)

  function Weight(m: Measure, e: Edge): int {
    match m
    case FlowOut(v) => if e.source == v then e.flow else 0
    case BoundOut(v) =>
      if e.source == v && !e.isReverse && e.capacity + e.flow > 0 then e.capacity + e.flow else 0
  }

  function Total(m: Measure, edges: seq<Edge>): int
    decreases |edges|
  {
    if edges == [] then 0 else Weight(m, edges[0]) + Total(m, edges[1..])
  }

  /** Net flow leaving `v`: over the residual graph, the flow of its
      outgoing edges, where a reverse edge carries the negated flow of the
      original edge entering `v`. */
  function NetFlowOut(edges: seq<Edge>, v: nat): int {
    Total(FlowOut(v), edges)
  }

  /** The original capacities of the original edges leaving `v`
      (non-positive ones count as zero). */
  function FlowBound(edges: seq<Edge>, v: nat): int {
    Total(BoundOut(v), edges)
  }

  lemma {:induction false} TotalUpdate(m: Measure, edges: seq<Edge>, k: nat, x: Edge)
    requires k < |edges|
    ensures Total(m, edges[k := x]) == Total(m, edges) - Weight(m, edges[k]) + Weight(m, x)
    decreases |edges|
  {
    if k == 0 {
      assert edges[k := x][1..] == edges[1..];
    } else {
      assert edges[k := x][1..] == edges[1..][k - 1 := x];
      TotalUpdate(m, edges[1..], k - 1, x);
    }
  }

  lemma {:induction false} TotalAtMost(m: Measure, m': Measure, edges: seq<Edge>)
    requires forall i :: 0 <= i < |edges| ==> Weight(m, edges[i]) <= Weight(m', edges[i])
    ensures Total(m, edges) <= Total(m', edges)
    decreases |edges|
  {
    if edges != [] {
      assert Weight(m, edges[0]) <= Weight(m', edges[0]);
      forall i | 0 <= i < |edges[1..]| ensures Weight(m, edges[1..][i]) <= Weight(m', edges[1..][i]) {
        assert edges[1..][i] == edges[i + 1];
      }
      TotalAtMost(m, m', edges[1..]);
    }
  }

  lemma {:induction false} TotalSame(m: Measure, edges: seq<Edge>, edges': seq<Edge>)
    requires |edges| == |edges'|
    requires forall i :: 0 <= i < |edges| ==> Weight(m, edges[i]) == Weight(m, edges'[i])
    ensures Total(m, edges) == Total(m, edges')
    decreases |edges|
  {
    if edges != [] {
      assert Weight(m, edges[0]) == Weight(m, edges'[0]);
      forall i | 0 <= i < |edges| - 1 ensures Weight(m, edges[1..][i]) == Weight(m, edges'[1..][i]) {
        assert edges[1..][i] == edges[i + 1] && edges'[1..][i] == edges'[i + 1];
      }
      TotalSame(m, edges[1..], edges'[1..]);
    }
  }

  /** A push moves `d` units of net flow out of the edge's source and into
      its target. */
  lemma PushNetFlow(edges: seq<Edge>, e: nat, d: int, v: nat)
    requires PartiallyPaired(edges) && HasPartner(edges, e)
    ensures NetFlowOut(Push(edges, e, d), v) ==
      NetFlowOut(edges, v) + (if edges[e].source == v then d else 0)
                           - (if edges[e].target == v then d else 0)
  {
    var p := edges[e].reverse.value;
    assert Linked(edges, e, p);
    var once := edges[e := Shifted(edges[e], d)];
    TotalUpdate(FlowOut(v), edges, e, Shifted(edges[e], d));
    TotalUpdate(FlowOut(v), once, p, Shifted(once[p], -d));
    assert once[p] == edges[p];
  }

  /** Changing capacities and flows never changes the bound. */
  lemma ShapeKeepsBound(edges: seq<Edge>, edges': seq<Edge>, v: nat)
    requires ShapeOf(edges, edges')
    ensures FlowBound(edges', v) == FlowBound(edges, v)
  {
    forall i | 0 <= i < |edges| ensures Weight(BoundOut(v), edges[i]) == Weight(BoundOut(v), edges'[i]) {
      assert SameShape(edges'[i], edges[i]);
    }
    TotalSame(BoundOut(v), edges, edges');
  }

  /** While the residual invariant holds, no vertex sends out more than the
      original capacity of its outgoing edges. */
  lemma NetFlowWithinBound(edges: seq<Edge>, v: nat)
    requires ResidualInvariant(edges)
    ensures NetFlowOut(edges, v) <= FlowBound(edges, v)
  {
    forall i | 0 <= i < |edges| ensures Weight(FlowOut(v), edges[i]) <= Weight(BoundOut(v), edges[i]) {
      var r := edges[i].reverse.value;
      assert Linked(edges, i, r);
      if edges[i].isReverse {
        assert PairBalanced(edges, r);
      } else {
        assert PairBalanced(edges, i);
      }
    }
    TotalAtMost(FlowOut(v), BoundOut(v), edges);
  }

  /** Before any flow is pushed, every vertex is balanced. */
  lemma {:induction false} NoFlowBalanced(edges: seq<Edge>, v: nat)
    requires forall e :: 0 <= e < |edges| ==> edges[e].flow == 0
    ensures NetFlowOut(edges, v) == 0
    decreases |edges|
  {
    if edges != [] {
      forall e | 0 <= e < |edges[1..]| ensures edges[1..][e].flow == 0 {
        assert edges[1..][e] == edges[e + 1];
      }
      NoFlowBalanced(edges[1..], v);
    }
  }
}
