/** The solver itself: the graph read from the input, the residual graph
    built from it, the depth-first search with its inPath flags, and the
    loop that pushes flow until no augmenting path is left. */
module MaxFlow {
  import opened EdgeOrder
  import opened Graph
  import opened FlowUpdate
  import opened Paths

  /** The path the search extends: the caller's vector, or an empty one
      when the search is a fresh top-level search. */
  function StartOf(path0: seq<nat>, clearPath: bool): seq<nat> {
    if clearPath then [] else path0
  }

  /** Edge `r` is one addReverseEdges created for an edge of `E0` that had
      no partner. */
  predicate IsAddedReverse(E0: seq<Edge>, edges: seq<Edge>, r: nat)
    requires r < |edges|
  {
    edges[r].reverse.Some? && edges[r].reverse.value < |E0| &&
    E0[edges[r].reverse.value].reverse.None? &&
    edges[r] == ReverseEdge(E0, edges[r].reverse.value)
  }

  /** Every edge past the end of `E0` is an added reverse edge, and they
      were created in the order of their partners: vertices by label, then
      each vertex's edges in set order. */
  predicate AddedReverses(names: seq<char>, E0: seq<Edge>, edges: seq<Edge>) {
    |E0| <= |edges| && EndpointsIn(E0, |names|) &&
    (forall r :: |E0| <= r < |edges| ==> IsAddedReverse(E0, edges, r)) &&
    (forall r1, r2 {:trigger IsAddedReverse(E0, edges, r1), IsAddedReverse(E0, edges, r2)} ::
       |E0| <= r1 < r2 < |edges| && IsAddedReverse(E0, edges, r1) && IsAddedReverse(E0, edges, r2)
       ==> EdgeBefore(names, E0, edges[r1].reverse.value, edges[r2].reverse.value))
  }

  /** The edges of `E0` keep everything but their partner; one that had a
      partner keeps it, one that gets one gets a new edge. */
  predicate KeptOld(E0: seq<Edge>, edges: seq<Edge>) {
    |E0| <= |edges| &&
    forall e :: 0 <= e < |E0| ==>
      edges[e] == E0[e].(reverse := edges[e].reverse) &&
      (E0[e].reverse.Some? ==> edges[e].reverse == E0[e].reverse) &&
      (edges[e].reverse.Some? && E0[e].reverse.None? ==> edges[e].reverse.value >= |E0|)
  }

  /** Whether the partner of every unpaired edge of `E0` is set, after
      addReverseEdges has done the first `k` vertices of `order`: exactly
      the edges leaving those vertices. */
  predicate DoneUpTo(E0: seq<Edge>, edges: seq<Edge>, order: seq<nat>, k: nat)
    requires k <= |order|
  {
    |E0| <= |edges| &&
    forall e :: 0 <= e < |E0| && E0[e].reverse.None? ==>
      (edges[e].reverse.Some? <==> E0[e].source in order[..k])
  }

  /** The same while addReverseEdges is at edge `j` of the edge set `es`
      of vertex `order[k]`: the vertices done and the first `j` edges of
      this one. */
  predicate ProgressAt(E0: seq<Edge>, edges: seq<Edge>, order: seq<nat>, k: nat, es: seq<nat>, j: nat)
    requires k < |order| && j <= |es|
  {
    |E0| <= |edges| &&
    forall e :: 0 <= e < |E0| && E0[e].reverse.None? ==>
      (edges[e].reverse.Some? <==>
         E0[e].source in order[..k] || (E0[e].source == order[k] && e in es[..j]))
  }

  /** The reverse edge created next comes after every one created so far
      in the order of their partners. */
  lemma NewReverseLast(names: seq<char>, order: seq<nat>, E0: seq<Edge>, edges: seq<Edge>,
                       k: nat, es: seq<nat>, j: nat)
    requires VertexOrder(names, order) && k < |order| && j < |es|
    requires SortedEdges(names, edges, es) && forall i :: 0 <= i < |es| ==> edges[es[i]].source == order[k]
    requires PartiallyPaired(edges) && KeptOld(E0, edges) && AddedReverses(names, E0, edges)
    requires ProgressAt(E0, edges, order, k, es, j)
    requires es[j] < |E0| && E0[es[j]].reverse.None?
    ensures AddedReverses(names, E0, WithReverse(edges, es[j]))
  {
    var e := es[j];
    var edges' := WithReverse(edges, e);
    var r := |edges|;
    assert IsAddedReverse(E0, edges', r);
    forall r1 | |E0| <= r1 < r
      ensures IsAddedReverse(E0, edges', r1)
      ensures EdgeBefore(names, E0, edges'[r1].reverse.value, e)
    {
      assert edges'[r1] == edges[r1];
      assert IsAddedReverse(E0, edges, r1);
      var p := edges[r1].reverse.value;
      assert Linked(edges, r1, p);
      var src := E0[p].source;
      if src in order[..k] {
        var a :| 0 <= a < k && order[a] == src;
        assert names[order[a]] < names[order[k]];
      } else {
        var b :| 0 <= b < j && es[b] == p;
        assert EdgeBefore(names, edges, es[b], es[j]);
      }
    }
    forall r1, r2 | |E0| <= r1 < r2 < |edges'| && IsAddedReverse(E0, edges', r1) && IsAddedReverse(E0, edges', r2)
      ensures EdgeBefore(names, E0, edges'[r1].reverse.value, edges'[r2].reverse.value)
    {
      if r2 < r {
        assert edges'[r1] == edges[r1] && edges'[r2] == edges[r2];
        assert IsAddedReverse(E0, edges, r1) && IsAddedReverse(E0, edges, r2);
      }
    }
  }

  /** The invariant of addReverseEdges's outer loop, after the first `k`
      vertices of `order`. */
  predicate Scanned(names: seq<char>, order: seq<nat>, adj: seq<seq<nat>>, E0: seq<Edge>,
                    edges: seq<Edge>, k: nat)
    requires k <= |order|
  {
    WellFormed(names, adj, edges) && PartiallyPaired(edges) && ReversesPaired(edges) &&
    KeptOld(E0, edges) && AddedReverses(names, E0, edges) && DoneUpTo(E0, edges, order, k)
  }

  /** The invariant of its inner loop, at edge `j` of the edge set `es`
      that vertex `order[k]` had when the inner loop began. */
  predicate Scanning(names: seq<char>, order: seq<nat>, adj: seq<seq<nat>>, E0: seq<Edge>,
                     edges: seq<Edge>, k: nat, es: seq<nat>, j: nat)
    requires k < |order| && j <= |es|
  {
    WellFormed(names, adj, edges) && PartiallyPaired(edges) && ReversesPaired(edges) &&
    KeptOld(E0, edges) && AddedReverses(names, E0, edges) && ProgressAt(E0, edges, order, k, es, j) &&
    SortedEdges(names, edges, es) && (forall i :: 0 <= i < |es| ==> edges[es[i]].source == order[k]) &&
    (forall e :: 0 <= e < |E0| && E0[e].source == order[k] ==> e in es)
  }

  lemma ScanStart(names: seq<char>, order: seq<nat>, adj: seq<seq<nat>>, E0: seq<Edge>,
                  edges: seq<Edge>, k: nat)
    requires VertexOrder(names, order) && k < |order| && Scanned(names, order, adj, E0, edges, k)
    ensures Scanning(names, order, adj, E0, edges, k, adj[order[k]], 0)
  {
    var es := adj[order[k]];
    assert es[..0] == [];
    forall e | 0 <= e < |E0| && E0[e].source == order[k] ensures e in es {
      assert e in adj[edges[e].source];
    }
  }

  /** An edge that already has its partner is passed over (line 93). */
  lemma SkipStep(names: seq<char>, order: seq<nat>, adj: seq<seq<nat>>, E0: seq<Edge>,
                 edges: seq<Edge>, k: nat, es: seq<nat>, j: nat)
    requires k < |order| && j < |es| && Scanning(names, order, adj, E0, edges, k, es, j)
    requires edges[es[j]].reverse.Some?
    ensures Scanning(names, order, adj, E0, edges, k, es, j + 1)
  {
    assert es[..j + 1] == es[..j] + [es[j]];
  }

  /** Linking the reverse of `es[j]` keeps the old edges and marks one more
      edge as done. */
  lemma LinkProgress(names: seq<char>, order: seq<nat>, E0: seq<Edge>, edges: seq<Edge>,
                     k: nat, es: seq<nat>, j: nat)
    requires k < |order| && j < |es| && es[j] < |E0| && KeptOld(E0, edges)
    requires edges[es[j]].reverse.None? && ProgressAt(E0, edges, order, k, es, j)
    requires forall i :: 0 <= i < |es| ==> es[i] < |edges| && edges[es[i]].source == order[k]
    ensures KeptOld(E0, WithReverse(edges, es[j]))
    ensures ProgressAt(E0, WithReverse(edges, es[j]), order, k, es, j + 1)
    ensures forall i :: 0 <= i < |es| ==> WithReverse(edges, es[j])[es[i]].source == order[k]
  {
    assert es[..j + 1] == es[..j] + [es[j]];
  }

  /** One reverse edge created and inserted (lines 95-102) keeps the
      invariant and moves on to the next edge. */
  lemma LinkStep(names: seq<char>, order: seq<nat>, adj: seq<seq<nat>>, E0: seq<Edge>,
                 edges: seq<Edge>, k: nat, es: seq<nat>, j: nat)
    requires VertexOrder(names, order) && k < |order| && j < |es|
    requires Scanning(names, order, adj, E0, edges, k, es, j)
    requires edges[es[j]].reverse.None?
    ensures var e := es[j]; var edges' := WithReverse(edges, e);
      SortedEdges(names, edges', adj[edges[e].target]) && ValidEdge(names, edges', |edges|) &&
      Scanning(names, order, adj[edges[e].target := InsertEdge(names, edges', adj[edges[e].target], |edges|)],
               E0, edges', k, es, j + 1)
  {
    var e := es[j];
    assert e >= |E0| ==> IsAddedReverse(E0, edges, e);
    var edges' := WithReverse(edges, e);
    var w := edges[e].target;
    NewReverseLast(names, order, E0, edges, k, es, j);
    WithReversePaired(edges, e);
    SortedEdgesStable(names, edges, names, edges', adj[w]);
    SortedEdgesStable(names, edges, names, edges', es);
    var ins := InsertEdge(names, edges', adj[w], |edges|);
    AddEdgeWellFormed(names, adj, edges, edges', ins);
    LinkProgress(names, order, E0, edges, k, es, j);
  }

  /** Once a vertex's whole edge set is done, so is the vertex. */
  lemma ScanEnd(names: seq<char>, order: seq<nat>, adj: seq<seq<nat>>, E0: seq<Edge>,
                edges: seq<Edge>, k: nat, es: seq<nat>)
    requires k < |order| && Scanning(names, order, adj, E0, edges, k, es, |es|)
    ensures Scanned(names, order, adj, E0, edges, k + 1)
  {
    assert order[..k + 1] == order[..k] + [order[k]];
    assert es[..|es|] == es;
  }

  /** After the last vertex every edge has its partner. */
  lemma AllDone(names: seq<char>, order: seq<nat>, adj: seq<seq<nat>>, E0: seq<Edge>, edges: seq<Edge>)
    requires VertexOrder(names, order) && Scanned(names, order, adj, E0, edges, |order|)
    ensures FullyPaired(edges)
  {
    assert order[..|order|] == order;
    forall e | 0 <= e < |edges| ensures edges[e].reverse.Some? {
      if e >= |E0| {
        assert IsAddedReverse(E0, edges, e);
      } else {
        assert E0[e].source in order;
      }
    }
  }

  /** Right after addReverseEdges on the graph as read, every pair is
      balanced and no edge carries flow. */
  lemma ResidualStart(names: seq<char>, E0: seq<Edge>, edges: seq<Edge>)
    requires forall e :: 0 <= e < |E0| ==> !E0[e].isReverse && E0[e].reverse.None? && E0[e].flow == 0
    requires FullyPaired(edges) && KeptOld(E0, edges) && AddedReverses(names, E0, edges)
    ensures ResidualInvariant(edges)
    ensures forall e :: 0 <= e < |edges| ==> edges[e].flow == 0
    ensures forall e :: 0 <= e < |edges| ==> (e < |E0| <==> !edges[e].isReverse)
  {
    forall e | 0 <= e < |edges| ensures edges[e].flow == 0 && (e < |E0| <==> !edges[e].isReverse) {
      if e >= |E0| {
        assert IsAddedReverse(E0, edges, e);
      }
    }
    forall e | 0 <= e < |edges| && !edges[e].isReverse ensures PairBalanced(edges, e) {
      var r := edges[e].reverse.value;
      assert r >= |E0|;
      assert IsAddedReverse(E0, edges, r);
    }
  }

  /** No vertex but possibly `s` is flagged as being on a path. */
  ghost predicate OnlyMarked(flags: array<bool>, s: nat)
    reads flags
  {
    forall u :: 0 <= u < flags.Length && u != s ==> !flags[u]
  }

  /** Among the `n` vertices, `value` units leave the source and enter the
      target (none when they coincide), and every other vertex is balanced. */
  predicate FlowValue(n: nat, edges: seq<Edge>, source: nat, target: nat, value: int) {
    forall v :: 0 <= v < n ==>
      NetFlowOut(edges, v) == (if v == source then value else 0) - (if v == target then value else 0)
  }

  /** What findMaxFlow's loop keeps, `residual` being the graph as
      addReverseEdges left it: the graph stays balanced with the same
      shape, `maxFlow` units leave the source and enter the target, every
      other vertex is balanced, and `maxFlow` stays within the capacity
      leaving the source. */
  predicate Flowing(names: seq<char>, residual: seq<Edge>, edges: seq<Edge>,
                    source: nat, target: nat, maxFlow: int)
  {
    ResidualInvariant(edges) && ShapeOf(residual, edges) &&
    FlowValue(|names|, edges, source, target, maxFlow) &&
    (source == target ==> maxFlow == 0) &&
    0 <= maxFlow <= FlowBound(residual, source)
  }

  /** One augmentation from `before` to `after`: `path` is the path the
      search from the source returns, `d` is its smallest capacity, and
      `after` is `before` with `d` units pushed along `path`. */
  ghost predicate Pushed(names: seq<char>, before: seq<Edge>, after: seq<Edge>,
                         source: nat, target: nat, path: seq<nat>, d: int)
  {
    SearchOutcome(names, before, source, target, SourceOnly(|names|, source), [], true, path) &&
    (forall i :: 0 <= i < |path| ==> path[i] < |before| && d <= before[path[i]].capacity) &&
    (exists i :: 0 <= i < |path| && d == before[path[i]].capacity) &&
    CanAugment(before, path, d) && after == Augment(before, path, d)
  }

  /** One augmentation is determined by the arena it starts from: the
      path (the search is deterministic), its smallest capacity, and so
      the arena it leaves. */
  lemma PushedUnique(names: seq<char>, before: seq<Edge>, a1: seq<Edge>, a2: seq<Edge>,
                     source: nat, target: nat, p1: seq<nat>, p2: seq<nat>, d1: int, d2: int)
    requires Pushed(names, before, a1, source, target, p1, d1)
    requires Pushed(names, before, a2, source, target, p2, d2)
    ensures p1 == p2 && d1 == d2 && a1 == a2
  {
    assert p1[0..] == p1 && p2[0..] == p2;
    DfsPathUnique(names, before, p1, p2, source, target, SourceOnly(|names|, source));
  }

  /** A run of findMaxFlow's loop: pass `i` takes `arenas[i]` to
      `arenas[i + 1]` by pushing `amounts[i]` units along `paths[i]`
      (stated for the last pass, and for the shorter run before it). */
  ghost predicate Run(names: seq<char>, arenas: seq<seq<Edge>>, paths: seq<seq<nat>>,
                      amounts: seq<int>, source: nat, target: nat)
    decreases |paths|
  {
    |arenas| == |paths| + 1 && |amounts| == |paths| &&
    (paths != [] ==>
       var k := |paths| - 1;
       Run(names, arenas[..k + 1], paths[..k], amounts[..k], source, target) &&
       Pushed(names, arenas[k], arenas[k + 1], source, target, paths[k], amounts[k]))
  }

  /** Every pass of a run is one augmentation. */
  lemma {:induction false} RunAt(names: seq<char>, arenas: seq<seq<Edge>>, paths: seq<seq<nat>>,
                                 amounts: seq<int>, source: nat, target: nat, i: nat)
    requires Run(names, arenas, paths, amounts, source, target) && i < |paths|
    ensures Pushed(names, arenas[i], arenas[i + 1], source, target, paths[i], amounts[i])
    decreases |paths|
  {
    var k := |paths| - 1;
    if i < k {
      RunAt(names, arenas[..k + 1], paths[..k], amounts[..k], source, target, i);
    }
  }

  /** The sum of the amounts pushed, the value findMaxFlow returns. */
  function Sum(xs: seq<int>): int
    decreases |xs|
  {
    if xs == [] then 0 else Sum(xs[..|xs| - 1]) + xs[|xs| - 1]
  }

  /** The run takes `residual` to `edges` and pushes `total` units in all. */
  ghost predicate RunFrom(names: seq<char>, residual: seq<Edge>, edges: seq<Edge>,
                          source: nat, target: nat, total: int,
                          arenas: seq<seq<Edge>>, paths: seq<seq<nat>>, amounts: seq<int>)
  {
    Run(names, arenas, paths, amounts, source, target) &&
    arenas[0] == residual && arenas[|arenas| - 1] == edges && total == Sum(amounts)
  }

  /** One more pass extends a run, and adds its amount to the sum. */
  lemma RunExtend(names: seq<char>, residual: seq<Edge>, before: seq<Edge>, after: seq<Edge>,
                  source: nat, target: nat, total: int, path: seq<nat>, d: int,
                  arenas: seq<seq<Edge>>, paths: seq<seq<nat>>, amounts: seq<int>)
    requires RunFrom(names, residual, before, source, target, total, arenas, paths, amounts)
    requires Pushed(names, before, after, source, target, path, d)
    ensures RunFrom(names, residual, after, source, target, total + d,
                    arenas + [after], paths + [path], amounts + [d])
  {
    var A, P, D, k := arenas + [after], paths + [path], amounts + [d], |paths|;
    assert A[..k + 1] == arenas && P[..k] == paths && D[..k] == amounts;
    assert A[k] == before && A[k + 1] == after && P[k] == path && D[k] == d;
    assert Run(names, A, P, D, source, target);
    assert Sum(D) == total + d;
  }

  /** Two sequences that agree on their first `k - 1` elements and on
      element `k - 1` agree on their first `k`. */
  lemma PrefixStep<T>(x: seq<T>, y: seq<T>, k: nat)
    requires 0 < k <= |x| && k <= |y| && x[..k - 1] == y[..k - 1] && x[k - 1] == y[k - 1]
    ensures x[..k] == y[..k]
  {
    assert x[..k] == x[..k - 1] + [x[k - 1]] && y[..k] == y[..k - 1] + [y[k - 1]];
  }

  /** Two runs from the same arena agree on their first `k` passes. */
  lemma {:induction false} RunsAgree(names: seq<char>, source: nat, target: nat,
                                     a1: seq<seq<Edge>>, p1: seq<seq<nat>>, d1: seq<int>,
                                     a2: seq<seq<Edge>>, p2: seq<seq<nat>>, d2: seq<int>, k: nat)
    requires Run(names, a1, p1, d1, source, target) && Run(names, a2, p2, d2, source, target)
    requires a1[0] == a2[0] && k <= |p1| && k <= |p2|
    ensures a1[k] == a2[k] && p1[..k] == p2[..k] && d1[..k] == d2[..k]
    decreases k
  {
    if k > 0 {
      RunsAgree(names, source, target, a1, p1, d1, a2, p2, d2, k - 1);
      RunAt(names, a1, p1, d1, source, target, k - 1);
      RunAt(names, a2, p2, d2, source, target, k - 1);
      PushedUnique(names, a1[k - 1], a1[k], a2[k], source, target, p1[k - 1], p2[k - 1], d1[k - 1], d2[k - 1]);
      PrefixStep(p1, p2, k);
      PrefixStep(d1, d2, k);
    }
  }

  /** An arena a pass starts from still has an augmenting path. */
  lemma PassNeedsPath(names: seq<char>, before: seq<Edge>, after: seq<Edge>,
                      source: nat, target: nat, path: seq<nat>, d: int)
    requires Pushed(names, before, after, source, target, path, d)
    ensures IsAugmentingPath(before, path, source, target, |names|)
  {
    assert path[0..] == path;
    AugmentingIsSimple(before, path, source, target, SourceOnly(|names|, source));
  }

  /** The loop's result is determined: two runs from the same arena that
      both end with no augmenting path left are the same run, so they end
      in the same arena with the same sum. */
  lemma RunUnique(names: seq<char>, source: nat, target: nat,
                  a1: seq<seq<Edge>>, p1: seq<seq<nat>>, d1: seq<int>,
                  a2: seq<seq<Edge>>, p2: seq<seq<nat>>, d2: seq<int>)
    requires Run(names, a1, p1, d1, source, target) && Run(names, a2, p2, d2, source, target)
    requires a1[0] == a2[0]
    requires NoAugmentingPath(a1[|a1| - 1], source, target, |names|)
    requires NoAugmentingPath(a2[|a2| - 1], source, target, |names|)
    ensures a1 == a2 && p1 == p2 && d1 == d2
  {
    if |p1| < |p2| {
      RunsAgree(names, source, target, a1, p1, d1, a2, p2, d2, |p1|);
      var k := |p1|;
      RunAt(names, a2, p2, d2, source, target, k);
      PassNeedsPath(names, a2[k], a2[k + 1], source, target, p2[k], d2[k]);
      assert false;
    } else if |p2| < |p1| {
      RunsAgree(names, source, target, a2, p2, d2, a1, p1, d1, |p2|);
      var k := |p2|;
      RunAt(names, a1, p1, d1, source, target, k);
      PassNeedsPath(names, a1[k], a1[k + 1], source, target, p1[k], d1[k]);
      assert false;
    } else {
      RunsAgree(names, source, target, a1, p1, d1, a2, p2, d2, |p1|);
      assert a1 == a1[..|p1|] + [a1[|p1|]] && a2 == a2[..|p1|] + [a2[|p1|]];
      forall i | 0 <= i < |p1| ensures a1[i] == a2[i] {
        RunsAgree(names, source, target, a1, p1, d1, a2, p2, d2, i);
      }
      assert p1 == p1[..|p1|] && p2 == p2[..|p2|] && d1 == d1[..|p1|] && d2 == d2[..|p2|];
    }
  }

  /** Some run of findMaxFlow's loop takes `residual` to `edges` and
      pushes `total` units in all. */
  ghost predicate Ran(names: seq<char>, residual: seq<Edge>, edges: seq<Edge>,
                      source: nat, target: nat, total: int)
  {
    exists arenas, paths, amounts ::
      RunFrom(names, residual, edges, source, target, total, arenas, paths, amounts)
  }

  /** findMaxFlow's result is determined by the residual graph it starts
      from: two runs that both stop with no augmenting path left end in
      the same arena with the same value. */
  lemma RanUnique(names: seq<char>, residual: seq<Edge>, e1: seq<Edge>, e2: seq<Edge>,
                  source: nat, target: nat, t1: int, t2: int)
    requires Ran(names, residual, e1, source, target, t1) && NoAugmentingPath(e1, source, target, |names|)
    requires Ran(names, residual, e2, source, target, t2) && NoAugmentingPath(e2, source, target, |names|)
    ensures e1 == e2 && t1 == t2
  {
    var a1, p1, d1 :| RunFrom(names, residual, e1, source, target, t1, a1, p1, d1);
    var a2, p2, d2 :| RunFrom(names, residual, e2, source, target, t2, a2, p2, d2);
    RunUnique(names, source, target, a1, p1, d1, a2, p2, d2);
  }

  /** The residual graph addReverseEdges builds from `E0`. */
  ghost predicate ReversesAdded(names: seq<char>, E0: seq<Edge>, residual: seq<Edge>) {
    KeptOld(E0, residual) && AddedReverses(names, E0, residual) &&
    FullyPaired(residual) && ReversesPaired(residual)
  }

  /** The partner an edge points at (0 when it has none). */
  function PartnerOf(e: Edge): nat {
    if e.reverse.Some? then e.reverse.value else 0
  }

  /** The partners of the edges past the end of `E0`, in arena order. */
  function Partners(E0: seq<Edge>, edges: seq<Edge>): seq<nat>
    requires |E0| <= |edges|
  {
    seq<nat>(|edges| - |E0|, i requires 0 <= i < |edges| - |E0| => PartnerOf(edges[|E0| + i]))
  }

  /** Two lists with the same elements are both empty or both not. */
  lemma SameElementsEmpty(a: seq<nat>, b: seq<nat>)
    requires forall x :: x in a <==> x in b
    ensures a == [] <==> b == []
  {
    if a != [] {
      assert a[0] in b;
    }
    if b != [] {
      assert b[0] in a;
    }
  }

  /** Two lists of edges of `E0`, each strictly increasing in set order,
      that hold the same edges are the same list. */
  lemma {:induction false} SortedUnique(names: seq<char>, E0: seq<Edge>, a: seq<nat>, b: seq<nat>)
    requires EndpointsIn(E0, |names|)
    requires forall i :: 0 <= i < |a| ==> a[i] < |E0|
    requires forall i :: 0 <= i < |b| ==> b[i] < |E0|
    requires forall i, j :: 0 <= i < j < |a| ==> EdgeBefore(names, E0, a[i], a[j])
    requires forall i, j :: 0 <= i < j < |b| ==> EdgeBefore(names, E0, b[i], b[j])
    requires forall x :: x in a <==> x in b
    ensures a == b
    decreases |a|
  {
    SameElementsEmpty(a, b);
    if a != [] {
      assert a[0] in b && b[0] in a;
      var i :| 0 <= i < |a| && a[i] == b[0];
      var j :| 0 <= j < |b| && b[j] == a[0];
      assert a[0] == b[0];
      forall x ensures x in a[1..] <==> x in b[1..] {
        if x in a[1..] {
          var k :| 1 <= k < |a| && a[k] == x;
          assert EdgeBefore(names, E0, a[0], a[k]) && x in b;
          var l :| 0 <= l < |b| && b[l] == x;
          assert l != 0 && b[1..][l - 1] == x;
        }
        if x in b[1..] {
          var l :| 1 <= l < |b| && b[l] == x;
          assert EdgeBefore(names, E0, b[0], b[l]) && x in a;
          var k :| 0 <= k < |a| && a[k] == x;
          assert k != 0 && a[1..][k - 1] == x;
        }
      }
      SortedUnique(names, E0, a[1..], b[1..]);
      assert a == [a[0]] + a[1..] && b == [b[0]] + b[1..];
    }
  }

  /** A strictly increasing list holds each edge once. */
  lemma SortedDistinct(names: seq<char>, E0: seq<Edge>, L: seq<nat>, i: nat, j: nat)
    requires EndpointsIn(E0, |names|) && i < |L| && j < |L|
    requires forall k :: 0 <= k < |L| ==> L[k] < |E0|
    requires forall k, l :: 0 <= k < l < |L| ==> EdgeBefore(names, E0, L[k], L[l])
    requires L[i] == L[j]
    ensures i == j
  {
  }

  /** The edges past the end of `E0` are reverse edges of edges of `E0`
      that had no partner, listed in set order of those partners. */
  lemma PartnersAdded(names: seq<char>, E0: seq<Edge>, r: seq<Edge>)
    requires AddedReverses(names, E0, r)
    ensures forall i :: 0 <= i < |Partners(E0, r)| ==>
      Partners(E0, r)[i] < |E0| && E0[Partners(E0, r)[i]].reverse.None? &&
      r[|E0| + i] == ReverseEdge(E0, Partners(E0, r)[i])
    ensures forall i, j :: 0 <= i < j < |Partners(E0, r)| ==>
      EdgeBefore(names, E0, Partners(E0, r)[i], Partners(E0, r)[j])
  {
    var n, L := |E0|, Partners(E0, r);
    forall i | 0 <= i < |L|
      ensures L[i] < n && E0[L[i]].reverse.None? && r[n + i] == ReverseEdge(E0, L[i])
    {
      assert IsAddedReverse(E0, r, n + i) && L[i] == PartnerOf(r[n + i]);
    }
    forall i, j | 0 <= i < j < |L| ensures EdgeBefore(names, E0, L[i], L[j]) {
      assert IsAddedReverse(E0, r, n + i) && IsAddedReverse(E0, r, n + j);
      assert L[i] == PartnerOf(r[n + i]) && L[j] == PartnerOf(r[n + j]);
    }
  }

  /** Each edge of `E0` that had no partner is listed, at the place of
      the reverse edge it points at. */
  lemma PartnersOfOld(E0: seq<Edge>, r: seq<Edge>)
    requires KeptOld(E0, r) && FullyPaired(r)
    ensures forall e :: 0 <= e < |E0| && E0[e].reverse.None? ==>
      |E0| <= PartnerOf(r[e]) < |r| && Partners(E0, r)[PartnerOf(r[e]) - |E0|] == e
  {
    var n, L := |E0|, Partners(E0, r);
    forall e | 0 <= e < n && E0[e].reverse.None? ensures n <= PartnerOf(r[e]) < |r| && L[PartnerOf(r[e]) - n] == e {
      var q := r[e].reverse.value;
      assert n <= q < |r| && Linked(r, e, q);
      assert L[q - n] == PartnerOf(r[q]);
    }
  }

  /** The partners listed past the end of `E0` are exactly the edges of
      `E0` that had none, each once, in set order. */
  lemma PartnersListed(names: seq<char>, E0: seq<Edge>, r: seq<Edge>)
    requires ReversesAdded(names, E0, r)
    ensures forall i :: 0 <= i < |Partners(E0, r)| ==>
      Partners(E0, r)[i] < |E0| && r[|E0| + i] == ReverseEdge(E0, Partners(E0, r)[i])
    ensures forall i, j :: 0 <= i < j < |Partners(E0, r)| ==>
      EdgeBefore(names, E0, Partners(E0, r)[i], Partners(E0, r)[j])
    ensures forall e :: 0 <= e < |E0| && E0[e].reverse.None? ==>
      |E0| <= PartnerOf(r[e]) < |r| && Partners(E0, r)[PartnerOf(r[e]) - |E0|] == e
    ensures forall x: nat :: x in Partners(E0, r) <==> x < |E0| && E0[x].reverse.None?
  {
    var n, L := |E0|, Partners(E0, r);
    PartnersAdded(names, E0, r);
    PartnersOfOld(E0, r);
    forall x: nat ensures x in L <==> x < n && E0[x].reverse.None? {
      if x < n && E0[x].reverse.None? {
        assert L[PartnerOf(r[x]) - n] == x;
      }
    }
  }

  /** Two arenas whose added edges are the reverse edges of the same
      list of partners agree past the end of `E0`. */
  lemma AddedAgree(E0: seq<Edge>, r1: seq<Edge>, r2: seq<Edge>, L: seq<nat>)
    requires |r1| == |r2| == |E0| + |L|
    requires forall i :: 0 <= i < |L| ==>
               L[i] < |E0| && r1[|E0| + i] == ReverseEdge(E0, L[i]) && r2[|E0| + i] == ReverseEdge(E0, L[i])
    ensures r1[|E0|..] == r2[|E0|..]
  {
    forall x | |E0| <= x < |r1| ensures r1[x] == r2[x] {
      var i := x - |E0|;
      assert L[i] < |E0| && x == |E0| + i;
    }
  }

  /** Two arenas that keep the edges of `E0`, and whose partner lists are
      the same sorted list, give each edge of `E0` the same partner. */
  lemma OldAgree(names: seq<char>, E0: seq<Edge>, r1: seq<Edge>, r2: seq<Edge>, L: seq<nat>)
    requires KeptOld(E0, r1) && KeptOld(E0, r2) && EndpointsIn(E0, |names|)
    requires forall k :: 0 <= k < |L| ==> L[k] < |E0|
    requires forall k, l :: 0 <= k < l < |L| ==> EdgeBefore(names, E0, L[k], L[l])
    requires forall e :: 0 <= e < |E0| && E0[e].reverse.None? ==>
      |E0| <= PartnerOf(r1[e]) < |E0| + |L| && L[PartnerOf(r1[e]) - |E0|] == e
    requires forall e :: 0 <= e < |E0| && E0[e].reverse.None? ==>
      |E0| <= PartnerOf(r2[e]) < |E0| + |L| && L[PartnerOf(r2[e]) - |E0|] == e
    ensures r1[..|E0|] == r2[..|E0|]
  {
    var n := |E0|;
    forall x | 0 <= x < n ensures r1[x] == r2[x] {
      if E0[x].reverse.None? {
        var q1, q2 := PartnerOf(r1[x]), PartnerOf(r2[x]);
        SortedDistinct(names, E0, L, q1 - n, q2 - n);
        assert r1[x].reverse == Some(q1) && r2[x].reverse == Some(q2);
      }
    }
  }

  /** addReverseEdges has one possible result: the residual graph is
      determined by the graph it starts from. */
  lemma ReversesAddedUnique(names: seq<char>, E0: seq<Edge>, r1: seq<Edge>, r2: seq<Edge>)
    requires ReversesAdded(names, E0, r1) && ReversesAdded(names, E0, r2)
    ensures r1 == r2
  {
    var n, L1, L2 := |E0|, Partners(E0, r1), Partners(E0, r2);
    PartnersListed(names, E0, r1);
    PartnersListed(names, E0, r2);
    SortedUnique(names, E0, L1, L2);
    AddedAgree(E0, r1, r2, L1);
    OldAgree(names, E0, r1, r2, L1);
    assert r1 == r1[..n] + r1[n..] && r2 == r2[..n] + r2[n..];
  }

  /** findMaxFlow's result is determined by the graph as read: two final
      arenas, each reached by adding reverse edges to `E0` and then running
      until no augmenting path is left, are the same arena with the same
      value. */
  lemma MaxFlowDetermined(names: seq<char>, E0: seq<Edge>, e1: seq<Edge>, e2: seq<Edge>,
                          source: nat, target: nat, t1: int, t2: int)
    requires exists r :: ReversesAdded(names, E0, r) && Ran(names, r, e1, source, target, t1)
    requires exists r :: ReversesAdded(names, E0, r) && Ran(names, r, e2, source, target, t2)
    requires NoAugmentingPath(e1, source, target, |names|) && NoAugmentingPath(e2, source, target, |names|)
    ensures e1 == e2 && t1 == t2
  {
    var r1 :| ReversesAdded(names, E0, r1) && Ran(names, r1, e1, source, target, t1);
    var r2 :| ReversesAdded(names, E0, r2) && Ran(names, r2, e2, source, target, t2);
    ReversesAddedUnique(names, E0, r1, r2);
    RanUnique(names, r1, e1, e2, source, target, t1, t2);
  }

  /** The path findPath found, with its smallest capacity, satisfies
      changeFlow's assertions, and that capacity is positive. */
  lemma CanPush(names: seq<char>, edges: seq<Edge>, path: seq<nat>, d: int, source: nat, target: nat)
    requires FullyPaired(edges) && source < |names|
    requires AugmentingFrom(edges, path, source, target, SourceOnly(|names|, source))
    requires forall i :: 0 <= i < |path| ==> path[i] < |edges|
    requires forall i :: 0 <= i < |path| ==> d <= edges[path[i]].capacity
    requires exists i :: 0 <= i < |path| && d == edges[path[i]].capacity
    ensures d > 0 && CanAugment(edges, path, d)
  {
    AugmentingIsSimple(edges, path, source, target, SourceOnly(|names|, source));
    SimpleIsDisjoint(edges, path, source, target, SourceOnly(|names|, source));
    DisjointCanAugment(edges, path, d);
  }

  /** One iteration of findMaxFlow's loop: pushing `d` units along an
      augmenting path keeps the loop's invariant with `d` more units of
      flow. */
  lemma AugmentStep(names: seq<char>, residual: seq<Edge>, edges: seq<Edge>, path: seq<nat>,
                    d: int, after: seq<Edge>, source: nat, target: nat, maxFlow: int)
    requires Flowing(names, residual, edges, source, target, maxFlow) && source < |names|
    requires AugmentingFrom(edges, path, source, target, SourceOnly(|names|, source))
    requires d >= 0 && CanAugment(edges, path, d) && after == Augment(edges, path, d)
    ensures Flowing(names, residual, after, source, target, maxFlow + d)
  {
    AugmentingIsSimple(edges, path, source, target, SourceOnly(|names|, source));
    AugmentBalanced(edges, path, d);
    forall v | 0 <= v < |names| ensures NetFlowOut(after, v) ==
      NetFlowOut(edges, v) + (if v == source then d else 0) - (if v == target then d else 0)
    {
      AugmentNetFlow(edges, path, d, source, target, v);
    }
    assert edges[path[|path| - 1]].target == target;
    forall x | 0 <= x < |after| ensures SameShape(after[x], residual[x]) {
      assert SameShape(after[x], edges[x]) && SameShape(edges[x], residual[x]);
    }
    ShapeKeepsBound(residual, after, source);
    NetFlowWithinBound(after, source);
  }

  /** What the flows mean for the edges that were read: each keeps its
      endpoints, and its residual capacity plus its flow is its capacity. */
  lemma FlowEnd(E0: seq<Edge>, residual: seq<Edge>, edges: seq<Edge>)
    requires forall e :: 0 <= e < |E0| ==> !E0[e].isReverse && E0[e].flow == 0
    requires KeptOld(E0, residual) && ShapeOf(residual, edges)
    requires forall e :: 0 <= e < |residual| ==> (e < |E0| <==> !residual[e].isReverse)
    ensures |edges| >= |E0|
    ensures forall e :: 0 <= e < |E0| ==>
      edges[e].source == E0[e].source && edges[e].target == E0[e].target &&
      !edges[e].isReverse && edges[e].capacity + edges[e].flow == E0[e].capacity
    ensures forall r :: |E0| <= r < |edges| ==> edges[r].isReverse
  {
    forall e | 0 <= e < |edges| ensures SameShape(edges[e], residual[e]) {
    }
  }

  class Network {
    /** Vertex v's label (Vertex::name). */
    const names: seq<char>
    /** Vertex v's edge set (Vertex::edges), in set order. */
    var adj: seq<seq<nat>>
    /** Every Edge object, by identity. */
    var edges: seq<Edge>
    /** Graph::vertices: every vertex, in label order. */
    const order: seq<nat>
    /** Graph::source and Graph::target. */
    const source: nat
    const target: nat
    /** Vertex::inPath of every vertex. */
    const inPath: array<bool>

    ghost predicate Valid()
      reads this
    {
      WellFormed(names, adj, edges) && VertexOrder(names, order) &&
      inPath.Length == |names| && source < |names| && target < |names|
    }

    /** The graph as readGraph leaves it: only input edges, none paired,
        no flow, and no vertex on a path. */
    ghost predicate AsRead()
      reads this, inPath
    {
      (forall e :: 0 <= e < |edges| ==>
         !edges[e].isReverse && edges[e].reverse.None? && edges[e].flow == 0) &&
      (forall u :: 0 <= u < inPath.Length ==> !inPath[u])
    }

    constructor (names: seq<char>, adj: seq<seq<nat>>, edges: seq<Edge>, order: seq<nat>,
                 source: nat, target: nat)
      requires WellFormed(names, adj, edges) && VertexOrder(names, order)
      requires source < |names| && target < |names|
      ensures Valid()
      ensures this.names == names && this.adj == adj && this.edges == edges
      ensures this.order == order && this.source == source && this.target == target
      ensures fresh(inPath) && inPath.Length == |names|
      ensures forall u :: 0 <= u < inPath.Length ==> !inPath[u]
    {
      this.names := names;
      this.adj := adj;
      this.edges := edges;
      this.order := order;
      this.source := source;
      this.target := target;
      inPath := new bool[|names|](_ => false);
    }

    /** findMinCapacity: the smallest residual capacity on a non-empty path. */
    method FindMinCapacity(path: seq<nat>) returns (minCapacity: int)
      requires |path| > 0 && forall i :: 0 <= i < |path| ==> path[i] < |edges|
      ensures forall i :: 0 <= i < |path| ==> minCapacity <= edges[path[i]].capacity
      ensures exists i :: 0 <= i < |path| && minCapacity == edges[path[i]].capacity
    {
      minCapacity := edges[path[0]].capacity;
      ghost var at := 0;
      for i := 0 to |path|
        invariant 0 <= at < |path| && minCapacity == edges[path[at]].capacity
        invariant forall k :: 0 <= k < i ==> minCapacity <= edges[path[k]].capacity
      {
        // std::min keeps its first argument unless the second is smaller
        if edges[path[i]].capacity < minCapacity {
          minCapacity := edges[path[i]].capacity;
          at := i;
        }
      }
    }

    /** changeFlow: `flowChange` more units on every edge of the path, as
        many fewer on each one's reverse edge. */
    method ChangeFlow(path: seq<nat>, flowChange: int)
      requires Valid() && flowChange >= 0
      requires CanAugment(edges, path, flowChange)
      modifies this`edges
      ensures Valid() && edges == Augment(old(edges), path, flowChange)
    {
      for i := 0 to |path|
        invariant CanAugment(edges, path[i..], flowChange)
        invariant Augment(edges, path[i..], flowChange) == Augment(old(edges), path, flowChange)
      {
        assert path[i..][1..] == path[i + 1..];
        var e := path[i];
        assert edges[e].capacity >= flowChange;
        var r := edges[e].reverse.value;
        // flow up and capacity down on the edge, the opposite on its reverse
        edges := edges[e := Shifted(edges[e], flowChange)];
        edges := edges[r := Shifted(edges[r], -flowChange)];
      }
      ShapeKeepsWellFormed(names, adj, old(edges), edges);
    }

    /** findPath: depth-first search from `s` for `t`, trying each vertex's
        edges from the last in set order to the first, over edges with
        positive capacity into vertices not on the current path (see
        SearchOutcome).  Only the flag of `s` may change, and it stays set
        exactly when `t` was reached by the edge taken from `s` itself. */
    method FindPath(s: nat, t: nat, path0: seq<nat>, clearPath: bool)
      returns (found: bool, path: seq<nat>)
      requires Valid() && s < |names| && t < |names|
      requires !clearPath ==> inPath[s]
      modifies inPath
      ensures forall u :: 0 <= u < inPath.Length && u != s ==> inPath[u] == old(inPath[u])
      ensures inPath[s] == (found && |path| == |StartOf(path0, clearPath)| + 1)
      ensures SearchOutcome(names, edges, s, t, old(inPath[..])[s := true],
                            StartOf(path0, clearPath), found, path)
      decreases if clearPath then 1 else 0, CountUnmarked(inPath[..]), 1
    {
      path := path0;
      if clearPath {
        path := [];
        inPath[s] := true;
      }
      ghost var P := path;
      ghost var marks := inPath[..];
      assert marks == old(inPath[..])[s := true];
      FirstEdgeInAll(names, adj, edges, s, t, marks);
      var i := |adj[s]|;
      while i > 0
        invariant 0 <= i <= |adj[s]|
        invariant path == P && inPath[..] == marks
        invariant FirstEdgeIn(edges, s, t, marks, adj[s][..i])
      {
        i := i - 1;
        var e := adj[s][i];
        var w := edges[e].target;
        if !inPath[w] && edges[e].capacity > 0 {
          path := path + [e];
          if w == t {
            FoundHere(names, edges, adj[s], i, s, t, marks, P);
            found := true;
            return;
          }
          var pathIsFound;
          pathIsFound, path := Descend(w, t, path);
          if pathIsFound {
            inPath[s] := false;
            FoundDeeper(names, edges, adj[s], i, s, t, marks, P, path);
            found := true;
            return;
          }
          path := path[..|path| - 1];
        }
        DeadEdge(edges, e, s, t, marks);
        SkipEdge(edges, adj[s], i, s, t, marks);
      }
      NotFound(names, edges, adj[s], s, t, marks, P);
      inPath[s] := false;
      found := false;
    }

    /** addReverseEdges: every edge without a partner, visited vertex by
        vertex in label order and edge by edge in set order, gets a new
        reverse edge with swapped endpoints and no capacity, inserted into
        its target's edge set. */
    method AddReverseEdges()
      requires Valid() && PartiallyPaired(edges) && ReversesPaired(edges)
      modifies this`edges, this`adj
      ensures Valid() && FullyPaired(edges) && ReversesPaired(edges)
      ensures KeptOld(old(edges), edges) && AddedReverses(names, old(edges), edges)
    {
      ghost var E0 := edges;
      var k := 0;
      while k < |order|
        invariant 0 <= k <= |order| && Scanned(names, order, adj, E0, edges, k)
      {
        var v := order[k];
        var es := adj[v];
        ScanStart(names, order, adj, E0, edges, k);
        var j := 0;
        while j < |es|
          invariant 0 <= j <= |es| && Scanning(names, order, adj, E0, edges, k, es, j)
        {
          var e := es[j];
          assert !(edges[e].isReverse && edges[e].reverse.None?);
          if edges[e].reverse.None? {
            LinkStep(names, order, adj, E0, edges, k, es, j);
            ghost var before := edges;
            var r := |edges|;
            var reverseEdge := Edge(edges[e].target, edges[e].source, 0, 0, true, Some(e));
            edges := edges + [reverseEdge];
            edges := edges[e := edges[e].(reverse := Some(r))];
            assert edges == WithReverse(before, e);
            var w := reverseEdge.source;
            adj := adj[w := InsertEdge(names, edges, adj[w], r)];
          } else {
            SkipStep(names, order, adj, E0, edges, k, es, j);
          }
          j := j + 1;
        }
        ScanEnd(names, order, adj, E0, edges, k, es);
        k := k + 1;
      }
      AllDone(names, order, adj, E0, edges);
    }

    /** findMaxFlow: builds the residual graph, then augments along the
        path findPath returns, by that path's smallest residual capacity,
        until findPath finds none.  The result is the net flow out of the
        source; the flow respects every capacity, is conserved at every
        other vertex except the target, and leaves no augmenting path. */
    method FindMaxFlow() returns (maxFlow: int)
      requires Valid() && AsRead()
      modifies this`edges, this`adj, inPath
      ensures Valid() && ResidualInvariant(edges)
      ensures |edges| >= old(|edges|)
      ensures forall e :: 0 <= e < old(|edges|) ==>
        edges[e].source == old(edges[e].source) && edges[e].target == old(edges[e].target) &&
        !edges[e].isReverse && edges[e].capacity + edges[e].flow == old(edges[e].capacity)
      ensures forall r :: old(|edges|) <= r < |edges| ==> edges[r].isReverse
      ensures maxFlow >= 0 && NetFlowOut(edges, source) == maxFlow
      ensures maxFlow <= FlowBound(edges, source)
      ensures forall v :: 0 <= v < |names| && v != source && v != target ==> NetFlowOut(edges, v) == 0
      ensures source != target ==> NetFlowOut(edges, target) == -maxFlow
      ensures forall q :: !IsAugmentingPath(edges, q, source, target, |names|)
      ensures forall u :: 0 <= u < inPath.Length ==> !inPath[u]
      ensures exists residual ::
        ReversesAdded(names, old(edges), residual) && Ran(names, residual, edges, source, target, maxFlow)
    {
      ghost var E0 := edges;
      AddReverseEdges();
      ghost var residual := edges;
      ResidualStart(names, E0, residual);
      forall v | 0 <= v < |names| ensures NetFlowOut(residual, v) == 0 {
        NoFlowBalanced(residual, v);
      }
      NetFlowWithinBound(residual, source);
      maxFlow := AugmentAll(residual);
      assert ReversesAdded(names, E0, residual);
      ShapeKeepsBound(residual, edges, source);
      FlowEnd(E0, residual, edges);
    }

    /** The loop of findMaxFlow: from the residual graph with no flow,
        augment until findPath finds no path; the result is the flow
        pushed in all. */
    method AugmentAll(ghost residual: seq<Edge>) returns (maxFlow: int)
      requires Valid() && edges == residual && Flowing(names, residual, edges, source, target, 0)
      requires OnlyMarked(inPath, source)
      modifies this`edges, inPath
      ensures Valid() && Flowing(names, residual, edges, source, target, maxFlow)
      ensures forall q :: !IsAugmentingPath(edges, q, source, target, |names|)
      ensures forall u :: 0 <= u < inPath.Length ==> !inPath[u]
      ensures Ran(names, residual, edges, source, target, maxFlow)
    {
      maxFlow := 0;
      var path: seq<nat> := [];
      ghost var arenas, paths, amounts := [edges], [], [];
      while true
        invariant Valid() && Flowing(names, residual, edges, source, target, maxFlow)
        invariant OnlyMarked(inPath, source)
        invariant RunFrom(names, residual, edges, source, target, maxFlow, arenas, paths, amounts)
        decreases FlowBound(residual, source) - maxFlow
      {
        ghost var before := edges;
        var found, minCapacity;
        found, minCapacity, path := AugmentOnce(path, residual, maxFlow);
        if !found {
          break;
        }
        RunExtend(names, residual, before, edges, source, target, maxFlow, path, minCapacity,
                  arenas, paths, amounts);
        arenas, paths, amounts := arenas + [edges], paths + [path], amounts + [minCapacity];
        maxFlow := maxFlow + minCapacity;
      }
    }

    /** One pass of findMaxFlow's loop: findPath from the source; when it
        finds a path, findMinCapacity gives that path's smallest capacity
        and changeFlow pushes that many units along it, keeping the loop's
        invariant with the larger value; when it finds none, nothing
        changes and no augmenting path is left. */
    method AugmentOnce(path0: seq<nat>, ghost residual: seq<Edge>, ghost maxFlow: int)
      returns (found: bool, minCapacity: int, path: seq<nat>)
      requires Valid() && Flowing(names, residual, edges, source, target, maxFlow)
      requires OnlyMarked(inPath, source)
      modifies this`edges, inPath
      ensures Valid() && OnlyMarked(inPath, source)
      ensures found ==> Pushed(names, old(edges), edges, source, target, path, minCapacity)
      ensures found ==>
        minCapacity > 0 && Flowing(names, residual, edges, source, target, maxFlow + minCapacity)
      ensures !found ==>
        edges == old(edges) && forall q :: !IsAugmentingPath(edges, q, source, target, |names|)
      ensures !found ==> forall u :: 0 <= u < inPath.Length ==> !inPath[u]
    {
      ghost var M := SourceOnly(|names|, source);
      ghost var marks := inPath[..];
      assert marks[source := true] == M;
      found, path := FindPath(source, target, path0, true);
      assert StartOf(path0, true) == [];
      if !found {
        NoSimplePath(edges, source, target, M);
        minCapacity := 0;
        return;
      }
      assert OnlyMarked(inPath, source);
      minCapacity := PushAlong(path, residual, maxFlow);
    }

    /** Lines 150-159 of findMaxFlow: the smallest capacity on the path
        the search returned, and that many units pushed along the path. */
    method PushAlong(path: seq<nat>, ghost residual: seq<Edge>, ghost maxFlow: int)
      returns (minCapacity: int)
      requires Valid() && Flowing(names, residual, edges, source, target, maxFlow)
      requires SearchOutcome(names, edges, source, target, SourceOnly(|names|, source), [], true, path)
      modifies this`edges
      ensures Valid()
      ensures Pushed(names, old(edges), edges, source, target, path, minCapacity)
      ensures minCapacity > 0 && Flowing(names, residual, edges, source, target, maxFlow + minCapacity)
    {
      ghost var M := SourceOnly(|names|, source);
      assert path[0..] == path;
      assert DfsPath(names, edges, path, source, target, M);
      AugmentingInBounds(edges, path, source, target, M);
      minCapacity := FindMinCapacity(path);
      ghost var before := edges;
      CanPush(names, edges, path, minCapacity, source, target);
      ChangeFlow(path, minCapacity);
      AugmentStep(names, residual, before, path, minCapacity, edges, source, target, maxFlow);
    }

    /** Lines 54-56 of findPath: the search continues from `w` with `w`
        on the path, and `w` is taken off the path afterwards. */
    method Descend(w: nat, t: nat, path0: seq<nat>) returns (found: bool, path: seq<nat>)
      requires Valid() && w < |names| && t < |names| && !inPath[w]
      modifies inPath
      ensures forall u :: 0 <= u < inPath.Length ==> inPath[u] == old(inPath[u])
      ensures SearchOutcome(names, edges, w, t, old(inPath[..])[w := true], path0, found, path)
      decreases 0, CountUnmarked(inPath[..]), 0
    {
      ghost var marks := inPath[..];
      inPath[w] := true;
      assert inPath[..] == marks[w := true] && inPath[..][w := true] == marks[w := true];
      MarkShrinks(marks, w);
      found, path := FindPath(w, t, path0, false);
      inPath[w] := false;
    }
  }
}
