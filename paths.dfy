/** What the depth-first search (findPath) looks for, and the facts about
    such paths that the driver relies on. */
module Paths {
  import opened Graph
  import opened FlowUpdate

  /** A directed walk from `s` to `t`: each edge starts where the previous
      one ends. */
  predicate Walk(edges: seq<Edge>, q: seq<nat>, s: nat, t: nat) {
    |q| > 0 &&
    (forall i :: 0 <= i < |q| ==> q[i] < |edges|) &&
    edges[q[0]].source == s &&
    (forall i :: 0 < i < |q| ==> edges[q[i]].source == edges[q[i - 1]].target) &&
    edges[q[|q| - 1]].target == t
  }

  /** A simple path from `v` to `t` when `marks` are the inPath flags: a
      walk over edges of positive capacity whose targets are pairwise
      distinct and not marked. */
  predicate SimplePathFrom(edges: seq<Edge>, q: seq<nat>, v: nat, t: nat, marks: seq<bool>) {
    Walk(edges, q, v, t) &&
    (forall i :: 0 <= i < |q| ==>
       edges[q[i]].capacity > 0 && edges[q[i]].target < |marks| && !marks[edges[q[i]].target]) &&
    (forall i, j :: 0 <= i < j < |q| ==> edges[q[i]].target != edges[q[j]].target)
  }

  /** A search path from `v`: a path findPath's exploration can reach,
      defined the way findPath explores: an edge of `v` with positive capacity into an unmarked
      vertex, which is `t` or, once marked, starts such a path again. */
  predicate AugmentingFrom(edges: seq<Edge>, q: seq<nat>, v: nat, t: nat, marks: seq<bool>)
    decreases |q|
  {
    |q| > 0 && q[0] < |edges| && edges[q[0]].source == v && edges[q[0]].capacity > 0 &&
    edges[q[0]].target < |marks| && !marks[edges[q[0]].target] &&
    if |q| == 1 then edges[q[0]].target == t
    else AugmentingFrom(edges, q[1..], edges[q[0]].target, t, marks[edges[q[0]].target := true])
  }

  /** No search path from `v` reaches `t` under `marks`. */
  ghost predicate NoAugmentingFrom(edges: seq<Edge>, v: nat, t: nat, marks: seq<bool>) {
    forall q :: !AugmentingFrom(edges, q, v, t, marks)
  }

  /** The inPath flags at the start of a top-level search: only the source. */
  function SourceOnly(n: nat, s: nat): seq<bool> {
    seq(n, u => u == s)
  }

  /** An augmenting path of the residual graph: a simple path from `s` to
      `t` over edges of positive residual capacity. */
  predicate IsAugmentingPath(edges: seq<Edge>, q: seq<nat>, s: nat, t: nat, n: nat) {
    SimplePathFrom(edges, q, s, t, SourceOnly(n, s))
  }

  /** The residual graph has no augmenting path from `s` to `t`. */
  ghost predicate NoAugmentingPath(edges: seq<Edge>, s: nat, t: nat, n: nat) {
    forall q :: !IsAugmentingPath(edges, q, s, t, n)
  }

  /** Dropping the first edge of a simple path leaves a simple path from
      that edge's target with the target marked. */
  lemma SimpleTail(edges: seq<Edge>, q: seq<nat>, v: nat, t: nat, marks: seq<bool>)
    requires SimplePathFrom(edges, q, v, t, marks)
    ensures |q| > 1 ==>
      SimplePathFrom(edges, q[1..], edges[q[0]].target, t, marks[edges[q[0]].target := true])
  {
    if |q| > 1 {
      var w := edges[q[0]].target;
      var rest := q[1..];
      forall i | 0 <= i < |rest| ensures edges[rest[i]].target != w {
        assert rest[i] == q[i + 1];
      }
      forall i | 0 < i < |rest| ensures edges[rest[i]].source == edges[rest[i - 1]].target {
        assert rest[i] == q[i + 1] && rest[i - 1] == q[i];
      }
      assert rest[|rest| - 1] == q[|q| - 1];
    }
  }

  /** An edge into an unmarked vertex followed by a simple path from there
      (with that vertex marked) is a simple path. */
  lemma SimpleCons(edges: seq<Edge>, e: nat, rest: seq<nat>, v: nat, t: nat, marks: seq<bool>)
    requires e < |edges| && edges[e].source == v && edges[e].capacity > 0
    requires edges[e].target < |marks| && !marks[edges[e].target]
    requires SimplePathFrom(edges, rest, edges[e].target, t, marks[edges[e].target := true])
    ensures SimplePathFrom(edges, [e] + rest, v, t, marks)
  {
    var q := [e] + rest;
    forall i | 0 < i < |q| ensures q[i] == rest[i - 1] {
    }
    forall i, j | 0 <= i < j < |q| ensures edges[q[i]].target != edges[q[j]].target {
      if i > 0 {
        assert edges[rest[i - 1]].target != edges[rest[j - 1]].target;
      }
    }
  }

  /** Every search path is a simple path. */
  lemma {:induction false} AugmentingIsSimple(edges: seq<Edge>, q: seq<nat>, v: nat, t: nat, marks: seq<bool>)
    requires AugmentingFrom(edges, q, v, t, marks)
    ensures SimplePathFrom(edges, q, v, t, marks)
    decreases |q|
  {
    var w := edges[q[0]].target;
    if |q| > 1 {
      AugmentingIsSimple(edges, q[1..], w, t, marks[w := true]);
      SimpleCons(edges, q[0], q[1..], v, t, marks);
      assert [q[0]] + q[1..] == q;
    }
  }

  /** The edges of a search path are edges of the arena. */
  lemma AugmentingInBounds(edges: seq<Edge>, q: seq<nat>, v: nat, t: nat, marks: seq<bool>)
    requires AugmentingFrom(edges, q, v, t, marks)
    ensures |q| > 0 && forall i :: 0 <= i < |q| ==> q[i] < |edges|
  {
    AugmentingIsSimple(edges, q, v, t, marks);
  }

  /** Every simple path is a search path. */
  lemma {:induction false} SimpleIsAugmenting(edges: seq<Edge>, q: seq<nat>, v: nat, t: nat, marks: seq<bool>)
    requires SimplePathFrom(edges, q, v, t, marks)
    ensures AugmentingFrom(edges, q, v, t, marks)
    decreases |q|
  {
    if |q| > 1 {
      SimpleTail(edges, q, v, t, marks);
      SimpleIsAugmenting(edges, q[1..], edges[q[0]].target, t, marks[edges[q[0]].target := true]);
    }
  }

  /** An edge into an unmarked vertex followed by a search path from there
      is a search path (line 51 and the recursive call of findPath). */
  lemma ConsAugmenting(edges: seq<Edge>, e: nat, rest: seq<nat>, v: nat, t: nat, marks: seq<bool>)
    requires e < |edges| && edges[e].source == v && edges[e].capacity > 0
    requires edges[e].target < |marks| && !marks[edges[e].target] && edges[e].target != t
    requires AugmentingFrom(edges, rest, edges[e].target, t, marks[edges[e].target := true])
    ensures AugmentingFrom(edges, [e] + rest, v, t, marks)
  {
    assert ([e] + rest)[1..] == rest;
  }

  /** The k-th vertex a path visits: its start, then each edge's target. */
  function VertexAt(edges: seq<Edge>, q: seq<nat>, v: nat, k: nat): nat
    requires k <= |q| && forall i :: 0 <= i < |q| ==> q[i] < |edges|
  {
    if k == 0 then v else edges[q[k - 1]].target
  }

  /** A search path never visits a vertex twice. */
  lemma VisitsOnce(edges: seq<Edge>, q: seq<nat>, v: nat, t: nat, marks: seq<bool>, a: nat, b: nat)
    requires SimplePathFrom(edges, q, v, t, marks) && v < |marks| && marks[v]
    requires a <= |q| && b <= |q|
    ensures VertexAt(edges, q, v, a) == VertexAt(edges, q, v, b) ==> a == b
  {
    if a > 0 && b > 0 && a != b {
      if a < b {
        assert edges[q[a - 1]].target != edges[q[b - 1]].target;
      } else {
        assert edges[q[b - 1]].target != edges[q[a - 1]].target;
      }
    }
  }

  /** Distinct targets and a marked start make a path simple, so its edges
      are pairwise distinct and never one another's reverse. */
  lemma SimpleIsDisjoint(edges: seq<Edge>, q: seq<nat>, v: nat, t: nat, marks: seq<bool>)
    requires PartiallyPaired(edges) && SimplePathFrom(edges, q, v, t, marks)
    requires v < |marks| && marks[v]
    ensures Disjoint(edges, q)
  {
    forall k | 0 <= k < |q|
      ensures edges[q[k]].source == VertexAt(edges, q, v, k)
      ensures edges[q[k]].target == VertexAt(edges, q, v, k + 1)
    {
    }
    forall i, j | 0 <= i < j < |q| ensures q[i] != q[j] {
      VisitsOnce(edges, q, v, t, marks, i + 1, j + 1);
    }
    forall i, j | 0 <= i < |q| && 0 <= j < |q| ensures edges[q[i]].reverse != Some(q[j]) {
      VisitsOnce(edges, q, v, t, marks, j, i + 1);
      VisitsOnce(edges, q, v, t, marks, j + 1, i);
    }
  }

  /** Pushing `d` along a walk from `s` to `t` moves `d` units of net flow
      out of `s` and into `t`, and leaves every other vertex balanced. */
  lemma {:induction false} AugmentNetFlow(edges: seq<Edge>, q: seq<nat>, d: int, s: nat, t: nat, v: nat)
    requires PartiallyPaired(edges) && CanAugment(edges, q, d) && Walk(edges, q, s, t)
    ensures NetFlowOut(Augment(edges, q, d), v) ==
      NetFlowOut(edges, v) + (if v == s then d else 0) - (if v == t then d else 0)
    decreases |q|
  {
    var e := q[0];
    var pushed := Push(edges, e, d);
    PushNetFlow(edges, e, d, v);
    var w := edges[e].target;
    if |q| > 1 {
      var rest := q[1..];
      ShapeKeepsPairing(edges, pushed);
      forall i | 0 <= i < |rest| ensures rest[i] == q[i + 1] && SameShape(pushed[rest[i]], edges[rest[i]]) {
      }
      assert Walk(pushed, rest, w, t) by {
        forall i | 0 < i < |rest| ensures pushed[rest[i]].source == pushed[rest[i - 1]].target {
          assert edges[q[i + 1]].source == edges[q[i]].target;
        }
      }
      AugmentNetFlow(pushed, rest, d, w, t, v);
    }
  }

  /** Number of vertices not on the current search path. */
  function CountUnmarked(marks: seq<bool>): nat
    decreases |marks|
  {
    if marks == [] then 0 else (if marks[0] then 0 else 1) + CountUnmarked(marks[1..])
  }

  /** Marking an unmarked vertex shrinks the count: the recursion of
      findPath terminates. */
  lemma {:induction false} MarkShrinks(marks: seq<bool>, w: nat)
    requires w < |marks| && !marks[w]
    ensures CountUnmarked(marks[w := true]) == CountUnmarked(marks) - 1
    decreases |marks|
  {
    if w == 0 {
      assert marks[w := true][1..] == marks[1..];
    } else {
      assert marks[w := true][1..] == marks[1..][w - 1 := true];
      MarkShrinks(marks[1..], w - 1);
    }
  }

  /** Among properly ordered edges, an element of a prefix either is the
      prefix's last edge or comes before it. */
  lemma InPrefixBefore(names: seq<char>, edges: seq<Edge>, s: seq<nat>, i: nat, x: nat)
    requires SortedEdges(names, edges, s) && i < |s| && x in s[..i + 1]
    ensures ValidEdge(names, edges, x)
    ensures x == s[i] || EdgeBefore(names, edges, x, s[i])
  {
    var j :| 0 <= j <= i && s[j] == x;
  }

  /** Every search path from `s` begins with an edge of `s`'s edge set
      `cand`, restricted to its first `i` elements. */
  ghost predicate FirstEdgeIn(edges: seq<Edge>, s: nat, t: nat, marks: seq<bool>, cand: seq<nat>) {
    forall q :: AugmentingFrom(edges, q, s, t, marks) ==> q[0] in cand
  }

  /** Before the scan: every search path leaves `s` by one of its edges. */
  lemma FirstEdgeInAll(names: seq<char>, adj: seq<seq<nat>>, edges: seq<Edge>, s: nat, t: nat, marks: seq<bool>)
    requires WellFormed(names, adj, edges) && s < |adj|
    ensures FirstEdgeIn(edges, s, t, marks, adj[s][..|adj[s]|])
  {
    assert adj[s][..|adj[s]|] == adj[s];
    forall q | AugmentingFrom(edges, q, s, t, marks) ensures q[0] in adj[s] {
      assert q[0] in adj[edges[q[0]].source];
    }
  }

  /** Edge `e` starts no search path from `s`: its target is marked, it
      has no capacity left, or (when its target is not `t`) no search path
      continues from its target. */
  lemma DeadEdge(edges: seq<Edge>, e: nat, s: nat, t: nat, marks: seq<bool>)
    requires e < |edges| && edges[e].target < |marks|
    requires marks[edges[e].target] || edges[e].capacity <= 0 ||
      (edges[e].target != t &&
       NoAugmentingFrom(edges, edges[e].target, t, marks[edges[e].target := true]))
    ensures forall q :: AugmentingFrom(edges, q, s, t, marks) ==> q[0] != e
  {
    forall q | AugmentingFrom(edges, q, s, t, marks) ensures q[0] != e {
      if |q| > 1 && !marks[edges[e].target] && edges[e].capacity > 0 {
        assert !AugmentingFrom(edges, q[1..], edges[e].target, t, marks[edges[e].target := true]);
      }
    }
  }

  /** Passing over a dead edge in the backward scan. */
  lemma SkipEdge(edges: seq<Edge>, cand: seq<nat>, i: nat, s: nat, t: nat, marks: seq<bool>)
    requires i < |cand| && FirstEdgeIn(edges, s, t, marks, cand[..i + 1])
    requires forall q :: AugmentingFrom(edges, q, s, t, marks) ==> q[0] != cand[i]
    ensures FirstEdgeIn(edges, s, t, marks, cand[..i])
  {
    assert cand[..i + 1] == cand[..i] + [cand[i]];
  }

  /** The edge the backward scan is at comes, in set order, at or after the
      first edge of every search path. */
  lemma ScanPicksLast(names: seq<char>, edges: seq<Edge>, cand: seq<nat>, i: nat, s: nat, t: nat, marks: seq<bool>)
    requires SortedEdges(names, edges, cand) && i < |cand|
    requires FirstEdgeIn(edges, s, t, marks, cand[..i + 1])
    ensures forall q :: AugmentingFrom(edges, q, s, t, marks) ==>
      ValidEdge(names, edges, q[0]) && (q[0] == cand[i] || EdgeBefore(names, edges, q[0], cand[i]))
  {
    forall q | AugmentingFrom(edges, q, s, t, marks)
      ensures ValidEdge(names, edges, q[0]) && (q[0] == cand[i] || EdgeBefore(names, edges, q[0], cand[i]))
    {
      InPrefixBefore(names, edges, cand, i, q[0]);
    }
  }

  /** The path the depth-first search returns from `v`: a search path
      whose first edge comes, in set order, at or after the first edge of
      every search path from `v` (the scan runs backwards), and whose rest
      is, with that edge's target marked, the path the search returns from
      there. */
  ghost predicate DfsPath(names: seq<char>, edges: seq<Edge>, q: seq<nat>, v: nat, t: nat, marks: seq<bool>)
    requires EndpointsIn(edges, |names|)
    decreases |q|
  {
    AugmentingFrom(edges, q, v, t, marks) &&
    (forall q' :: AugmentingFrom(edges, q', v, t, marks) ==>
       q'[0] == q[0] || EdgeBefore(names, edges, q'[0], q[0])) &&
    (|q| > 1 ==>
       DfsPath(names, edges, q[1..], edges[q[0]].target, t, marks[edges[q[0]].target := true]))
  }

  /** A search path never ends at a marked vertex, so `t` is unmarked. */
  lemma {:induction false} TargetUnmarked(edges: seq<Edge>, q: seq<nat>, v: nat, t: nat, marks: seq<bool>)
    requires AugmentingFrom(edges, q, v, t, marks)
    ensures t < |marks| && !marks[t]
    decreases |q|
  {
    var w := edges[q[0]].target;
    if |q| > 1 {
      TargetUnmarked(edges, q[1..], w, t, marks[w := true]);
    }
  }

  /** The search is deterministic: there is at most one path it returns. */
  lemma {:induction false} DfsPathUnique(names: seq<char>, edges: seq<Edge>, q1: seq<nat>, q2: seq<nat>,
                                         v: nat, t: nat, marks: seq<bool>)
    requires EndpointsIn(edges, |names|)
    requires DfsPath(names, edges, q1, v, t, marks) && DfsPath(names, edges, q2, v, t, marks)
    ensures q1 == q2
    decreases |q1|
  {
    // each first edge is at or after the other, and the comparator is asymmetric
    assert q1[0] == q2[0];
    var w := edges[q1[0]].target;
    if |q1| > 1 {
      TargetUnmarked(edges, q1[1..], w, t, marks[w := true]);
    }
    if |q2| > 1 {
      TargetUnmarked(edges, q2[1..], w, t, marks[w := true]);
    }
    if w != t {
      DfsPathUnique(names, edges, q1[1..], q2[1..], w, t, marks[w := true]);
      assert q1 == [q1[0]] + q1[1..] && q2 == [q2[0]] + q2[1..];
    }
  }

  /** What findPath promises when it extends the path `P` under
      construction by a search from `s` with inPath flags `marks`.  On
      success: the path the depth-first search returns is appended to P.
      On failure: P is unchanged and there is no search path at all. */
  ghost predicate SearchOutcome(names: seq<char>, edges: seq<Edge>, s: nat, t: nat, marks: seq<bool>,
                                P: seq<nat>, found: bool, path: seq<nat>)
  {
    EndpointsIn(edges, |names|) &&
    if found then
      |P| < |path| && path[..|P|] == P && DfsPath(names, edges, path[|P|..], s, t, marks)
    else
      path == P && NoAugmentingFrom(edges, s, t, marks)
  }

  /** The scanned edge leads straight to `t` (line 52). */
  lemma FoundHere(names: seq<char>, edges: seq<Edge>, cand: seq<nat>, i: nat,
                  s: nat, t: nat, marks: seq<bool>, P: seq<nat>)
    requires EndpointsIn(edges, |names|) && SortedEdges(names, edges, cand) && i < |cand|
    requires FirstEdgeIn(edges, s, t, marks, cand[..i + 1])
    requires edges[cand[i]].source == s && edges[cand[i]].capacity > 0
    requires edges[cand[i]].target < |marks| && !marks[edges[cand[i]].target]
    requires edges[cand[i]].target == t
    ensures SearchOutcome(names, edges, s, t, marks, P, true, P + [cand[i]])
  {
    var path := P + [cand[i]];
    assert path[..|P|] == P && path[|P|..] == [cand[i]];
    ScanPicksLast(names, edges, cand, i, s, t, marks);
  }

  /** The recursive search from the scanned edge's target succeeded
      (line 57). */
  lemma FoundDeeper(names: seq<char>, edges: seq<Edge>, cand: seq<nat>, i: nat,
                    s: nat, t: nat, marks: seq<bool>, P: seq<nat>, path: seq<nat>)
    requires EndpointsIn(edges, |names|) && SortedEdges(names, edges, cand) && i < |cand|
    requires FirstEdgeIn(edges, s, t, marks, cand[..i + 1])
    requires edges[cand[i]].source == s && edges[cand[i]].capacity > 0
    requires edges[cand[i]].target < |marks| && !marks[edges[cand[i]].target]
    requires edges[cand[i]].target != t
    requires SearchOutcome(names, edges, edges[cand[i]].target, t,
                           marks[edges[cand[i]].target := true], P + [cand[i]], true, path)
    ensures SearchOutcome(names, edges, s, t, marks, P, true, path)
  {
    var e := cand[i];
    assert path[..|P| + 1][|P|] == e;
    assert path[..|P|] == path[..|P| + 1][..|P|];
    var rest := path[|P| + 1..];
    assert path[|P| + 1..] == path[|P|..][1..];
    ConsAugmenting(edges, e, rest, s, t, marks);
    assert path[|P|..] == [e] + rest;
    ScanPicksLast(names, edges, cand, i, s, t, marks);
  }

  /** The scan ended without success (line 65). */
  lemma NotFound(names: seq<char>, edges: seq<Edge>, cand: seq<nat>, s: nat, t: nat,
                 marks: seq<bool>, P: seq<nat>)
    requires EndpointsIn(edges, |names|) && FirstEdgeIn(edges, s, t, marks, cand[..0])
    ensures SearchOutcome(names, edges, s, t, marks, P, false, P)
  {
    assert cand[..0] == [];
  }

  /** When the search finds nothing, there is no simple path at all. */
  lemma NoSimplePath(edges: seq<Edge>, v: nat, t: nat, marks: seq<bool>)
    requires NoAugmentingFrom(edges, v, t, marks)
    ensures forall q :: !SimplePathFrom(edges, q, v, t, marks)
  {
    forall q ensures SimplePathFrom(edges, q, v, t, marks) ==> AugmentingFrom(edges, q, v, t, marks) {
      if SimplePathFrom(edges, q, v, t, marks) {
        SimpleIsAugmenting(edges, q, v, t, marks);
      }
    }
  }
}
