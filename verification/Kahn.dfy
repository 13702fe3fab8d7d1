// Kahn's worklist over a finite dependency graph.
//
// The contract validator and the destination planner each write this loop out,
// enumerating the children of a node in different orders.  Both loops are runs of
// Relax, and everything below is about any such run.
module Kahn {
  import opened Values

  /** `edges` holds (parent, child) pairs; self-relations never become edges. */
  datatype Graph = Graph(nodes: seq<string>, edges: set<(string, string)>)

  ghost predicate WellFormed(g: Graph) {
    && NoDup(g.nodes)
    && forall e | e in g.edges :: e.0 in g.nodes && e.1 in g.nodes && e.0 != e.1
  }

  function Parents(g: Graph, n: string): set<string> {
    set m | m in g.nodes && (m, n) in g.edges
  }

  function Children(g: Graph, n: string): set<string> {
    set m | m in g.nodes && (n, m) in g.edges
  }

  ghost predicate IsCycle(g: Graph, p: seq<string>) {
    && |p| >= 2
    && p[0] == p[|p| - 1]
    && forall i | 0 <= i < |p| - 1 :: (p[i], p[i + 1]) in g.edges
  }

  ghost predicate Cyclic(g: Graph) {
    exists p :: IsCycle(g, p)
  }

  /** Every node stands after all of its parents. */
  ghost predicate Topological(g: Graph, order: seq<string>) {
    forall i {:trigger Parents(g, order[i])} | 0 <= i < |order| :: Parents(g, order[i]) <= Elems(order[..i])
  }

  /** A duplicate-free listing of exactly the nodes, parents first. */
  ghost predicate IsLinearization(g: Graph, order: seq<string>) {
    NoDup(order) && Elems(order) == Elems(g.nodes) && Topological(g, order)
  }

  // ---- the worklist -------------------------------------------------------

  datatype State = State(pending: map<string, set<string>>, ready: seq<string>, visited: seq<string>)

  /** One pass through the inner loop body: the edge current -> child is satisfied. */
  function Relax(st: State, current: string, child: string): State
    requires child in st.pending
  {
    var left := st.pending[child] - {current};
    State(
      st.pending[child := left],
      if left == {} && child !in st.ready && child !in st.visited then st.ready + [child] else st.ready,
      st.visited)
  }

  function RelaxAll(st: State, current: string, kids: seq<string>): (r: State)
    requires forall k | k in kids :: k in st.pending
    ensures r.pending.Keys == st.pending.Keys && r.visited == st.visited
  {
    if kids == [] then st
    else
      var n := |kids| - 1;
      assert forall k | k in kids[..n] :: k in kids;
      Relax(RelaxAll(st, current, kids[..n]), current, kids[n])
  }

  lemma RelaxAllStep(st: State, current: string, kids: seq<string>, child: string)
    requires forall k | k in kids :: k in st.pending
    requires child in st.pending
    ensures forall k | k in kids + [child] :: k in st.pending
    ensures RelaxAll(st, current, kids + [child]) == Relax(RelaxAll(st, current, kids), current, child)
  {
    var more := kids + [child];
    assert more[..|more| - 1] == kids;
  }

  /** `current = ready.pop(0); visited.append(current)` */
  function Pop(st: State): State
    requires st.ready != []
  {
    State(st.pending, st.ready[1..], st.visited + [st.ready[0]])
  }

  ghost predicate Inv(g: Graph, st: State) {
    && st.pending.Keys == Elems(g.nodes)
    && (forall n | n in g.nodes :: st.pending[n] == Parents(g, n) - Elems(st.visited))
    && Settled(g, st)
    && Topological(g, st.visited)
  }

  /** The nodes queued or visited are exactly those with nothing pending, each once. */
  ghost predicate Settled(g: Graph, st: State)
    requires st.pending.Keys == Elems(g.nodes)
  {
    && NoDup(st.ready)
    && NoDup(st.visited)
    && (forall n | n in st.ready :: n !in st.visited)
    && (forall n | n in st.ready || n in st.visited :: n in g.nodes)
    && (forall n | n in g.nodes :: n in st.ready || n in st.visited <==> st.pending[n] == {})
  }

  /** The state between two children of `current`: those in `done` have forgotten it. */
  ghost predicate MidInv(g: Graph, st: State, before: seq<string>, current: string, done: set<string>) {
    && st.visited == before + [current]
    && current in g.nodes
    && st.pending.Keys == Elems(g.nodes)
    && (forall n | n in g.nodes ::
          st.pending[n] == Parents(g, n) - Elems(before) - (if n in done then {current} else {}))
    && Settled(g, st)
  }

  lemma PopMid(g: Graph, st: State)
    requires WellFormed(g) && Inv(g, st) && st.ready != []
    ensures MidInv(g, Pop(st), st.visited, st.ready[0], {})
    ensures Topological(g, Pop(st).visited)
  {
    var c := st.ready[0];
    var p := Pop(st);
    assert c in st.ready;
    assert st.ready == [c] + p.ready;
    forall m | m in Parents(g, c) ensures m in Elems(st.visited) {
      assert m !in st.pending[c];
    }
    forall i | 0 <= i < |p.visited| ensures Parents(g, p.visited[i]) <= Elems(p.visited[..i]) {
      assert p.visited[..i] == st.visited[..i];
      assert st.visited[..|st.visited|] == st.visited;
    }
    assert NoDup(p.visited);
  }

  lemma RelaxMid(g: Graph, st: State, before: seq<string>, current: string, done: set<string>, child: string)
    requires WellFormed(g) && MidInv(g, st, before, current, done) && child in g.nodes
    ensures MidInv(g, Relax(st, current, child), before, current, done + {child})
  {
    RelaxSettles(g, st, current, child);
  }

  /** Queueing a child that has nothing left pending keeps the queue exact. */
  lemma RelaxSettles(g: Graph, st: State, current: string, child: string)
    requires st.pending.Keys == Elems(g.nodes) && Settled(g, st) && child in g.nodes
    ensures Relax(st, current, child).pending.Keys == Elems(g.nodes) && Settled(g, Relax(st, current, child))
  {
    var r := Relax(st, current, child);
    assert forall n :: n in r.ready ==> n in st.ready || n == child;
    assert forall n :: n in st.ready ==> n in r.ready;
    assert r.ready != st.ready ==> r.ready[|st.ready|] == child;
  }

  lemma {:induction false} RelaxAllMid(g: Graph, st: State, before: seq<string>, current: string, kids: seq<string>)
    requires WellFormed(g) && MidInv(g, st, before, current, {})
    requires forall k | k in kids :: k in g.nodes
    ensures MidInv(g, RelaxAll(st, current, kids), before, current, Elems(kids))
  {
    if kids != [] {
      var n := |kids| - 1;
      assert forall k | k in kids[..n] :: k in kids;
      RelaxAllMid(g, st, before, current, kids[..n]);
      RelaxMid(g, RelaxAll(st, current, kids[..n]), before, current, Elems(kids[..n]), kids[n]);
      ElemsSplit(kids);
    } else {
      assert Elems(kids) == {};
    }
  }

  /** One turn of the outer loop keeps the invariant, whatever order lists the children. */
  lemma TurnKeepsInv(g: Graph, st: State, kids: seq<string>)
    requires WellFormed(g) && Inv(g, st) && st.ready != []
    requires Elems(kids) == Children(g, st.ready[0])
    ensures forall k | k in kids :: k in Pop(st).pending
    ensures Inv(g, RelaxAll(Pop(st), st.ready[0], kids))
  {
    var c := st.ready[0];
    PopMid(g, st);
    assert forall k | k in kids :: k in g.nodes by {
      forall k | k in kids ensures k in g.nodes {
        assert k in Elems(kids);
        assert (c, k) in g.edges;
      }
    }
    RelaxAllMid(g, Pop(st), st.visited, c, kids);
    var r := RelaxAll(Pop(st), c, kids);
    ElemsAppend(st.visited, c);
    forall n | n in g.nodes
      ensures r.pending[n] == Parents(g, n) - Elems(r.visited)
    {
      assert c in Parents(g, n) <==> (c, n) in g.edges;
      assert n in Elems(kids) <==> (c, n) in g.edges;
    }
  }

  ghost predicate Initial(g: Graph, st: State) {
    && st.visited == []
    && st.pending.Keys == Elems(g.nodes)
    && (forall n | n in g.nodes :: st.pending[n] == Parents(g, n))
    && NoDup(st.ready)
    && (forall n :: n in st.ready <==> n in g.nodes && Parents(g, n) == {})
  }

  lemma InitialInv(g: Graph, st: State)
    requires WellFormed(g) && Initial(g, st)
    ensures Inv(g, st)
  {
  }

  lemma VisitedBound(g: Graph, st: State)
    requires WellFormed(g) && Inv(g, st)
    ensures |st.visited| <= |g.nodes|
    ensures st.ready != [] ==> |st.visited| < |g.nodes|
    ensures |st.visited| == |g.nodes| <==> Elems(st.visited) == Elems(g.nodes)
  {
    NoDupWithin(st.visited, g.nodes);
    if st.ready != [] {
      assert st.ready[0] in Elems(g.nodes);
      assert st.ready[0] !in Elems(st.visited);
    }
  }

  // ---- completeness -------------------------------------------------------

  lemma EdgePointsForward(g: Graph, order: seq<string>, parent: nat, child: nat)
    requires NoDup(order) && Topological(g, order) && parent < |order| && child < |order|
    requires order[parent] in g.nodes && (order[parent], order[child]) in g.edges
    ensures parent < child
  {
    assert order[parent] in Parents(g, order[child]);
    assert order[parent] in Elems(order[..child]);
    var k :| 0 <= k < child && order[k] == order[parent];
    assert k == parent;
  }

  /** In a topological listing an edge always points forward, so no path returns to its start. */
  lemma LinearizationAcyclic(g: Graph, order: seq<string>)
    requires WellFormed(g) && IsLinearization(g, order)
    ensures !Cyclic(g)
  {
    if p :| IsCycle(g, p) {
      assert (p[0], p[1]) in g.edges;
      assert p[0] in Elems(order);
      var a :| 0 <= a < |order| && order[a] == p[0];
      var b := Advance(g, order, p, a, |p| - 1);
      assert false;
    }
  }

  lemma {:induction false} Advance(g: Graph, order: seq<string>, p: seq<string>, a: nat, k: nat) returns (b: nat)
    requires WellFormed(g) && IsLinearization(g, order) && IsCycle(g, p)
    requires a < |order| && order[a] == p[0] && k < |p|
    ensures b < |order| && order[b] == p[k]
    ensures k > 0 ==> a < b
  {
    if k == 0 {
      b := a;
    } else {
      var prev := Advance(g, order, p, a, k - 1);
      assert (p[k - 1], p[k]) in g.edges;
      assert p[k] in Elems(order);
      b :| 0 <= b < |order| && order[b] == p[k];
      EdgePointsForward(g, order, prev, b);
    }
  }

  ghost predicate HasParentIn(g: Graph, u: set<string>, n: string) {
    exists m :: m in u && (m, n) in g.edges
  }

  ghost predicate Trapped(g: Graph, u: set<string>) {
    forall n {:trigger HasParentIn(g, u, n)} | n in u :: HasParentIn(g, u, n)
  }

  /**
   * If every member of a non-empty finite set has a parent inside the set, the graph has a cycle:
   * walking backwards cannot produce fresh members for ever.
   */
  lemma {:induction false} BackwardWalk(g: Graph, u: set<string>, walk: seq<string>)
    requires walk != [] && NoDup(walk) && Elems(walk) <= u
    requires Trapped(g, u)
    requires forall i | 0 <= i < |walk| - 1 :: (walk[i], walk[i + 1]) in g.edges
    ensures Cyclic(g)
    decreases |u| - |walk|
  {
    NoDupCount(walk);
    SubsetCount(Elems(walk), u);
    assert walk[0] in Elems(walk);
    assert HasParentIn(g, u, walk[0]);
    var m :| m in u && (m, walk[0]) in g.edges;
    if m in walk {
      var j :| 0 <= j < |walk| && walk[j] == m;
      var p := [m] + walk[..j + 1];
      assert forall i | 0 <= i < |p| - 1 :: (p[i], p[i + 1]) in g.edges;
      assert IsCycle(g, p);
    } else {
      var longer := [m] + walk;
      NoDupPrepend(m, walk);
      NoDupCount(longer);
      SubsetCount(Elems(longer), u);
      forall i | 0 <= i < |longer| - 1 ensures (longer[i], longer[i + 1]) in g.edges {
        if i > 0 { assert (walk[i - 1], walk[i]) in g.edges; }
      }
      BackwardWalk(g, u, longer);
    }
  }

  lemma UnvisitedTrapped(g: Graph, st: State)
    requires WellFormed(g) && Inv(g, st) && st.ready == []
    ensures Trapped(g, Elems(g.nodes) - Elems(st.visited))
  {
    var u := Elems(g.nodes) - Elems(st.visited);
    forall n | n in u ensures HasParentIn(g, u, n) {
      assert st.pending[n] != {};
      var m :| m in st.pending[n];
      assert m in u && (m, n) in g.edges;
    }
  }

  lemma TrappedIsCyclic(g: Graph, u: set<string>)
    requires Trapped(g, u) && u != {}
    ensures Cyclic(g)
  {
    var n :| n in u;
    assert Elems([n]) == {n};
    BackwardWalk(g, u, [n]);
  }

  /** When the worklist runs dry, it has visited everything exactly if the graph has no cycle. */
  lemma DryIsComplete(g: Graph, st: State)
    requires WellFormed(g) && Inv(g, st) && st.ready == []
    ensures |st.visited| == |g.nodes| <==> !Cyclic(g)
    ensures |st.visited| == |g.nodes| ==> IsLinearization(g, st.visited)
  {
    VisitedBound(g, st);
    if Elems(st.visited) == Elems(g.nodes) {
      assert IsLinearization(g, st.visited);
      LinearizationAcyclic(g, st.visited);
    } else {
      UnvisitedTrapped(g, st);
      var u := Elems(g.nodes) - Elems(st.visited);
      assert Elems(st.visited) <= Elems(g.nodes);
      assert u == {} ==> Elems(g.nodes) <= Elems(st.visited);
      TrappedIsCyclic(g, u);
    }
  }
}
