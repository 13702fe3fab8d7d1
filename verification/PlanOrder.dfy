// The one insert order that the planner can compute: first freed, first in contract order.
module PlanOrder {
  import opened Values
  import opened Kahn
  import opened Contracts
  import opened Planning

  /** Node n is free once the first k of the order are placed, and not sooner. */
  ghost predicate FreeAt(g: Graph, order: seq<string>, n: string, k: nat) {
    && k <= |order| && Parents(g, n) <= Elems(order[..k])
    && (k > 0 ==> !(Parents(g, n) <= Elems(order[..k - 1])))
  }

  ghost predicate Before(names: seq<string>, a: string, b: string) {
    exists i, j :: 0 <= i < j < |names| && names[i] == a && names[j] == b
  }

  /** Of two nodes the one freed sooner stands first; of those freed together, the one declared first. */
  ghost predicate InTurn(g: Graph, order: seq<string>, i: nat, j: nat)
    requires i < |order| && j < |order|
  {
    forall a: nat, b: nat | FreeAt(g, order, order[i], a) && FreeAt(g, order, order[j], b) ::
      a < b || (a == b && Before(g.nodes, order[i], order[j]))
  }

  ghost predicate Fifo(g: Graph, order: seq<string>) {
    forall i, j | 0 <= i < j < |order| :: InTurn(g, order, i, j)
  }

  // ---- a node is freed once -------------------------------------------------------------------

  lemma ElemsMore(s: seq<string>, j: int, k: int)
    requires 0 <= j <= k <= |s|
    ensures Elems(s[..j]) <= Elems(s[..k])
  {
    forall x | x in Elems(s[..j]) ensures x in Elems(s[..k]) {
      var i :| 0 <= i < j && s[i] == x;
      assert s[..k][i] == x;
    }
  }

  lemma FreedOnce(g: Graph, order: seq<string>, n: string, a: nat, b: nat)
    requires FreeAt(g, order, n, a) && FreeAt(g, order, n, b)
    ensures a == b
  {
    ElemsMore(order, a, if a < b then b - 1 else a);
    ElemsMore(order, b, if b < a then a - 1 else b);
  }

  lemma {:induction false} FreedSomewhere(g: Graph, order: seq<string>, n: string, k: nat) returns (a: nat)
    requires k <= |order| && Parents(g, n) <= Elems(order[..k])
    ensures a <= k && FreeAt(g, order, n, a)
  {
    if k == 0 || !(Parents(g, n) <= Elems(order[..k - 1])) {
      a := k;
    } else {
      a := FreedSomewhere(g, order, n, k - 1);
    }
  }

  /** When a node was freed depends on what stood before only. */
  lemma FreedAlike(g: Graph, s: seq<string>, t: seq<string>, n: string, k: nat)
    requires k <= |s| && k <= |t| && s[..k] == t[..k]
    ensures FreeAt(g, s, n, k) <==> FreeAt(g, t, n, k)
  {
    if k > 0 {
      assert s[..k][..k - 1] == s[..k - 1] && t[..k][..k - 1] == t[..k - 1];
    }
  }

  // ---- there is only one such order -------------------------------------------------------------

  lemma BeforeOneWay(names: seq<string>, a: string, b: string)
    requires NoDup(names) && Before(names, a, b)
    ensures !Before(names, b, a)
  {
  }

  lemma PlaceIn(order: seq<string>, n: string) returns (i: nat)
    requires n in order
    ensures i < |order| && order[i] == n
  {
    i :| 0 <= i < |order| && order[i] == n;
  }

  /** Where two such orders agree, they agree on the next node too. */
  lemma SameNext(g: Graph, s: seq<string>, t: seq<string>, k: nat)
    requires WellFormed(g) && IsLinearization(g, s) && IsLinearization(g, t) && Fifo(g, s) && Fifo(g, t)
    requires k < |s| && k < |t| && s[..k] == t[..k]
    ensures s[k] == t[k]
  {
    if s[k] != t[k] {
      var x, y := s[k], t[k];
      var i := LaterIn(g, s, t, k);
      var j := LaterIn(g, t, s, k);
      var a := FreedSomewhere(g, s, x, k);
      var b := FreedSomewhere(g, t, y, k);
      SamePrefix(s, t, a, k);
      SamePrefix(s, t, b, k);
      FreedAlike(g, s, t, x, a);
      FreedAlike(g, s, t, y, b);
      assert InTurn(g, s, k, j) && InTurn(g, t, k, i);
      if Before(g.nodes, x, y) { BeforeOneWay(g.nodes, x, y); }
    }
  }

  lemma SamePrefix(s: seq<string>, t: seq<string>, a: nat, k: nat)
    requires a <= k <= |s| && k <= |t| && s[..k] == t[..k]
    ensures s[..a] == t[..a]
  {
    assert s[..k][..a] == s[..a] && t[..k][..a] == t[..a];
  }

  /** The node that s has at k stands in t after k. */
  lemma LaterIn(g: Graph, s: seq<string>, t: seq<string>, k: nat) returns (i: nat)
    requires IsLinearization(g, s) && IsLinearization(g, t)
    requires k < |s| && k < |t| && s[..k] == t[..k] && s[k] != t[k]
    ensures k < i < |t| && t[i] == s[k]
  {
    assert s[k] in Elems(s);
    i := PlaceIn(t, s[k]);
    forall p | 0 <= p < k ensures t[p] != s[k] {
      assert t[..k][p] == s[..k][p];
    }
  }

  lemma {:induction false} SamePrefixes(g: Graph, s: seq<string>, t: seq<string>, k: nat)
    requires WellFormed(g) && IsLinearization(g, s) && IsLinearization(g, t) && Fifo(g, s) && Fifo(g, t)
    requires k <= |s| && k <= |t|
    ensures s[..k] == t[..k]
  {
    if k == 0 {
    } else {
      SamePrefixes(g, s, t, k - 1);
      SameNext(g, s, t, k - 1);
      assert s[..k] == s[..k - 1] + [s[k - 1]] && t[..k] == t[..k - 1] + [t[k - 1]];
    }
  }

  lemma OnlyOneFifo(g: Graph, s: seq<string>, t: seq<string>)
    requires WellFormed(g) && IsLinearization(g, s) && IsLinearization(g, t) && Fifo(g, s) && Fifo(g, t)
    ensures s == t
  {
    NoDupWithin(s, g.nodes);
    NoDupWithin(t, g.nodes);
    SamePrefixes(g, s, t, |s|);
    assert s[..|s|] == s && t[..|t|] == t;
  }

  // ---- and the planner computes it --------------------------------------------------------------

  /** Everything placed or waiting, in turn; what waits was freed by what is placed. */
  ghost predicate Queued(g: Graph, st: State) {
    var q := st.visited + st.ready;
    && Fifo(g, q)
    && forall i | 0 <= i < |q| :: Parents(g, q[i]) <= Elems(st.visited)
  }

  lemma {:induction false} KeepInOrder(s: seq<string>, keep: set<string>, i: nat, j: nat)
    requires i < j < |Keep(s, keep)|
    ensures Before(s, Keep(s, keep)[i], Keep(s, keep)[j])
  {
    var n := |s| - 1;
    var shorter := Keep(s[..n], keep);
    if j < |shorter| {
      KeepInOrder(s[..n], keep, i, j);
      BeforeLonger(s, n, shorter[i], shorter[j]);
    } else {
      assert shorter[i] in shorter;
      var p :| 0 <= p < n && s[..n][p] == shorter[i];
      assert s[p] == shorter[i] && s[n] == Keep(s, keep)[j];
    }
  }

  lemma BeforeLonger(s: seq<string>, n: nat, a: string, b: string)
    requires n <= |s| && Before(s[..n], a, b)
    ensures Before(s, a, b)
  {
    var i, j :| 0 <= i < j < n && s[..n][i] == a && s[..n][j] == b;
    assert s[i] == a && s[j] == b;
  }

  /** What relaxing some children in contract order has queued: children not queued before, in that order. */
  ghost predicate Added(g: Graph, base: seq<string>, added: seq<string>, kids: seq<string>) {
    && (forall x | x in added :: x in kids && x !in base)
    && (forall i, j | 0 <= i < j < |added| :: Before(g.nodes, added[i], added[j]))
  }

  ghost predicate KidsInOrder(g: Graph, kids: seq<string>) {
    forall i, j | 0 <= i < j < |kids| :: Before(g.nodes, kids[i], kids[j])
  }

  lemma {:induction false} RelaxAdds(g: Graph, st: State, c: string, kids: seq<string>, base: seq<string>)
      returns (added: seq<string>)
    requires (forall k | k in kids :: k in st.pending) && KidsInOrder(g, kids) && base == st.visited + st.ready
    ensures RelaxAll(st, c, kids).ready == st.ready + added && Added(g, base, added, kids)
  {
    if kids == [] {
      added := [];
    } else {
      var n := |kids| - 1;
      assert forall k | k in kids[..n] :: k in kids;
      var before := RelaxAdds(g, st, c, kids[..n], base);
      var mid := RelaxAll(st, c, kids[..n]);
      added := OneMore(g, mid, c, kids, base, st.ready, before);
    }
  }

  /** Relaxing the last child queues it or not. */
  lemma OneMore(
    g: Graph, mid: State, c: string, kids: seq<string>, base: seq<string>, ready: seq<string>, before: seq<string>)
      returns (added: seq<string>)
    requires kids != [] && KidsInOrder(g, kids) && kids[|kids| - 1] in mid.pending
    requires mid.ready == ready + before && base == mid.visited + ready
    requires Added(g, base, before, kids[..|kids| - 1])
    ensures Relax(mid, c, kids[|kids| - 1]).ready == ready + added && Added(g, base, added, kids)
  {
    var n := |kids| - 1;
    var child := kids[n];
    assert forall x | x in kids[..n] :: x in kids;
    if Relax(mid, c, child).ready == mid.ready {
      added := before;
    } else {
      added := before + [child];
      assert child !in mid.ready && child !in mid.visited;
      forall i | 0 <= i < |before| ensures Before(g.nodes, before[i], child) {
        assert before[i] in kids[..n];
        var j :| 0 <= j < n && kids[j] == before[i];
      }
      assert forall i, j | 0 <= i < j < |before| :: added[i] == before[i] && added[j] == before[j];
    }
  }

  /** A child that was not queued before its parent was placed is freed by it. */
  lemma FreedNow(g: Graph, st: State, c: string, q: seq<string>, x: string)
    requires WellFormed(g) && Inv(g, st) && st.ready != [] && c == st.ready[0] && x in g.nodes
    requires x !in st.visited && x !in st.ready && Parents(g, x) <= Elems(st.visited + [c])
    requires |q| > |st.visited| && q[..|st.visited|] == st.visited && q[|st.visited|] == c
    ensures FreeAt(g, q, x, |st.visited| + 1)
  {
    assert st.pending[x] != {};
    assert q[..|st.visited| + 1] == st.visited + [c];
  }

  lemma OldInTurn(g: Graph, q: seq<string>, more: seq<string>, placed: nat, i: nat, j: nat)
    requires i < j < |q| && placed <= |q| <= |more| && more[..|q|] == q && InTurn(g, q, i, j)
    requires Parents(g, q[i]) <= Elems(q[..placed]) && Parents(g, q[j]) <= Elems(q[..placed])
    ensures InTurn(g, more, i, j)
  {
    forall a: nat, b: nat | FreeAt(g, more, more[i], a) && FreeAt(g, more, more[j], b)
      ensures a < b || (a == b && Before(g.nodes, more[i], more[j]))
    {
      FreedEarly(g, q, more, placed, q[i], a);
      FreedEarly(g, q, more, placed, q[j], b);
    }
  }

  lemma FreedEarly(g: Graph, q: seq<string>, more: seq<string>, placed: nat, n: string, a: nat)
    requires placed <= |q| <= |more| && more[..|q|] == q && Parents(g, n) <= Elems(q[..placed])
    requires FreeAt(g, more, n, a)
    ensures a <= placed && FreeAt(g, q, n, a)
  {
    SamePrefix(more, q, placed, |q|);
    ElemsMore(more, placed, if placed < a then a - 1 else placed);
    SamePrefix(more, q, a, |q|);
    FreedAlike(g, more, q, n, a);
  }

  lemma KeptInOrder(g: Graph, keep: set<string>)
    ensures KidsInOrder(g, Keep(g.nodes, keep))
  {
    var kids := Keep(g.nodes, keep);
    forall i, j | 0 <= i < j < |kids| ensures Before(g.nodes, kids[i], kids[j]) {
      KeepInOrder(g.nodes, keep, i, j);
    }
  }

  lemma PopAdds(g: Graph, st: State, kids: seq<string>) returns (added: seq<string>)
    requires st.ready != [] && KidsInOrder(g, kids) && forall k | k in kids :: k in st.pending
    ensures var after := RelaxAll(Pop(st), st.ready[0], kids);
      && after.visited == st.visited + [st.ready[0]]
      && after.visited + after.ready == st.visited + st.ready + added
      && Added(g, st.visited + st.ready, added, kids)
  {
    var pop := Pop(st);
    assert pop.visited + pop.ready == st.visited + st.ready;
    added := RelaxAdds(g, pop, st.ready[0], kids, st.visited + st.ready);
  }

  /** A turn: the children freed by it go to the end of what waits. */
  lemma TurnAdds(g: Graph, st: State) returns (added: seq<string>, kids: seq<string>)
    requires WellFormed(g) && Inv(g, st) && st.ready != []
    ensures Turn(g, st).visited == st.visited + [st.ready[0]]
    ensures Turn(g, st).visited + Turn(g, st).ready == st.visited + st.ready + added
    ensures Added(g, st.visited + st.ready, added, kids) && forall k | k in kids :: k in g.nodes
  {
    kids := Keep(g.nodes, Children(g, st.ready[0]));
    KeptInOrder(g, Children(g, st.ready[0]));
    AllPending(g, st);
    TurnIsLoop(g, st, kids);
    added := PopAdds(g, st, kids);
  }

  lemma TurnQueues(g: Graph, st: State)
    requires WellFormed(g) && Inv(g, st) && st.ready != [] && Queued(g, st)
    ensures Queued(g, Turn(g, st))
  {
    var added, kids := TurnAdds(g, st);
    StillQueued(g, st, Turn(g, st), added, kids);
  }

  lemma StillQueued(g: Graph, st: State, after: State, added: seq<string>, kids: seq<string>)
    requires WellFormed(g) && Inv(g, st) && st.ready != [] && Queued(g, st) && Inv(g, after)
    requires after.visited == st.visited + [st.ready[0]]
    requires after.visited + after.ready == st.visited + st.ready + added
    requires Added(g, st.visited + st.ready, added, kids) && forall k | k in kids :: k in g.nodes
    ensures Queued(g, after)
  {
    var q, placed, more := st.visited + st.ready, |st.visited|, after.visited + after.ready;
    assert more[..|q|] == q && q[..placed] == st.visited;
    forall i | 0 <= i < |more| ensures Parents(g, more[i]) <= Elems(after.visited) {
      AfterParents(g, after, i);
    }
    forall i, j | 0 <= i < j < |more| ensures InTurn(g, more, i, j) {
      if j < |q| {
        assert InTurn(g, q, i, j);
        OldInTurn(g, q, more, placed, i, j);
      } else {
        NewInTurn(g, st, after, q, added, kids, more, i, j);
      }
    }
  }

  /** Whatever is placed or waiting has its parents placed. */
  lemma AfterParents(g: Graph, st: State, i: nat)
    requires WellFormed(g) && Inv(g, st) && i < |st.visited + st.ready|
    ensures Parents(g, (st.visited + st.ready)[i]) <= Elems(st.visited)
  {
    var n := (st.visited + st.ready)[i];
    assert n in st.visited || n in st.ready;
    assert st.pending[n] == {} == Parents(g, n) - Elems(st.visited);
    forall m | m in Parents(g, n) ensures m in Elems(st.visited) {
      assert m !in st.pending[n];
    }
  }

  lemma NewInTurn(
    g: Graph, st: State, after: State, q: seq<string>, added: seq<string>, kids: seq<string>, more: seq<string>,
    i: nat, j: nat)
    requires WellFormed(g) && Inv(g, st) && st.ready != [] && q == st.visited + st.ready && more == q + added
    requires Inv(g, after) && after.visited == st.visited + [st.ready[0]] && after.visited + after.ready == more
    requires Added(g, q, added, kids) && (forall k | k in kids :: k in g.nodes)
    requires forall n | n in q :: Parents(g, n) <= Elems(st.visited)
    requires i < j < |more| && |q| <= j
    ensures InTurn(g, more, i, j)
  {
    var placed, c := |st.visited|, st.ready[0];
    assert more[..placed] == st.visited && more[placed] == c && more[..|q|] == q && q[..placed] == st.visited;
    assert more[j] == added[j - |q|];
    assert more[j] in added;
    AfterParents(g, after, j);
    FreedNow(g, st, c, more, more[j]);
    forall a: nat, b: nat | FreeAt(g, more, more[i], a) && FreeAt(g, more, more[j], b)
      ensures a < b || (a == b && Before(g.nodes, more[i], more[j]))
    {
      FreedOnce(g, more, more[j], b, placed + 1);
      if i < |q| {
        assert q[i] in q;
        FreedEarly(g, q, more, placed, q[i], a);
      } else {
        assert more[i] == added[i - |q|];
        assert more[i] in added;
        AfterParents(g, after, i);
        FreedNow(g, st, c, more, more[i]);
        FreedOnce(g, more, more[i], a, placed + 1);
      }
    }
  }

  lemma {:induction false} DrainQueues(g: Graph, st: State)
    requires WellFormed(g) && Inv(g, st) && Queued(g, st)
    ensures Queued(g, Drain(g, st))
    decreases |g.nodes| - |st.visited|
  {
    VisitedBound(g, st);
    if st.ready == [] {
    } else {
      TurnQueues(g, st);
      VisitedBound(g, Turn(g, st));
      DrainQueues(g, Turn(g, st));
    }
  }

  lemma StartQueued(g: Graph)
    requires WellFormed(g)
    ensures Queued(g, Start(g))
  {
    var st := Start(g);
    StartInv(g);
    var q := st.visited + st.ready;
    assert q == st.ready;
    forall i | 0 <= i < |q| ensures Parents(g, q[i]) == {} {
      assert q[i] in st.ready;
    }
    forall i, j | 0 <= i < j < |q| ensures InTurn(g, q, i, j) {
      var roots := set n | n in g.nodes && Parents(g, n) == {};
      KeepInOrder(g.nodes, roots, i, j);
      forall a: nat, b: nat | FreeAt(g, q, q[i], a) && FreeAt(g, q, q[j], b) ensures a == 0 && b == 0 {
      }
    }
  }

  /**
   * The insert order is the only parents-first listing in which record types freed sooner stand first,
   * and those freed together stand in contract order.
   */
  lemma PlanIsFifo(c: Contract, order: seq<string>)
    requires Resolvable(c) && !Cyclic(GraphOf(c))
    ensures PlanOf(c).Some?
    ensures order == PlanOf(c).value.insertOrder <==> IsLinearization(GraphOf(c), order) && Fifo(GraphOf(c), order)
  {
    var g := GraphOf(c);
    ResolvableGraph(c);
    StartInv(g);
    PlanSound(c);
    StartQueued(g);
    DrainQueues(g, Start(g));
    var last := Drain(g, Start(g));
    assert last.visited + last.ready == last.visited;
    if IsLinearization(g, order) && Fifo(g, order) {
      OnlyOneFifo(g, order, PlanOf(c).value.insertOrder);
    }
  }

  /** Without relations between different record types, the contract's own order. */
  lemma PlanOfUnrelated(c: Contract)
    requires Resolvable(c) && forall r | r in c.relations :: r.sourceType == r.targetType
    ensures PlanOf(c).Some? && PlanOf(c).value.insertOrder == Names(c)
  {
    var g, names := GraphOf(c), Names(c);
    assert g.edges == {};
    forall p ensures !IsCycle(g, p) {
      assert |p| >= 2 ==> (p[0], p[1]) !in g.edges;
    }
    forall i, j | 0 <= i < j < |names| ensures InTurn(g, names, i, j) {
      assert Parents(g, names[i]) == {} && Parents(g, names[j]) == {};
      assert Before(g.nodes, names[i], names[j]);
    }
    PlanIsFifo(c, names);
  }
}
