// destinations/planning.py: insert and delete order for the declared destinations.
module Planning {
  import opened Values
  import opened Kahn
  import opened Contracts

  datatype DestinationPlan = DestinationPlan(insertOrder: seq<string>, deleteOrder: seq<string>)

  /** One turn of the planner's loop: children are relaxed in contract order. */
  ghost function Turn(g: Graph, st: State): State
    requires WellFormed(g) && Inv(g, st) && st.ready != []
    ensures Inv(g, Turn(g, st))
    ensures |Turn(g, st).visited| == |st.visited| + 1
  {
    var kids := Keep(g.nodes, Children(g, st.ready[0]));
    assert Elems(kids) == Children(g, st.ready[0]);
    TurnKeepsInv(g, st, kids);
    RelaxAll(Pop(st), st.ready[0], kids)
  }

  ghost function Drain(g: Graph, st: State): State
    requires WellFormed(g) && Inv(g, st)
    ensures Inv(g, Drain(g, st)) && Drain(g, st).ready == []
    decreases |g.nodes| - |st.visited|
  {
    VisitedBound(g, st);
    if st.ready == [] then st
    else
      VisitedBound(g, Turn(g, st));
      Drain(g, Turn(g, st))
  }

  ghost function InsertOrder(c: Contract): seq<string>
    requires Resolvable(c)
  {
    ResolvableGraph(c);
    StartInv(GraphOf(c));
    Drain(GraphOf(c), Start(GraphOf(c))).visited
  }

  /** None stands for the ValueError that a cyclic graph raises. */
  ghost function PlanOf(c: Contract): Option<DestinationPlan>
    requires Resolvable(c)
  {
    var order := InsertOrder(c);
    if |order| == |c.records| then Some(DestinationPlan(order, Reverse(order))) else None
  }

  // ---- what the plan is for -------------------------------------------------

  /** A plan exists exactly when no cycle of relations does, and it lists every parent before its children. */
  lemma PlanSound(c: Contract)
    requires Resolvable(c)
    ensures PlanOf(c).Some? <==> !Cyclic(GraphOf(c))
    ensures PlanOf(c).Some? ==> IsLinearization(GraphOf(c), PlanOf(c).value.insertOrder)
  {
    ResolvableGraph(c);
    StartInv(GraphOf(c));
    DryIsComplete(GraphOf(c), Drain(GraphOf(c), Start(GraphOf(c))));
  }

  /**
   * The validator and the planner agree although they break ties differently: a contract the
   * validator accepts is always planned, and one it rejects as cyclic never is.
   */
  lemma ValidatorAndPlannerAgree(c: Contract)
    requires GraphFault(c) in {None, Some(CyclicRelations)}
    ensures Resolvable(c)
    ensures GraphFault(c) == None <==> PlanOf(c).Some?
  {
    CleanIsResolvable(c);
    PlanSound(c);
  }

  lemma PlanShape(c: Contract, plan: DestinationPlan)
    requires Resolvable(c) && PlanOf(c) == Some(plan)
    ensures NoDup(plan.insertOrder) && Elems(plan.insertOrder) == Elems(Names(c))
    ensures Topological(GraphOf(c), plan.insertOrder)
    ensures plan.deleteOrder == Reverse(plan.insertOrder)
  {
    PlanSound(c);
  }

  /** Parents come strictly earlier in the insert order. */
  lemma ParentsFirst(c: Contract, plan: DestinationPlan, r: RelationSpec, child: nat, parent: nat)
    requires Resolvable(c) && PlanOf(c) == Some(plan)
    requires r in c.relations && r.sourceType != r.targetType
    requires child < |plan.insertOrder| && plan.insertOrder[child] == r.sourceType
    requires parent < |plan.insertOrder| && plan.insertOrder[parent] == r.targetType
    ensures parent < child
  {
    PlanShape(c, plan);
    assert (r.targetType, r.sourceType) in GraphOf(c).edges;
    EdgePointsForward(GraphOf(c), plan.insertOrder, parent, child);
  }

  lemma MirrorPointsBack(g: Graph, order: seq<string>, mirror: seq<string>, parent: nat, child: nat)
    requires NoDup(order) && Topological(g, order) && mirror == Reverse(order)
    requires parent < |mirror| && child < |mirror|
    requires mirror[parent] in g.nodes && (mirror[parent], mirror[child]) in g.edges
    ensures child < parent
  {
    var last := |order| - 1;
    ReverseAt(order, last - child);
    ReverseAt(order, last - parent);
    EdgePointsForward(g, order, last - parent, last - child);
  }

  /** Parents come strictly later in the delete order. */
  lemma ParentsDeletedLast(c: Contract, plan: DestinationPlan, r: RelationSpec, child: nat, parent: nat)
    requires Resolvable(c) && PlanOf(c) == Some(plan)
    requires r in c.relations && r.sourceType != r.targetType
    requires child < |plan.deleteOrder| && plan.deleteOrder[child] == r.sourceType
    requires parent < |plan.deleteOrder| && plan.deleteOrder[parent] == r.targetType
    ensures child < parent
  {
    PlanShape(c, plan);
    assert (r.targetType, r.sourceType) in GraphOf(c).edges;
    MirrorPointsBack(GraphOf(c), plan.insertOrder, plan.deleteOrder, parent, child);
  }

  // ---- the code ---------------------------------------------------------------

  lemma TurnIsLoop(g: Graph, st: State, kids: seq<string>)
    requires WellFormed(g) && Inv(g, st) && st.ready != []
    requires kids == Keep(g.nodes, Children(g, st.ready[0]))
    ensures forall k | k in kids :: k in Pop(st).pending
    ensures RelaxAll(Pop(st), st.ready[0], kids) == Turn(g, st)
    ensures Drain(g, Turn(g, st)) == Drain(g, st)
  {
    assert Elems(kids) == Children(g, st.ready[0]);
    TurnKeepsInv(g, st, kids);
  }

  method ReleaseChildren(
    order: seq<string>, children: set<string>, current: string,
    dependencies0: map<string, set<string>>, ready0: seq<string>, insert: seq<string>)
      returns (dependencies: map<string, set<string>>, ready: seq<string>)
    requires forall k | k in order :: k in dependencies0
    ensures State(dependencies, ready, insert) ==
            RelaxAll(State(dependencies0, ready0, insert), current, Keep(order, children))
  {
    dependencies, ready := dependencies0, ready0;
    for i := 0 to |order|
      invariant forall k | k in order[..i] :: k in order
      invariant State(dependencies, ready, insert) ==
                RelaxAll(State(dependencies0, ready0, insert), current, Keep(order[..i], children))
    {
      var child := order[i];
      assert child in order && child in dependencies0;
      KeepStep(order, children, i);
      if child in children {
        RelaxAllStep(State(dependencies0, ready0, insert), current, Keep(order[..i], children), child);
        dependencies := dependencies[child := dependencies[child] - {current}];
        if dependencies[child] == {} && child !in ready && child !in insert {
          ready := ready + [child];
        }
      }
    }
    assert order[..|order|] == order;
  }

  ghost predicate TablesDraw(
    dependencies: map<string, set<string>>, children: map<string, set<string>>,
    order: seq<string>, edges: set<(string, string)>)
  {
    && dependencies.Keys == children.Keys == Elems(order)
    && (forall p, n | p in children :: n in children[p] <==> (p, n) in edges)
    && (forall p, n | n in dependencies :: p in dependencies[n] <==> (p, n) in edges)
  }

  lemma TablesStep(
    dependencies: map<string, set<string>>, children: map<string, set<string>>,
    order: seq<string>, edges: set<(string, string)>, parent: string, child: string)
    requires TablesDraw(dependencies, children, order, edges)
    requires parent in Elems(order) && child in Elems(order)
    ensures TablesDraw(
      dependencies[child := dependencies[child] + {parent}],
      children[parent := children[parent] + {child}], order, edges + {(parent, child)})
  {
  }

  /** The relation loop fills both tables from the same edges. */
  method DependencyTables(c: Contract)
      returns (dependencies: map<string, set<string>>, children: map<string, set<string>>)
    requires Resolvable(c)
    ensures TablesDraw(dependencies, children, Names(c), EdgesOf(c.relations))
  {
    var order := Names(c);
    dependencies := map n | n in order :: {};
    children := map n | n in order :: {};
    ghost var drawn := EdgesOf(c.relations[..0]);
    for i := 0 to |c.relations|
      invariant drawn == EdgesOf(c.relations[..i])
      invariant TablesDraw(dependencies, children, order, drawn)
    {
      var relation := c.relations[i];
      var child, parent := relation.sourceType, relation.targetType;
      assert relation in c.relations;
      assert child in Elems(order) && parent in Elems(order);
      EdgesOfPrefix(c.relations, i);
      drawn := EdgesOf(c.relations[..i + 1]);
      if child == parent {
        continue;
      }
      TablesStep(dependencies, children, order, EdgesOf(c.relations[..i]), parent, child);
      dependencies := dependencies[child := dependencies[child] + {parent}];
      children := children[parent := children[parent] + {child}];
    }
    assert c.relations[..|c.relations|] == c.relations;
  }

  lemma DrawnParents(
    g: Graph, dependencies: map<string, set<string>>, children: map<string, set<string>>, n: string)
    requires WellFormed(g) && TablesDraw(dependencies, children, g.nodes, g.edges) && n in dependencies
    ensures dependencies[n] == Parents(g, n)
  {
  }

  lemma DrawnChildren(
    g: Graph, dependencies: map<string, set<string>>, children: map<string, set<string>>, p: string)
    requires WellFormed(g) && TablesDraw(dependencies, children, g.nodes, g.edges) && p in children
    ensures children[p] == Children(g, p)
  {
  }

  lemma RootsAgree(g: Graph, pending: map<string, set<string>>)
    requires pending.Keys == Elems(g.nodes) && forall n | n in g.nodes :: n in pending && pending[n] == Parents(g, n)
    ensures State(pending, Keep(g.nodes, set n | n in g.nodes && pending[n] == {}), []) == Start(g)
  {
    assert forall n | n in pending :: n in g.nodes;
    assert pending == Start(g).pending;
    assert (set n | n in g.nodes && pending[n] == {}) == (set n | n in g.nodes && Parents(g, n) == {});
  }

  lemma TablesStart(
    g: Graph, dependencies: map<string, set<string>>, children: map<string, set<string>>)
    requires WellFormed(g) && TablesDraw(dependencies, children, g.nodes, g.edges)
    ensures forall n | n in g.nodes :: n in dependencies
    ensures State(dependencies, Keep(g.nodes, set n | n in g.nodes && dependencies[n] == {}), []) == Start(g)
    ensures forall p | p in g.nodes :: p in children && children[p] == Children(g, p)
  {
    forall n | n in g.nodes
      ensures n in dependencies && dependencies[n] == Parents(g, n) && n in children && children[n] == Children(g, n)
    {
      assert n in Elems(g.nodes);
      DrawnParents(g, dependencies, children, n);
      DrawnChildren(g, dependencies, children, n);
    }
    RootsAgree(g, dependencies);
  }

  method PlanDestinations(c: Contract) returns (plan: Option<DestinationPlan>)
    requires Resolvable(c)
    ensures plan == PlanOf(c)
  {
    var order := Names(c);
    ghost var g := GraphOf(c);
    ResolvableGraph(c);
    var dependencies, children := DependencyTables(c);
    TablesStart(g, dependencies, children);
    var ready := Keep(order, set n | n in order && dependencies[n] == {});
    StartInv(g);
    var insert := InsertReady(g, order, dependencies, children, ready);
    if |insert| != |order| {
      return None;
    }
    return Some(DestinationPlan(insert, Reverse(insert)));
  }

  /** `while ready` */
  method InsertReady(
    ghost g: Graph, order: seq<string>, dependencies0: map<string, set<string>>,
    children: map<string, set<string>>, ready0: seq<string>) returns (insert: seq<string>)
    requires WellFormed(g) && order == g.nodes && Inv(g, State(dependencies0, ready0, []))
    requires forall p | p in order :: p in children && children[p] == Children(g, p)
    ensures insert == Drain(g, State(dependencies0, ready0, [])).visited
  {
    var dependencies, ready := dependencies0, ready0;
    insert := [];
    ghost var st := State(dependencies, ready, insert);
    while ready != []
      invariant Inv(g, st) && st == State(dependencies, ready, insert)
      invariant Drain(g, st) == Drain(g, State(dependencies0, ready0, []))
      decreases |order| - |insert|
    {
      VisitedBound(g, st);
      var current := ready[0];
      assert current in st.ready;
      TurnIsLoop(g, st, Keep(order, children[current]));
      AllPending(g, st);
      dependencies, ready :=
        ReleaseChildren(order, children[current], current, dependencies, ready[1..], insert + [current]);
      insert := insert + [current];
      st := Turn(g, st);
    }
  }

  lemma AllPending(g: Graph, st: State)
    requires Inv(g, st)
    ensures forall k | k in g.nodes :: k in st.pending
  {
    assert forall k | k in g.nodes :: k in Elems(g.nodes);
  }
}
