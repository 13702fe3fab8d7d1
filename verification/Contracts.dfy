// contracts/models.py: the bounded generation contract and its graph validator.
module Contracts {
  import opened Values
  import opened Kahn

  datatype FieldType = StringType | IntegerType | NumberType | BooleanType | DateType | DateTimeType

  datatype FieldSpec = FieldSpec(kind: FieldType, nullable: bool, unique: bool)

  /** `columns` maps generated fields to destination columns. */
  datatype DestinationSpec = DestinationSpec(
    schema: string, table: string, columns: map<string, string>, keyFields: seq<string>)

  datatype RecordSpec = RecordSpec(
    recordType: string, count: int, destination: DestinationSpec, fields: map<string, FieldSpec>)

  datatype RelationSpec = RelationSpec(
    sourceType: string, sourceField: string, targetType: string, targetField: string, required: bool)

  datatype Contract = Contract(
    records: seq<RecordSpec>, relations: seq<RelationSpec>, maxRecords: int, maxBytes: int)

  // ---- field-level validators ----------------------------------------------

  ghost predicate Injective(m: map<string, string>) {
    forall a, b {:trigger m[a], m[b]} | a in m && b in m && m[a] == m[b] :: a == b
  }

  ghost predicate DestinationOk(d: DestinationSpec) {
    && Injective(d.columns)
    && d.keyFields != []
    && NoDup(d.keyFields)
    && (forall f | f in d.keyFields :: f in d.columns)
  }

  ghost predicate RecordOk(r: RecordSpec) {
    && 0 < r.count <= 1_000_000
    && DestinationOk(r.destination)
    && r.destination.columns.Keys == r.fields.Keys
    && (forall f | f in r.destination.keyFields :: !r.fields[f].nullable)
  }

  // ---- the contract-level validator -----------------------------------------

  datatype Fault =
    | DuplicateRecordType
    | CountsExceedBound
    | UnknownRecordType
    | UnknownField
    | StructuralTypeMismatch
    | TargetNotUnique
    | RequiredSourceNullable
    | CyclicRelations

  function Names(c: Contract): (s: seq<string>)
    ensures |s| == |c.records|
    ensures forall i | 0 <= i < |s| :: s[i] == c.records[i].recordType
  {
    seq(|c.records|, i requires 0 <= i < |c.records| => c.records[i].recordType)
  }

  /** `{record.record_type: record for record in records}`: a later duplicate replaces an earlier one. */
  function RecordMap(records: seq<RecordSpec>): map<string, RecordSpec> {
    if records == [] then map[]
    else
      var n := |records| - 1;
      RecordMap(records[..n])[records[n].recordType := records[n]]
  }

  lemma {:induction false} RecordMapHolds(records: seq<RecordSpec>)
    ensures forall n | n in RecordMap(records) ::
      RecordMap(records)[n] in records && RecordMap(records)[n].recordType == n
    ensures forall r | r in records :: r.recordType in RecordMap(records)
  {
    if records == [] {
    } else {
      var n := |records| - 1;
      RecordMapHolds(records[..n]);
      assert records == records[..n] + [records[n]];
    }
  }

  lemma RecordMapKeys(c: Contract)
    ensures RecordMap(c.records).Keys == Elems(Names(c))
  {
    RecordMapHolds(c.records);
    forall n | n in RecordMap(c.records) ensures n in Names(c) {
      var r := RecordMap(c.records)[n];
      var i :| 0 <= i < |c.records| && c.records[i] == r;
      assert Names(c)[i] == n;
    }
    forall n | n in Names(c) ensures n in RecordMap(c.records) {
      var i :| 0 <= i < |c.records| && Names(c)[i] == n;
      assert c.records[i] in c.records;
    }
  }

  lemma RecordMapAt(c: Contract, i: nat)
    requires NoDup(Names(c)) && i < |c.records|
    ensures c.records[i].recordType in RecordMap(c.records)
    ensures RecordMap(c.records)[c.records[i].recordType] == c.records[i]
  {
    var n := c.records[i].recordType;
    RecordMapHolds(c.records);
    assert c.records[i] in c.records;
    var r := RecordMap(c.records)[n];
    var j :| 0 <= j < |c.records| && c.records[j] == r;
    assert Names(c)[i] == Names(c)[j];
  }

  function TotalCount(records: seq<RecordSpec>): int {
    if records == [] then 0 else TotalCount(records[..|records| - 1]) + records[|records| - 1].count
  }

  function RelationFault(specs: map<string, RecordSpec>, r: RelationSpec): (f: Option<Fault>)
    ensures f != Some(CyclicRelations)
  {
    if r.sourceType !in specs || r.targetType !in specs then Some(UnknownRecordType)
    else if r.sourceField !in specs[r.sourceType].fields || r.targetField !in specs[r.targetType].fields then
      Some(UnknownField)
    else
      var source := specs[r.sourceType].fields[r.sourceField];
      var target := specs[r.targetType].fields[r.targetField];
      if source.kind != target.kind then Some(StructuralTypeMismatch)
      else if !target.unique then Some(TargetNotUnique)
      else if r.required && source.nullable then Some(RequiredSourceNullable)
      else None
  }

  /** The fault of the first relation that has one. */
  function RelationsFault(specs: map<string, RecordSpec>, relations: seq<RelationSpec>): (f: Option<Fault>)
    ensures f != Some(CyclicRelations)
  {
    if relations == [] then None
    else
      var n := |relations| - 1;
      var earlier := RelationsFault(specs, relations[..n]);
      if earlier.Some? then earlier else RelationFault(specs, relations[n])
  }

  lemma {:induction false} FirstFaultStands(specs: map<string, RecordSpec>, relations: seq<RelationSpec>, k: nat)
    requires k <= |relations| && RelationsFault(specs, relations[..k]).Some?
    ensures RelationsFault(specs, relations) == RelationsFault(specs, relations[..k])
    decreases |relations|
  {
    if k < |relations| {
      var n := |relations| - 1;
      assert relations[..n][..k] == relations[..k];
      FirstFaultStands(specs, relations[..n], k);
    } else {
      assert relations[..k] == relations;
    }
  }

  lemma {:induction false} NoFaultAnywhere(specs: map<string, RecordSpec>, relations: seq<RelationSpec>)
    requires RelationsFault(specs, relations) == None
    ensures forall r | r in relations :: RelationFault(specs, r) == None
  {
    if relations == [] {
    } else {
      var n := |relations| - 1;
      NoFaultAnywhere(specs, relations[..n]);
      assert relations == relations[..n] + [relations[n]];
    }
  }

  /** Parent -> child for every relation between two different record types. */
  function GraphOf(c: Contract): Graph {
    Graph(Names(c), EdgesOf(c.relations))
  }

  function EdgesOf(relations: seq<RelationSpec>): set<(string, string)> {
    set r | r in relations && r.sourceType != r.targetType :: (r.targetType, r.sourceType)
  }

  lemma EdgesOfPrefix(relations: seq<RelationSpec>, i: nat)
    requires i < |relations|
    ensures EdgesOf(relations[..i + 1]) ==
            EdgesOf(relations[..i]) +
            (if relations[i].sourceType != relations[i].targetType
             then {(relations[i].targetType, relations[i].sourceType)} else {})
  {
    assert relations[..i + 1] == relations[..i] + [relations[i]];
  }

  /** What the planner relies on: names resolve. */
  ghost predicate Resolvable(c: Contract) {
    && NoDup(Names(c))
    && forall r | r in c.relations :: r.sourceType in Names(c) && r.targetType in Names(c)
  }

  lemma ResolvableGraph(c: Contract)
    requires Resolvable(c)
    ensures WellFormed(GraphOf(c))
  {
  }

  /** What `validate_graph_and_bounds` reports, with "acyclic" meaning that no cycle exists. */
  ghost function GraphFault(c: Contract): Option<Fault> {
    if !NoDup(Names(c)) then Some(DuplicateRecordType)
    else if TotalCount(c.records) > c.maxRecords then Some(CountsExceedBound)
    else
      var fault := RelationsFault(RecordMap(c.records), c.relations);
      if fault.Some? then fault
      else if Cyclic(GraphOf(c)) then Some(CyclicRelations)
      else None
  }

  ghost predicate ContractOk(c: Contract) {
    && (forall r | r in c.records :: RecordOk(r))
    && c.records != []
    && GraphFault(c) == None
  }

  lemma CleanIsResolvable(c: Contract)
    requires NoDup(Names(c)) && RelationsFault(RecordMap(c.records), c.relations) == None
    ensures Resolvable(c)
    ensures forall r | r in c.relations :: RelationFault(RecordMap(c.records), r) == None
  {
    NoFaultAnywhere(RecordMap(c.records), c.relations);
    RecordMapKeys(c);
    forall r | r in c.relations ensures r.sourceType in Names(c) && r.targetType in Names(c) {
      assert RelationFault(RecordMap(c.records), r) == None;
      assert r.sourceType in Elems(Names(c)) && r.targetType in Elems(Names(c));
    }
  }

  // ---- sorted(names) ---------------------------------------------------------

  predicate LexLeq(a: string, b: string) {
    a == [] || (b != [] && (a[0] < b[0] || (a[0] == b[0] && LexLeq(a[1..], b[1..]))))
  }

  lemma LexTotal(a: string, b: string)
    ensures LexLeq(a, b) || LexLeq(b, a)
  {
  }

  ghost predicate Sorted(s: seq<string>) {
    forall i | 0 <= i < |s| - 1 :: LexLeq(s[i], s[i + 1])
  }

  function InsertSorted(s: seq<string>, x: string): (r: seq<string>)
    ensures Elems(r) == Elems(s) + {x}
    ensures |r| == |s| + 1
    ensures s != [] ==> r != [] && (r[0] == x || r[0] == s[0])
    ensures s == [] ==> r == [x]
  {
    if s == [] then [x]
    else if LexLeq(x, s[0]) then [x] + s
    else
      var t := InsertSorted(s[1..], x);
      assert s == [s[0]] + s[1..] && Elems(s) == {s[0]} + Elems(s[1..]);
      assert Elems([s[0]] + t) == {s[0]} + Elems(t);
      [s[0]] + t
  }

  lemma {:induction false} InsertKeepsSorted(s: seq<string>, x: string)
    requires Sorted(s)
    ensures Sorted(InsertSorted(s, x))
  {
    if s != [] && !LexLeq(x, s[0]) {
      LexTotal(x, s[0]);
      InsertKeepsSorted(s[1..], x);
      var t := InsertSorted(s[1..], x);
      assert InsertSorted(s, x) == [s[0]] + t;
      if |s| > 1 { assert s[1..][0] == s[1]; }
    }
  }

  /** `sorted(names)`: in order, every name, each once. */
  method SortNames(names: set<string>) returns (r: seq<string>)
    ensures Sorted(r) && Elems(r) == names && NoDup(r)
  {
    var rest := names;
    r := [];
    while rest != {}
      invariant rest <= names && Elems(r) == names - rest && Sorted(r)
      invariant |r| == |names - rest|
      decreases rest
    {
      var x :| x in rest;
      assert names - (rest - {x}) == (names - rest) + {x};
      rest := rest - {x};
      InsertKeepsSorted(r, x);
      r := InsertSorted(r, x);
    }
    CountNoDup(r);
  }

  // ---- the shared starting state ------------------------------------------------

  function Start(g: Graph): State {
    var roots := set n | n in g.nodes && Parents(g, n) == {};
    State(map n | n in g.nodes :: Parents(g, n), Keep(g.nodes, roots), [])
  }

  lemma StartInv(g: Graph)
    requires WellFormed(g)
    ensures Inv(g, Start(g))
  {
    var roots := set n | n in g.nodes && Parents(g, n) == {};
    KeepNoDup(g.nodes, roots);
    InitialInv(g, Start(g));
  }

  ghost predicate Draws(edges: map<string, set<string>>, g: Graph) {
    && edges.Keys == Elems(g.nodes)
    && forall p, n | p in edges :: n in edges[p] <==> (p, n) in g.edges
  }

  lemma EdgesAreChildren(g: Graph, edges: map<string, set<string>>, p: string)
    requires WellFormed(g) && Draws(edges, g) && p in edges
    ensures edges[p] == Children(g, p)
  {
  }

  lemma EdgesAreParents(g: Graph, edges: map<string, set<string>>, n: string)
    requires WellFormed(g) && Draws(edges, g)
    ensures (set p | p in g.nodes && n in edges[p]) == Parents(g, n)
  {
    assert forall p | p in g.nodes :: p in Elems(g.nodes);
  }

  /** The relation loop: the first faulty relation, or every parent's set of children. */
  method DrawEdges(c: Contract, recordMap: map<string, RecordSpec>)
      returns (fault: Option<Fault>, edges: map<string, set<string>>)
    requires recordMap == RecordMap(c.records)
    ensures fault == RelationsFault(recordMap, c.relations)
    ensures edges.Keys == recordMap.Keys
    ensures fault == None ==> forall p, n | p in edges :: n in edges[p] <==> (p, n) in EdgesOf(c.relations)
  {
    edges := map n | n in recordMap :: {};
    ghost var drawn := EdgesOf(c.relations[..0]);
    for i := 0 to |c.relations|
      invariant RelationsFault(recordMap, c.relations[..i]) == None
      invariant edges.Keys == recordMap.Keys
      invariant drawn == EdgesOf(c.relations[..i])
      invariant forall p, n | p in edges :: n in edges[p] <==> (p, n) in drawn
    {
      var relation := c.relations[i];
      assert c.relations[..i + 1][..i] == c.relations[..i];
      fault := RelationFault(recordMap, relation);
      if fault.Some? {
        FirstFaultStands(recordMap, c.relations, i + 1);
        return;
      }
      EdgesOfPrefix(c.relations, i);
      drawn := EdgesOf(c.relations[..i + 1]);
      if relation.sourceType != relation.targetType {
        edges := edges[relation.targetType := edges[relation.targetType] + {relation.sourceType}];
      }
    }
    assert c.relations[..|c.relations|] == c.relations;
    fault := None;
  }

  /** The inner loop: every child of `current`, in sorted order, forgets it. */
  method SatisfyChildren(
    current: string, children: set<string>,
    pending0: map<string, set<string>>, ready0: seq<string>, visited: seq<string>)
      returns (pending: map<string, set<string>>, ready: seq<string>, ghost kids: seq<string>)
    requires children <= pending0.Keys
    ensures Elems(kids) == children && Sorted(kids)
    ensures forall k | k in kids :: k in pending0
    ensures State(pending, ready, visited) == RelaxAll(State(pending0, ready0, visited), current, kids)
  {
    pending, ready := pending0, ready0;
    var sorted := SortNames(children);
    kids := sorted;
    assert forall k | k in kids :: k in Elems(kids);
    for j := 0 to |sorted|
      invariant forall k | k in kids[..j] :: k in kids
      invariant State(pending, ready, visited) == RelaxAll(State(pending0, ready0, visited), current, kids[..j])
    {
      var child := sorted[j];
      assert kids[..j + 1][..j] == kids[..j];
      assert child in kids;
      pending := pending[child := pending[child] - {current}];
      if pending[child] == {} && child !in ready && child !in visited {
        ready := ready + [child];
      }
    }
    assert kids[..|sorted|] == kids;
  }

  lemma StartFromEdges(g: Graph, edges: map<string, set<string>>, pending: map<string, set<string>>)
    requires WellFormed(g) && Draws(edges, g)
    requires pending.Keys == Elems(g.nodes)
    requires forall n | n in pending :: pending[n] == set p | p in g.nodes && n in edges[p]
    ensures State(pending, Keep(g.nodes, set n | n in g.nodes && pending[n] == {}), []) == Start(g)
  {
    forall n | n in g.nodes ensures pending[n] == Parents(g, n) {
      assert n in Elems(g.nodes);
      EdgesAreParents(g, edges, n);
    }
    assert pending == Start(g).pending;
    assert (set n | n in g.nodes && pending[n] == {}) == (set n | n in g.nodes && Parents(g, n) == {});
  }

  /** The worklist loop: how many record types it manages to visit. */
  method CountVisited(c: Contract, edges: map<string, set<string>>) returns (count: nat)
    requires Resolvable(c) && Draws(edges, GraphOf(c))
    ensures count == |c.records| <==> !Cyclic(GraphOf(c))
  {
    var order := Names(c);
    ghost var g := GraphOf(c);
    var pending := map n | n in order :: set p | p in order && n in edges[p];
    var ready := Keep(order, set n | n in order && pending[n] == {});
    var visited: seq<string> := [];
    ResolvableGraph(c);
    StartFromEdges(g, edges, pending);
    StartInv(g);
    ghost var st := Start(g);
    while ready != []
      invariant Inv(g, st)
      invariant st == State(pending, ready, visited)
      decreases |order| - |visited|
    {
      VisitedBound(g, st);
      var current := ready[0];
      assert current in st.ready;
      assert current in Elems(g.nodes);
      EdgesAreChildren(g, edges, current);
      ghost var kids;
      pending, ready, kids := SatisfyChildren(current, edges[current], pending, ready[1..], visited + [current]);
      visited := visited + [current];
      TurnKeepsInv(g, st, kids);
      st := State(pending, ready, visited);
    }
    DryIsComplete(g, st);
    count := |visited|;
  }

  method ValidateGraphAndBounds(c: Contract) returns (fault: Option<Fault>)
    ensures fault == GraphFault(c)
  {
    var recordMap := RecordMap(c.records);
    RecordMapKeys(c);
    assert |recordMap| == |recordMap.Keys|;
    if |recordMap| != |c.records| {
      if NoDup(Names(c)) { NoDupCount(Names(c)); }
      return Some(DuplicateRecordType);
    }
    CountNoDup(Names(c));
    if TotalCount(c.records) > c.maxRecords {
      return Some(CountsExceedBound);
    }
    var bad, edges := DrawEdges(c, recordMap);
    if bad.Some? {
      return bad;
    }
    CleanIsResolvable(c);
    var count := CountVisited(c, edges);
    return if count != |recordMap| then Some(CyclicRelations) else None;
  }

  // ---- what is accepted, and what is reported -----------------------------------------------

  lemma {:induction false} TotalIsSum(a: seq<RecordSpec>, b: seq<RecordSpec>)
    ensures TotalCount(a + b) == TotalCount(a) + TotalCount(b)
    ensures |b| == 1 ==> TotalCount(b) == b[0].count
    decreases |b|
  {
    if b == [] {
      assert a + b == a;
    } else {
      var n := |b| - 1;
      assert (a + b)[..|a + b| - 1] == a + b[..n];
      TotalIsSum(a, b[..n]);
    }
  }

  /** The relation's two ends: a record type and one of its fields. */
  ghost predicate Ends(c: Contract, r: RelationSpec, source: RecordSpec, target: RecordSpec) {
    && source in c.records && source.recordType == r.sourceType
    && target in c.records && target.recordType == r.targetType
  }

  ghost predicate KnownTypes(c: Contract, r: RelationSpec) {
    exists source, target :: Ends(c, r, source, target)
  }

  ghost predicate KnownFields(c: Contract, r: RelationSpec) {
    exists source, target ::
      Ends(c, r, source, target) && r.sourceField in source.fields && r.targetField in target.fields
  }

  ghost predicate SameType(c: Contract, r: RelationSpec) {
    exists source, target ::
      && Ends(c, r, source, target) && r.sourceField in source.fields && r.targetField in target.fields
      && source.fields[r.sourceField].kind == target.fields[r.targetField].kind
  }

  ghost predicate UniqueTarget(c: Contract, r: RelationSpec) {
    exists source, target ::
      Ends(c, r, source, target) && r.targetField in target.fields && target.fields[r.targetField].unique
  }

  ghost predicate FilledSource(c: Contract, r: RelationSpec) {
    exists source, target ::
      Ends(c, r, source, target) && r.sourceField in source.fields && !source.fields[r.sourceField].nullable
  }

  /** Both ends exist, have one type, the target is unique, and a required source is never null. */
  ghost predicate RelationOk(c: Contract, r: RelationSpec) {
    && KnownTypes(c, r) && KnownFields(c, r) && SameType(c, r) && UniqueTarget(c, r)
    && (r.required ==> FilledSource(c, r))
  }

  /** What is wrong with a relation, the first fault in the order of the checks. */
  ghost predicate Wrong(c: Contract, r: RelationSpec, fault: Fault) {
    match fault
    case UnknownRecordType => !KnownTypes(c, r)
    case UnknownField => KnownTypes(c, r) && !KnownFields(c, r)
    case StructuralTypeMismatch => KnownFields(c, r) && !SameType(c, r)
    case TargetNotUnique => SameType(c, r) && !UniqueTarget(c, r)
    case RequiredSourceNullable => SameType(c, r) && UniqueTarget(c, r) && r.required && !FilledSource(c, r)
    case _ => false
  }

  lemma OnlyEnds(c: Contract, r: RelationSpec, source: RecordSpec, target: RecordSpec)
    requires NoDup(Names(c)) && Ends(c, r, source, target)
    ensures r.sourceType in RecordMap(c.records) && RecordMap(c.records)[r.sourceType] == source
    ensures r.targetType in RecordMap(c.records) && RecordMap(c.records)[r.targetType] == target
  {
    var i :| 0 <= i < |c.records| && c.records[i] == source;
    var j :| 0 <= j < |c.records| && c.records[j] == target;
    RecordMapAt(c, i);
    RecordMapAt(c, j);
  }

  lemma EndsKnown(c: Contract, r: RelationSpec)
    requires NoDup(Names(c))
    ensures var specs := RecordMap(c.records);
      && (KnownTypes(c, r) <==> r.sourceType in specs && r.targetType in specs)
      && (KnownTypes(c, r) ==> Ends(c, r, specs[r.sourceType], specs[r.targetType]))
  {
    var specs := RecordMap(c.records);
    RecordMapHolds(c.records);
    if KnownTypes(c, r) {
      var source, target :| Ends(c, r, source, target);
      OnlyEnds(c, r, source, target);
    }
    if r.sourceType in specs && r.targetType in specs {
      assert Ends(c, r, specs[r.sourceType], specs[r.targetType]);
    }
  }

  lemma RelationExactly(c: Contract, r: RelationSpec)
    requires NoDup(Names(c))
    ensures var fault := RelationFault(RecordMap(c.records), r);
      && (fault == None <==> RelationOk(c, r))
      && (fault.Some? ==> Wrong(c, r, fault.value))
  {
    EndsKnown(c, r);
    forall source, target | Ends(c, r, source, target)
      ensures RecordMap(c.records)[r.sourceType] == source && RecordMap(c.records)[r.targetType] == target
    {
      OnlyEnds(c, r, source, target);
    }
  }

  ghost predicate OkBefore(c: Contract, n: int)
    requires n <= |c.relations|
  {
    forall i | 0 <= i < n :: RelationOk(c, c.relations[i])
  }

  ghost predicate RelationsOk(c: Contract) {
    OkBefore(c, |c.relations|)
  }

  /** The first relation with a fault, and that fault. */
  ghost predicate FirstWrong(c: Contract, i: int, fault: Fault) {
    0 <= i < |c.relations| && Wrong(c, c.relations[i], fault) && OkBefore(c, i)
  }

  lemma {:induction false} RelationsExactly(c: Contract, n: nat) returns (i: int)
    requires NoDup(Names(c)) && n <= |c.relations|
    ensures var fault := RelationsFault(RecordMap(c.records), c.relations[..n]);
      && (fault == None ==> OkBefore(c, n))
      && (fault.Some? ==> i < n && FirstWrong(c, i, fault.value))
  {
    i := n - 1;
    if n == 0 {
    } else {
      var earlier := RelationsFault(RecordMap(c.records), c.relations[..n - 1]);
      var before := RelationsExactly(c, n - 1);
      assert c.relations[..n][..n - 1] == c.relations[..n - 1];
      if earlier.Some? {
        i := before;
      } else {
        RelationExactly(c, c.relations[n - 1]);
        OneMoreOk(c, n, RelationFault(RecordMap(c.records), c.relations[n - 1]));
      }
    }
  }

  lemma OneMoreOk(c: Contract, n: nat, fault: Option<Fault>)
    requires 0 < n <= |c.relations| && OkBefore(c, n - 1)
    requires fault == None ==> RelationOk(c, c.relations[n - 1])
    requires fault.Some? ==> Wrong(c, c.relations[n - 1], fault.value)
    ensures fault == None ==> OkBefore(c, n)
    ensures fault.Some? ==> FirstWrong(c, n - 1, fault.value)
  {
  }

  lemma WrongIsNotOk(c: Contract, r: RelationSpec, fault: Fault)
    requires Wrong(c, r, fault)
    ensures !RelationOk(c, r)
  {
  }

  /** A round of relations between different record types, each from a child to its parent. */
  ghost predicate Round(c: Contract, p: seq<string>) {
    && |p| >= 2 && p[0] == p[|p| - 1]
    && forall i | 0 <= i < |p| - 1 :: RelatesTo(c, p[i + 1], p[i])
  }

  ghost predicate RelatesTo(c: Contract, child: string, parent: string) {
    child != parent && exists r :: r in c.relations && r.sourceType == child && r.targetType == parent
  }

  lemma RoundIsCycle(c: Contract)
    ensures Cyclic(GraphOf(c)) <==> exists p :: Round(c, p)
  {
    forall a, b ensures (a, b) in GraphOf(c).edges <==> RelatesTo(c, b, a) {
    }
    if p :| Round(c, p) {
      forall i | 0 <= i < |p| - 1 ensures (p[i], p[i + 1]) in GraphOf(c).edges {
        assert RelatesTo(c, p[i + 1], p[i]);
      }
      assert IsCycle(GraphOf(c), p);
    }
    if Cyclic(GraphOf(c)) {
      var p :| IsCycle(GraphOf(c), p);
      forall i | 0 <= i < |p| - 1 ensures RelatesTo(c, p[i + 1], p[i]) {
        assert (p[i], p[i + 1]) in GraphOf(c).edges;
      }
      assert Round(c, p);
    }
  }

  /**
   * The validator accepts a contract if and only if its record types are distinct, their rows together
   * stay within the bound, every relation is in order, and no relations go round.
   */
  lemma ContractAcceptedExactly(c: Contract)
    ensures GraphFault(c) == None <==>
      && NoDup(Names(c)) && TotalCount(c.records) <= c.maxRecords
      && RelationsOk(c) && !exists p :: Round(c, p)
  {
    RoundIsCycle(c);
    if NoDup(Names(c)) { ReportedRelations(c); }
  }

  lemma ReportedRelations(c: Contract)
    requires NoDup(Names(c))
    ensures var fault := RelationsFault(RecordMap(c.records), c.relations);
      && (fault == None <==> RelationsOk(c))
      && (fault.Some? ==> exists i :: FirstWrong(c, i, fault.value))
  {
    var i := RelationsExactly(c, |c.relations|);
    assert c.relations[..|c.relations|] == c.relations;
    var fault := RelationsFault(RecordMap(c.records), c.relations);
    if fault.Some? {
      WrongIsNotOk(c, c.relations[i], fault.value);
    }
  }

  /** What a rejected contract is told: repeated names, too many rows, the first wrong relation, or a round. */
  lemma ReportedExactly(c: Contract)
    requires GraphFault(c).Some?
    ensures match GraphFault(c).value
      case DuplicateRecordType => !NoDup(Names(c))
      case CountsExceedBound => NoDup(Names(c)) && TotalCount(c.records) > c.maxRecords
      case CyclicRelations =>
        && NoDup(Names(c)) && TotalCount(c.records) <= c.maxRecords && RelationsOk(c) && exists p :: Round(c, p)
      case fault =>
        && NoDup(Names(c)) && TotalCount(c.records) <= c.maxRecords && exists i :: FirstWrong(c, i, fault)
  {
    RoundIsCycle(c);
    if NoDup(Names(c)) { ReportedRelations(c); }
  }
}
