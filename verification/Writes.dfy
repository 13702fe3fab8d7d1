// A validated generation write, and the insertions it asks of the store.
module Writes {
  import opened Values
  import opened Kahn
  import opened Contracts
  import opened Planning
  import opened Store

  type Records = map<string, seq<Row>>

  /** Digests and encoded sizes are inputs here: they are computed by code outside the model. */
  datatype Dataset = Dataset(records: Records, recordCount: nat, byteCount: nat, dataDigest: string)

  datatype Request = Request(contract: Contract, seed: string, digest: string, contractDigest: string)

  datatype GenerationWrite = GenerationWrite(
    generationId: string, request: Request, dataset: Dataset, provider: string)

  /** The record types, row counts and field sets that the dataset check establishes. */
  ghost predicate RecordsFit(c: Contract, records: Records) {
    && records.Keys == Elems(Names(c))
    && forall r | r in c.records ::
         && |records[r.recordType]| == r.count
         && forall row | row in records[r.recordType] :: row.Keys == r.fields.Keys
  }

  ghost predicate WriteOk(w: GenerationWrite) {
    ContractOk(w.request.contract) && RecordsFit(w.request.contract, w.dataset.records)
  }

  function Table(d: DestinationSpec): TableId {
    TableId(d.schema, d.table)
  }

  /** `{column: generated[field] for field, column in destination.columns.items()}` */
  function DatabaseRow(d: DestinationSpec, generated: Row): Row
    requires Injective(d.columns) && d.columns.Keys <= generated.Keys
  {
    map f | f in d.columns :: d.columns[f] := generated[f]
  }

  lemma DatabaseRowAt(d: DestinationSpec, generated: Row, f: string)
    requires Injective(d.columns) && d.columns.Keys <= generated.Keys && f in d.columns
    ensures d.columns[f] in DatabaseRow(d, generated)
    ensures DatabaseRow(d, generated)[d.columns[f]] == generated[f]
  {
  }

  function ColumnTypes(spec: RecordSpec): map<string, FieldType>
    requires Injective(spec.destination.columns) && spec.destination.columns.Keys <= spec.fields.Keys
  {
    map f | f in spec.destination.columns :: spec.destination.columns[f] := spec.fields[f].kind
  }

  /** `{columns[field]: generated[field] for field in key_fields}` */
  function KeyRow(d: DestinationSpec, generated: Row): Row
    requires Injective(d.columns) && (forall f | f in d.keyFields :: f in d.columns && f in generated)
  {
    map f | f in d.keyFields :: d.columns[f] := generated[f]
  }

  function KeyColumns(d: DestinationSpec): set<string>
    requires forall f | f in d.keyFields :: f in d.columns
  {
    set f | f in d.keyFields :: d.columns[f]
  }

  ghost predicate RowFits(spec: RecordSpec, generated: Row) {
    RecordOk(spec) && generated.Keys == spec.fields.Keys
  }

  ghost function InsertionOf(spec: RecordSpec, rank: nat, generated: Row): Insertion
    requires RowFits(spec, generated)
  {
    Insertion(
      spec.recordType, Table(spec.destination), DatabaseRow(spec.destination, generated),
      KeyColumns(spec.destination), ColumnTypes(spec), rank)
  }

  /** The ledger key is the inserted row cut down to the key columns. */
  lemma KeyIsKey(d: DestinationSpec, generated: Row)
    requires DestinationOk(d) && d.columns.Keys <= generated.Keys
    ensures KeyRow(d, generated) ==
            map c | c in KeyColumns(d) && c in DatabaseRow(d, generated) :: DatabaseRow(d, generated)[c]
  {
    var key, row, cols := KeyRow(d, generated), DatabaseRow(d, generated), KeyColumns(d);
    forall c | c in cols ensures c in row && c in key && key[c] == row[c] {
      var f :| f in d.keyFields && d.columns[f] == c;
      DatabaseRowAt(d, generated, f);
      KeyRowAt(d, generated, f);
    }
    assert key.Keys == cols;
  }

  lemma KeyRowAt(d: DestinationSpec, generated: Row, f: string)
    requires DestinationOk(d) && d.columns.Keys <= generated.Keys && f in d.keyFields
    ensures d.columns[f] in KeyRow(d, generated) && KeyRow(d, generated)[d.columns[f]] == generated[f]
  {
  }

  /** An insertion takes apart into what the commit loop computes for the row. */
  lemma InsertionParts(x: Insertion, spec: RecordSpec, rank: nat, generated: Row)
    requires RowFits(spec, generated) && x == InsertionOf(spec, rank, generated)
    ensures Injective(spec.destination.columns) && spec.destination.columns.Keys == spec.fields.Keys == generated.Keys
    ensures forall f | f in spec.destination.keyFields :: f in spec.destination.columns && f in generated
    ensures x.recordType == spec.recordType && x.table == Table(spec.destination) && x.rank == rank
    ensures x.row == DatabaseRow(spec.destination, generated) && x.types == ColumnTypes(spec)
    ensures x.Key() == KeyRow(spec.destination, generated)
  {
    KeyIsKey(spec.destination, generated);
  }

  ghost function TypeInsertions(spec: RecordSpec, rank: nat, rows: seq<Row>): (ins: seq<Insertion>)
    requires forall row | row in rows :: RowFits(spec, row)
    ensures |ins| == |rows|
  {
    if rows == [] then []
    else
      var n := |rows| - 1;
      assert forall row | row in rows[..n] :: row in rows;
      TypeInsertions(spec, rank, rows[..n]) + [InsertionOf(spec, rank, rows[n])]
  }

  lemma {:induction false} TypeInsertionAt(spec: RecordSpec, rank: nat, rows: seq<Row>, j: nat)
    requires (forall row | row in rows :: RowFits(spec, row)) && j < |rows|
    ensures TypeInsertions(spec, rank, rows)[j] == InsertionOf(spec, rank, rows[j])
  {
    var n := |rows| - 1;
    assert forall row | row in rows[..n] :: row in rows;
    if j < n { TypeInsertionAt(spec, rank, rows[..n], j); }
  }

  lemma SpecFits(c: Contract, records: Records, name: string)
    requires ContractOk(c) && RecordsFit(c, records) && name in Names(c)
    ensures name in RecordMap(c.records) && name in records
    ensures var spec := RecordMap(c.records)[name];
      && spec in c.records && spec.recordType == name && RecordOk(spec)
      && |records[name]| == spec.count
      && forall row | row in records[name] :: RowFits(spec, row)
  {
    RecordMapKeys(c);
    RecordMapHolds(c.records);
    assert name in Elems(Names(c));
  }

  /** The rows of one record type, with the type's delete rank. */
  datatype Group = Group(spec: RecordSpec, rank: nat, rows: seq<Row>)

  ghost predicate GroupOk(g: Group) {
    forall row | row in g.rows :: RowFits(g.spec, row)
  }

  ghost predicate GroupsOk(gs: seq<Group>) {
    forall i | 0 <= i < |gs| :: GroupOk(gs[i])
  }

  ghost function Flatten(gs: seq<Group>): seq<Insertion>
    requires GroupsOk(gs)
  {
    if gs == [] then []
    else
      var n := |gs| - 1;
      Flatten(gs[..n]) + TypeInsertions(gs[n].spec, gs[n].rank, gs[n].rows)
  }

  ghost predicate Ordered(c: Contract, records: Records, order: seq<string>) {
    ContractOk(c) && RecordsFit(c, records) && forall n | n in order :: n in Names(c)
  }

  /** `for record_type in plan.insert_order`, with `delete_rank` read off the reversed order. */
  ghost function GroupsOf(c: Contract, records: Records, order: seq<string>): (gs: seq<Group>)
    requires Ordered(c, records, order)
    ensures |gs| == |order|
  {
    RecordMapKeys(c);
    assert forall n | n in order :: n in Elems(Names(c));
    seq(|order|, i requires 0 <= i < |order| =>
      Group(RecordMap(c.records)[order[i]], |order| - 1 - i, records[order[i]]))
  }

  lemma GroupAt(c: Contract, records: Records, order: seq<string>, i: nat)
    requires Ordered(c, records, order) && i < |order|
    ensures order[i] in RecordMap(c.records) && order[i] in records
    ensures var spec := RecordMap(c.records)[order[i]];
      && spec in c.records && spec.recordType == order[i] && RecordOk(spec)
      && |records[order[i]]| == spec.count
      && GroupsOf(c, records, order)[i] == Group(spec, |order| - 1 - i, records[order[i]])
      && GroupOk(GroupsOf(c, records, order)[i])
  {
    SpecFits(c, records, order[i]);
  }

  lemma GroupsFit(c: Contract, records: Records, order: seq<string>)
    requires Ordered(c, records, order)
    ensures GroupsOk(GroupsOf(c, records, order))
  {
    forall i | 0 <= i < |order| ensures GroupOk(GroupsOf(c, records, order)[i]) {
      GroupAt(c, records, order, i);
    }
  }

  lemma ContractPlanned(c: Contract)
    requires ContractOk(c)
    ensures Resolvable(c) && PlanOf(c).Some?
    ensures PlanOf(c).value.insertOrder == InsertOrder(c)
    ensures PlanOf(c).value.deleteOrder == Reverse(InsertOrder(c))
    ensures NoDup(InsertOrder(c)) && Elems(InsertOrder(c)) == Elems(Names(c))
    ensures Topological(GraphOf(c), InsertOrder(c))
    ensures forall n | n in InsertOrder(c) :: n in Names(c)
  {
    ValidatorAndPlannerAgree(c);
    PlanShape(c, PlanOf(c).value);
    forall n | n in InsertOrder(c) ensures n in Names(c) {
      assert n in Elems(Names(c));
    }
  }

  lemma PlanOrdered(c: Contract, records: Records)
    requires ContractOk(c) && RecordsFit(c, records)
    ensures Resolvable(c) && PlanOf(c).Some? && PlanOf(c).value.insertOrder == InsertOrder(c)
    ensures Ordered(c, records, InsertOrder(c))
  {
    ContractPlanned(c);
  }

  ghost function AllGroups(c: Contract, records: Records): (gs: seq<Group>)
    requires ContractOk(c) && RecordsFit(c, records)
    ensures GroupsOk(gs)
  {
    PlanOrdered(c, records);
    GroupsFit(c, records, InsertOrder(c));
    GroupsOf(c, records, InsertOrder(c))
  }

  ghost function AllInsertions(c: Contract, records: Records): seq<Insertion>
    requires ContractOk(c) && RecordsFit(c, records)
  {
    Flatten(AllGroups(c, records))
  }

  /** The groups are what the commit loop visits, in the plan's order. */
  ghost predicate Visits(order: seq<string>, specs: map<string, RecordSpec>, records: Records, gs: seq<Group>) {
    && GroupsOk(gs) && |gs| == |order|
    && forall i {:trigger order[i]} | 0 <= i < |order| ::
         && order[i] in specs && order[i] in records && records[order[i]] != []
         && gs[i] == Group(specs[order[i]], |order| - 1 - i, records[order[i]])
  }

  lemma GroupsReady(c: Contract, records: Records)
    requires ContractOk(c) && RecordsFit(c, records)
    ensures Resolvable(c) && PlanOf(c).Some?
    ensures Visits(PlanOf(c).value.insertOrder, RecordMap(c.records), records, AllGroups(c, records))
  {
    PlanOrdered(c, records);
    var order, specs, gs := InsertOrder(c), RecordMap(c.records), AllGroups(c, records);
    forall i | 0 <= i < |order|
      ensures order[i] in specs && order[i] in records && records[order[i]] != []
      ensures gs[i] == Group(specs[order[i]], |order| - 1 - i, records[order[i]])
    {
      GroupAt(c, records, order, i);
    }
  }

  function Destinations(specs: seq<RecordSpec>, records: Records): seq<(TableId, nat)>
    requires forall r | r in specs :: r.recordType in records
  {
    seq(|specs|, i requires 0 <= i < |specs| =>
      (Table(specs[i].destination), |records[specs[i].recordType]|))
  }

  lemma RecordTypesPresent(c: Contract, records: Records)
    requires RecordsFit(c, records)
    ensures forall r | r in c.records :: r.recordType in records
  {
    forall r | r in c.records ensures r.recordType in records {
      var i :| 0 <= i < |c.records| && c.records[i] == r;
      assert Names(c)[i] == r.recordType;
      assert r.recordType in Elems(Names(c));
    }
  }

  function HeaderOf(w: GenerationWrite): Header
    requires forall r | r in w.request.contract.records :: r.recordType in w.dataset.records
  {
    Header(
      w.generationId, w.request.digest, w.request.contractDigest, w.dataset.dataDigest, w.request.seed, w.provider,
      Destinations(w.request.contract.records, w.dataset.records), w.dataset.recordCount, w.dataset.byteCount)
  }

  ghost function BatchOf(w: GenerationWrite): Batch
    requires WriteOk(w)
  {
    RecordTypesPresent(w.request.contract, w.dataset.records);
    Batch(HeaderOf(w), AllInsertions(w.request.contract, w.dataset.records))
  }

  lemma BatchParts(w: GenerationWrite)
    requires WriteOk(w)
    ensures forall r | r in w.request.contract.records :: r.recordType in w.dataset.records
    ensures ContractOk(w.request.contract) && RecordsFit(w.request.contract, w.dataset.records)
    ensures BatchOf(w) == Batch(HeaderOf(w), AllInsertions(w.request.contract, w.dataset.records))
  {
    RecordTypesPresent(w.request.contract, w.dataset.records);
  }

  // ---- the insertions follow the plan ------------------------------------------------

  /** Which group and row an insertion comes from. */
  lemma {:induction false} Origin(gs: seq<Group>, p: nat) returns (i: nat, j: nat)
    requires GroupsOk(gs) && p < |Flatten(gs)|
    ensures i < |gs| && j < |gs[i].rows| && GroupsOk(gs[..i]) && p == |Flatten(gs[..i])| + j
  {
    var n := |gs| - 1;
    if p < |Flatten(gs[..n])| {
      i, j := Origin(gs[..n], p);
      assert gs[..n][..i] == gs[..i];
    } else {
      i, j := n, p - |Flatten(gs[..n])|;
    }
  }

  lemma {:induction false} FlattenGrows(gs: seq<Group>, k: nat)
    requires GroupsOk(gs) && k <= |gs|
    ensures Flatten(gs[..k]) <= Flatten(gs)
    decreases |gs|
  {
    if k == |gs| {
      assert gs[..k] == gs;
    } else {
      var n := |gs| - 1;
      assert gs[..n][..k] == gs[..k];
      FlattenGrows(gs[..n], k);
    }
  }

  /** Where a group's insertions begin and end. */
  lemma FlattenSpan(gs: seq<Group>, i: nat)
    requires GroupsOk(gs) && i < |gs|
    ensures GroupsOk(gs[..i]) && GroupsOk(gs[..i + 1])
    ensures |Flatten(gs[..i + 1])| == |Flatten(gs[..i])| + |gs[i].rows| <= |Flatten(gs)|
  {
    assert gs[..i + 1][..i] == gs[..i];
    FlattenGrows(gs, i + 1);
  }

  /** The insertion of one row of one group. */
  lemma FlattenAt(gs: seq<Group>, i: nat, j: nat)
    requires GroupsOk(gs) && i < |gs| && j < |gs[i].rows|
    ensures GroupsOk(gs[..i]) && |Flatten(gs[..i])| + j < |Flatten(gs)|
    ensures RowFits(gs[i].spec, gs[i].rows[j])
    ensures Flatten(gs)[|Flatten(gs[..i])| + j] == InsertionOf(gs[i].spec, gs[i].rank, gs[i].rows[j])
  {
    assert gs[..i + 1][..i] == gs[..i];
    FlattenGrows(gs, i + 1);
    assert GroupOk(gs[i]);
    var k, some := |Flatten(gs[..i])| + j, Flatten(gs[..i + 1]);
    TypeInsertionAt(gs[i].spec, gs[i].rank, gs[i].rows, j);
    assert some[k] == Flatten(gs)[k];
  }

  lemma InsertionAt(gs: seq<Group>, i: nat, j: nat, k: nat)
    requires GroupsOk(gs) && i < |gs| && j < |gs[i].rows| && GroupsOk(gs[..i]) && k == |Flatten(gs[..i])| + j
    ensures k < |Flatten(gs)| && RowFits(gs[i].spec, gs[i].rows[j])
    ensures Flatten(gs)[k] == InsertionOf(gs[i].spec, gs[i].rank, gs[i].rows[j])
  {
    AtOffset(gs, Flatten(gs), i, j, |Flatten(gs[..i])|);
  }

  lemma AtOffset(gs: seq<Group>, all: seq<Insertion>, i: nat, j: nat, offset: nat)
    requires GroupsOk(gs) && all == Flatten(gs) && i < |gs| && j < |gs[i].rows|
    requires GroupsOk(gs[..i]) && offset == |Flatten(gs[..i])|
    ensures offset + j < |all| && RowFits(gs[i].spec, gs[i].rows[j])
    ensures all[offset + j] == InsertionOf(gs[i].spec, gs[i].rank, gs[i].rows[j])
  {
    FlattenAt(gs, i, j);
  }

  /** The group, row and insertion at a position. */
  lemma OriginAt(gs: seq<Group>, k: nat) returns (i: nat, j: nat)
    requires GroupsOk(gs) && k < |Flatten(gs)|
    ensures i < |gs| && j < |gs[i].rows| && RowFits(gs[i].spec, gs[i].rows[j])
    ensures Flatten(gs)[k] == InsertionOf(gs[i].spec, gs[i].rank, gs[i].rows[j])
  {
    i, j := Origin(gs, k);
    FlattenAt(gs, i, j);
  }

  ghost predicate GroupRanksFall(gs: seq<Group>) {
    forall i, j | 0 <= i < j < |gs| :: gs[j].rank < gs[i].rank
  }

  lemma {:induction false} FlattenRanksFall(gs: seq<Group>)
    requires GroupsOk(gs) && GroupRanksFall(gs)
    ensures RanksFall(Flatten(gs))
    ensures gs != [] ==> forall p | 0 <= p < |Flatten(gs)| :: gs[|gs| - 1].rank <= Flatten(gs)[p].rank
  {
    if gs == [] {
    } else {
      var n := |gs| - 1;
      FlattenRanksFall(gs[..n]);
      var before, ins := Flatten(gs[..n]), Flatten(gs);
      forall p | |before| <= p < |ins| ensures ins[p].rank == gs[n].rank {
        TypeInsertionAt(gs[n].spec, gs[n].rank, gs[n].rows, p - |before|);
      }
      forall p | 0 <= p < |before| ensures ins[p] == before[p] && gs[n].rank <= ins[p].rank {
        assert gs[n].rank < gs[n - 1].rank == gs[..n][n - 1].rank;
      }
    }
  }

  /** Later record types have smaller delete ranks, so the written ledger sorts into reverse insertion order. */
  lemma InsertionRanksFall(c: Contract, records: Records)
    requires ContractOk(c) && RecordsFit(c, records)
    ensures RanksFall(AllInsertions(c, records))
  {
    PlanOrdered(c, records);
    var gs := AllGroups(c, records);
    forall i, j | 0 <= i < j < |gs| ensures gs[j].rank < gs[i].rank {
    }
    FlattenRanksFall(gs);
  }
}
