// What a commit leaves behind, from the dataset's own fields to the columns and the result.
module Committed {
  import opened Values
  import opened Contracts
  import opened Planning
  import opened Store
  import opened Writes
  import opened EndToEnd
  import opened Judgements

  // ---- the rows of one record type ------------------------------------------------------------

  /** The database row has exactly the mapped columns, each with its field's value. */
  ghost predicate Mapped(d: DestinationSpec, generated: Row, row: Row) {
    && row.Keys == d.columns.Values
    && forall f | f in d.columns :: d.columns[f] in row && f in generated && row[d.columns[f]] == generated[f]
  }

  /** One row for one row, in order. */
  ghost predicate AllMapped(d: DestinationSpec, generated: seq<Row>, rows: seq<Row>) {
    |rows| == |generated| && forall j | 0 <= j < |rows| :: Mapped(d, generated[j], rows[j])
  }

  lemma MappedRow(spec: RecordSpec, rank: nat, generated: Row)
    requires RowFits(spec, generated)
    ensures Mapped(spec.destination, generated, InsertionOf(spec, rank, generated).row)
  {
    var d, row := spec.destination, InsertionOf(spec, rank, generated).row;
    forall f | f in d.columns ensures d.columns[f] in row && row[d.columns[f]] == generated[f] {
      DatabaseRowAt(d, generated, f);
    }
  }

  lemma {:induction false} TypeRows(spec: RecordSpec, rank: nat, rows: seq<Row>, id: TableId)
    requires forall row | row in rows :: RowFits(spec, row)
    ensures Table(spec.destination) == id ==>
      AllMapped(spec.destination, rows, RowsFor(TypeInsertions(spec, rank, rows), id))
    ensures Table(spec.destination) != id ==> RowsFor(TypeInsertions(spec, rank, rows), id) == []
  {
    if rows == [] {
    } else {
      var n := |rows| - 1;
      assert forall row | row in rows[..n] :: row in rows;
      TypeRows(spec, rank, rows[..n], id);
      MappedRow(spec, rank, rows[n]);
      var before, x := TypeInsertions(spec, rank, rows[..n]), InsertionOf(spec, rank, rows[n]);
      LastRow(before, x, id);
      if x.table == id { OneMoreMapped(spec.destination, rows, RowsFor(before, id), x.row); }
    }
  }

  lemma LastRow(before: seq<Insertion>, x: Insertion, id: TableId)
    ensures RowsFor(before + [x], id) == RowsFor(before, id) + (if x.table == id then [x.row] else [])
  {
    assert (before + [x])[..|before|] == before;
  }

  lemma OneMoreMapped(d: DestinationSpec, generated: seq<Row>, rows: seq<Row>, row: Row)
    requires generated != [] && AllMapped(d, generated[..|generated| - 1], rows)
    requires Mapped(d, generated[|generated| - 1], row)
    ensures AllMapped(d, generated, rows + [row])
  {
  }

  lemma {:induction false} RowsForSplit(a: seq<Insertion>, b: seq<Insertion>, id: TableId)
    ensures RowsFor(a + b, id) == RowsFor(a, id) + RowsFor(b, id)
    decreases |b|
  {
    if b == [] {
      assert a + b == a;
    } else {
      var n := |b| - 1;
      assert (a + b)[..|a + b| - 1] == a + b[..n];
      RowsForSplit(a, b[..n], id);
    }
  }

  ghost predicate OnlyGroup(gs: seq<Group>, i: nat, id: TableId) {
    i < |gs| && forall k | 0 <= k < |gs| :: Table(gs[k].spec.destination) == id <==> k == i
  }

  ghost predicate NoGroup(gs: seq<Group>, id: TableId) {
    forall k | 0 <= k < |gs| :: Table(gs[k].spec.destination) != id
  }

  lemma LastGroup(gs: seq<Group>, id: TableId)
    requires GroupsOk(gs) && gs != []
    ensures var g := gs[|gs| - 1];
      && GroupsOk(gs[..|gs| - 1])
      && RowsFor(Flatten(gs), id) ==
         RowsFor(Flatten(gs[..|gs| - 1]), id) + RowsFor(TypeInsertions(g.spec, g.rank, g.rows), id)
      && (Table(g.spec.destination) != id ==> RowsFor(Flatten(gs), id) == RowsFor(Flatten(gs[..|gs| - 1]), id))
  {
    var n := |gs| - 1;
    var g := gs[n];
    assert GroupOk(g);
    RowsForSplit(Flatten(gs[..n]), TypeInsertions(g.spec, g.rank, g.rows), id);
    TypeRows(g.spec, g.rank, g.rows, id);
  }

  lemma {:induction false} NoGroupRows(gs: seq<Group>, id: TableId)
    requires GroupsOk(gs) && NoGroup(gs, id)
    ensures RowsFor(Flatten(gs), id) == []
  {
    if gs == [] {
    } else {
      LastGroup(gs, id);
      NoGroupRows(gs[..|gs| - 1], id);
    }
  }

  lemma {:induction false} GroupRows(gs: seq<Group>, i: nat, id: TableId)
    requires GroupsOk(gs) && OnlyGroup(gs, i, id)
    ensures AllMapped(gs[i].spec.destination, gs[i].rows, RowsFor(Flatten(gs), id))
  {
    var n := |gs| - 1;
    LastGroup(gs, id);
    if i == n {
      NoGroupRows(gs[..n], id);
      assert GroupOk(gs[n]);
      TypeRows(gs[n].spec, gs[n].rank, gs[n].rows, id);
    } else {
      GroupRows(gs[..n], i, id);
    }
  }

  // ---- the whole dataset ------------------------------------------------------------------------

  /** Into the table of a record type go exactly that type's rows, in order. */
  lemma RowsOfType(c: Contract, records: Records, spec: RecordSpec)
    requires ContractOk(c) && RecordsFit(c, records) && OwnTables(c) && spec in c.records
    ensures spec.recordType in records
    ensures AllMapped(spec.destination, records[spec.recordType],
                      RowsFor(AllInsertions(c, records), Table(spec.destination)))
  {
    var gs := AllGroups(c, records);
    var i := GroupOf(c, records, spec);
    GroupSpec(c, records, i);
    forall k | 0 <= k < |gs| ensures Table(gs[k].spec.destination) == Table(spec.destination) <==> k == i {
      if Table(gs[k].spec.destination) == Table(spec.destination) { SameGroup(c, records, k, i); }
    }
    GroupRows(gs, i, Table(spec.destination));
  }

  /** Into any other table goes nothing. */
  lemma RowsOfNone(c: Contract, records: Records, id: TableId)
    requires ContractOk(c) && RecordsFit(c, records)
    requires forall spec | spec in c.records :: Table(spec.destination) != id
    ensures RowsFor(AllInsertions(c, records), id) == []
  {
    var gs := AllGroups(c, records);
    forall k | 0 <= k < |gs| ensures Table(gs[k].spec.destination) != id {
      GroupSpec(c, records, k);
    }
    NoGroupRows(gs, id);
  }

  /** Its columns are there, with the types of the fields. */
  ghost predicate ColumnsTyped(cat: Catalog, spec: RecordSpec) {
    && Table(spec.destination) in cat.tables
    && forall f | f in spec.destination.columns && f in spec.fields ::
         var columns := cat.tables[Table(spec.destination)].columns;
         var col := spec.destination.columns[f];
         col in columns && columns[col] == spec.fields[f].kind
  }

  lemma TypesOfType(cat: Catalog, rows: Rows, t: Tenant, c: Contract, records: Records, spec: RecordSpec)
    requires ContractOk(c) && RecordsFit(c, records) && spec in c.records
    requires StageAll(cat, rows, t, AllInsertions(c, records)).Ok?
    ensures ColumnsTyped(cat, spec)
  {
    var k, x, generated := SomeRow(c, records, spec);
    StagedShapes(cat, rows, t, AllInsertions(c, records));
    ShapeTypes(cat, x, spec);
  }

  lemma ShapeTypes(cat: Catalog, x: Insertion, spec: RecordSpec)
    requires RecordOk(spec) && WellShaped(cat, x) && x.table == Table(spec.destination) && x.types == ColumnTypes(spec)
    ensures ColumnsTyped(cat, spec)
  {
    forall f | f in spec.destination.columns
      ensures spec.destination.columns[f] in x.types && x.types[spec.destination.columns[f]] == spec.fields[f].kind
    {
    }
  }

  /** Every record type has a row among the insertions. */
  lemma SomeRow(c: Contract, records: Records, spec: RecordSpec) returns (k: nat, x: Insertion, generated: Row)
    requires ContractOk(c) && RecordsFit(c, records) && spec in c.records
    ensures k < |AllInsertions(c, records)| && x == AllInsertions(c, records)[k] && RowFits(spec, generated)
    ensures x.table == Table(spec.destination) && x.types == ColumnTypes(spec)
  {
    var i := GroupOf(c, records, spec);
    GroupSpec(c, records, i);
    var g := AllGroups(c, records)[i];
    assert GroupsOk(AllGroups(c, records)[..i]);
    k, generated := |Flatten(AllGroups(c, records)[..i])|, g.rows[0];
    GroupRow(c, records, i, 0, k);
    x := AllInsertions(c, records)[k];
    InsertionParts(x, spec, g.rank, generated);
  }

  // ---- the ledger -------------------------------------------------------------------------------

  /** The written key: the key fields' values, by column. */
  ghost predicate Keyed(d: DestinationSpec, generated: Row, key: Row) {
    && (forall col :: col in key <==> exists f :: f in d.keyFields && f in d.columns && d.columns[f] == col)
    && forall f | f in d.keyFields && f in d.columns ::
         d.columns[f] in key && f in generated && key[d.columns[f]] == generated[f]
  }

  lemma KeyRowIsKeyed(spec: RecordSpec, generated: Row)
    requires RowFits(spec, generated)
    ensures Keyed(spec.destination, generated, KeyRow(spec.destination, generated))
  {
    forall f | f in spec.destination.keyFields
      ensures f in spec.destination.columns
      ensures spec.destination.columns[f] in KeyRow(spec.destination, generated)
      ensures KeyRow(spec.destination, generated)[spec.destination.columns[f]] == generated[f]
    {
      KeyRowAt(spec.destination, generated, f);
    }
  }

  /**
   * The ledger has one entry for each insertion: its table, its place, the key that finds it, and as
   * delete rank the place of its record type in the plan's delete order.
   */
  lemma LedgerNames(c: Contract, records: Records, k: nat) returns (spec: RecordSpec, generated: Row)
    requires ContractOk(c) && RecordsFit(c, records) && k < |AllInsertions(c, records)|
    ensures spec in c.records && spec.recordType in records && generated in records[spec.recordType]
    ensures Resolvable(c) && PlanOf(c).Some?
    ensures var entry := LedgerOf(AllInsertions(c, records))[k];
      && entry.recordType == spec.recordType && entry.ordinal == k
      && entry.table.schema == spec.destination.schema && entry.table.table == spec.destination.table
      && Keyed(spec.destination, generated, entry.key)
      && entry.rank < |PlanOf(c).value.deleteOrder|
      && PlanOf(c).value.deleteOrder[entry.rank] == spec.recordType
  {
    var all, gs := AllInsertions(c, records), AllGroups(c, records);
    var i, j := OriginAt(gs, k);
    spec, generated := gs[i].spec, gs[i].rows[j];
    GroupSpec(c, records, i);
    RankIsPlace(c, records, i);
    EntrySays(all, k, spec, gs[i].rank, generated);
  }

  lemma EntrySays(all: seq<Insertion>, k: nat, spec: RecordSpec, rank: nat, generated: Row)
    requires k < |all| && RowFits(spec, generated) && all[k] == InsertionOf(spec, rank, generated)
    ensures var entry := LedgerOf(all)[k];
      && entry.recordType == spec.recordType && entry.ordinal == k && entry.rank == rank
      && entry.table.schema == spec.destination.schema && entry.table.table == spec.destination.table
      && Keyed(spec.destination, generated, entry.key)
  {
    InsertionParts(all[k], spec, rank, generated);
    KeyRowIsKeyed(spec, generated);
  }

  lemma RankIsPlace(c: Contract, records: Records, i: nat)
    requires ContractOk(c) && RecordsFit(c, records) && i < |AllGroups(c, records)|
    ensures Resolvable(c) && PlanOf(c).Some?
    ensures var g := AllGroups(c, records)[i];
      g.rank < |PlanOf(c).value.deleteOrder| && PlanOf(c).value.deleteOrder[g.rank] == g.spec.recordType
  {
    GroupsReady(c, records);
    PlanShape(c, PlanOf(c).value);
    RecordMapHolds(c.records);
    PlaceOf(PlanOf(c).value, RecordMap(c.records), records, AllGroups(c, records), i);
  }

  lemma PlaceOf(plan: DestinationPlan, specs: map<string, RecordSpec>, records: Records, gs: seq<Group>, i: nat)
    requires Visits(plan.insertOrder, specs, records, gs) && i < |gs| && plan.deleteOrder == Reverse(plan.insertOrder)
    requires forall n | n in specs :: specs[n].recordType == n
    ensures gs[i].rank < |plan.deleteOrder| && plan.deleteOrder[gs[i].rank] == gs[i].spec.recordType
  {
    var order := plan.insertOrder;
    assert order[i] in specs && gs[i] == Group(specs[order[i]], |order| - 1 - i, records[order[i]]);
    ReverseAt(order, i);
  }

  // ---- the result -------------------------------------------------------------------------------

  /** What the answer to a create call says. */
  ghost predicate ResultOf(w: GenerationWrite, result: Generation, now: int) {
    var c, h := w.request.contract, result.header;
    && result.state == COMMITTED && result.createdAt == now && result.deletedAt == None
    && h.generationId == w.generationId && h.seed == w.request.seed && h.provider == w.provider
    && h.requestDigest == w.request.digest && h.contractDigest == w.request.contractDigest
    && h.dataDigest == w.dataset.dataDigest
    && h.recordCount == w.dataset.recordCount && h.byteCount == w.dataset.byteCount
    && |h.destinations| == |c.records|
    && forall k | 0 <= k < |c.records| ::
         && h.destinations[k].0.schema == c.records[k].destination.schema
         && h.destinations[k].0.table == c.records[k].destination.table
         && h.destinations[k].1 == c.records[k].count
  }

  lemma HeaderSays(w: GenerationWrite, now: int)
    requires WriteOk(w)
    ensures ResultOf(w, Generation(BatchOf(w).header, COMMITTED, now, None), now)
  {
    BatchParts(w);
    CountsFit(w.request.contract, w.dataset.records);
    HeaderParts(w, now);
  }

  ghost predicate CountedAll(specs: seq<RecordSpec>, records: Records) {
    forall r | r in specs :: r.recordType in records && |records[r.recordType]| == r.count
  }

  lemma CountsFit(c: Contract, records: Records)
    requires RecordsFit(c, records)
    ensures CountedAll(c.records, records)
  {
    RecordTypesPresent(c, records);
  }

  lemma HeaderParts(w: GenerationWrite, now: int)
    requires CountedAll(w.request.contract.records, w.dataset.records)
    ensures ResultOf(w, Generation(HeaderOf(w), COMMITTED, now, None), now)
  {
    var specs := w.request.contract.records;
    forall k | 0 <= k < |specs|
      ensures |w.dataset.records[specs[k].recordType]| == specs[k].count
    {
      assert specs[k] in specs;
    }
  }

  /** The tenant's part of every table is as before, with the dataset's rows of that table at its end. */
  ghost predicate Appended(c: Contract, records: Records, before: Rows, after: Rows, t: Tenant) {
    && (forall spec | spec in c.records :: spec.recordType in records && AppendedAt(
          spec.destination, records[spec.recordType], before, after, t, Table(spec.destination)))
    && (forall id | (forall spec | spec in c.records :: Table(spec.destination) != id) ::
          At(after, t, id) == At(before, t, id))
    && (forall u, id | u != t :: At(after, u, id) == At(before, u, id))
  }

  ghost predicate AppendedAt(
    d: DestinationSpec, generated: seq<Row>, before: Rows, after: Rows, t: Tenant, id: TableId)
  {
    exists rows: seq<Row> :: At(after, t, id) == At(before, t, id) + rows && AllMapped(d, generated, rows)
  }

  /**
   * A commit that writes leaves exactly the dataset: each record type's rows, field by column and in
   * order, at the end of its table, nothing anywhere else; the columns have the fields' types; and the
   * result says what was asked for and what was written where.
   */
  lemma CommitWritesDataset(cat: Catalog, db: Db, t: Tenant, key: string, w: GenerationWrite, now: int)
    requires Tracked(db) && WriteOk(w) && OwnTables(w.request.contract)
    requires Store.Writes(cat, db, t, key, BatchOf(w))
    ensures var (after, reply) := CommitNext(cat, db, t, key, BatchOf(w), now);
      && reply.Committed? && !reply.replayed && ResultOf(w, reply.result, now)
      && Appended(w.request.contract, w.dataset.records, db.rows, after.rows, t)
    ensures forall spec | spec in w.request.contract.records :: ColumnsTyped(cat, spec)
  {
    var c, records := w.request.contract, w.dataset.records;
    BatchParts(w);
    HeaderSays(w, now);
    CommitWritesOrNot(cat, db, t, key, BatchOf(w), now);
    forall spec | spec in c.records ensures ColumnsTyped(cat, spec) {
      TypesOfType(cat, db.rows, t, c, records, spec);
    }
    StagedIsAppended(cat, db.rows, t, c, records);
  }

  lemma StagedIsAppended(cat: Catalog, rows: Rows, t: Tenant, c: Contract, records: Records)
    requires ContractOk(c) && RecordsFit(c, records) && OwnTables(c)
    requires StageAll(cat, rows, t, AllInsertions(c, records)).Ok?
    ensures Appended(c, records, rows, StageAll(cat, rows, t, AllInsertions(c, records)).value, t)
  {
    var all := AllInsertions(c, records);
    StagedExactly(cat, rows, t, all);
    forall spec | spec in c.records
      ensures spec.recordType in records && AllMapped(
        spec.destination, records[spec.recordType], RowsFor(all, Table(spec.destination)))
    {
      RowsOfType(c, records, spec);
    }
    forall id | (forall spec | spec in c.records :: Table(spec.destination) != id) ensures RowsFor(all, id) == [] {
      RowsOfNone(c, records, id);
    }
    HeldIsAppended(StageAll(cat, rows, t, all).value, rows, t, c, records, all);
  }

  lemma HeldIsAppended(after: Rows, rows: Rows, t: Tenant, c: Contract, records: Records, all: seq<Insertion>)
    requires Holds(after, rows, t, all)
    requires forall spec | spec in c.records :: spec.recordType in records && AllMapped(
      spec.destination, records[spec.recordType], RowsFor(all, Table(spec.destination)))
    requires forall id | (forall spec | spec in c.records :: Table(spec.destination) != id) :: RowsFor(all, id) == []
    ensures Appended(c, records, rows, after, t)
  {
    forall spec | spec in c.records
      ensures AppendedAt(spec.destination, records[spec.recordType], rows, after, t, Table(spec.destination))
    {
      assert At(after, t, Table(spec.destination)) ==
             At(rows, t, Table(spec.destination)) + RowsFor(all, Table(spec.destination));
    }
  }
}
