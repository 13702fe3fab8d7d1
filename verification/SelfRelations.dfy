// Relations of a record type to itself: what the generator makes of them, and where the repositories part.
module SelfRelations {
  import opened Values
  import opened Contracts
  import opened Store
  import opened Writes
  import opened Dataset
  import opened Provider
  import opened RulesCompared
  import opened EndToEnd

  // ---- the generator ------------------------------------------------------------------------

  /** The pass gives row i of n the target of row i mod n of the same n rows: its own. */
  lemma RelateSelf(records: Records, r: RelationSpec)
    requires r.sourceType in records && r.targetType == r.sourceType && records[r.targetType] != []
    ensures Held(Relate(records, r), Source(r)) == Held(Relate(records, r), Target(r))
  {
    RelateColumns(records, r, Source(r));
    RelateColumns(records, r, Target(r));
    var targets, filled := Held(records, Target(r)), Held(Relate(records, r), Source(r));
    forall i | 0 <= i < |filled| ensures filled[i] == targets[i] {
      assert i % |targets| == i;
    }
  }

  /** And no later relation of a layered contract touches the two columns again. */
  lemma {:induction false} PassLeavesSelfInPlace(records: Records, relations: seq<RelationSpec>, r: RelationSpec)
    requires Populated(records, relations) && Layered(relations) && r in relations && r.targetType == r.sourceType
    ensures Held(Pass(records, relations), Source(r)) == Held(Pass(records, relations), Target(r))
    decreases |relations|
  {
    var n := |relations| - 1;
    var last, before := relations[n], relations[..n];
    assert last in relations && forall q | q in before :: q in relations;
    var earlier := Pass(records, before);
    if r == last {
      RelateSelf(earlier, r);
    } else {
      var i :| 0 <= i < |relations| && relations[i] == r;
      assert before[i] == r && Source(last) != Source(r) && Source(last) != Target(r);
      PassLeavesSelfInPlace(records, before, r);
      RelateColumns(earlier, last, Source(r));
      RelateColumns(earlier, last, Target(r));
    }
  }

  /** So in a generated dataset every row of a self-relation refers to itself. */
  lemma GeneratedInPlace(c: Contract, draw: Draw)
    requires ContractOk(c) && Layered(c.relations)
    ensures Populated(BaseRecords(c, draw), c.relations)
    ensures SelfRelationsInPlace(c, Pass(BaseRecords(c, draw), c.relations))
  {
    BaseShape(c, draw);
    var records := Pass(BaseRecords(c, draw), c.relations);
    forall r, j: nat | r in c.relations && r.sourceType == r.targetType && r.sourceType in records
        && j < |records[r.sourceType]|
      ensures OwnReference(records[r.sourceType][j], r)
    {
      PassLeavesSelfInPlace(BaseRecords(c, draw), c.relations, r);
      assert Held(records, Source(r))[j] == Held(records, Target(r))[j];
    }
  }

  // ---- the repositories -----------------------------------------------------------------------

  /** No row there already carries the target value of one of the record type's rows. */
  ghost predicate TargetNotThere(rows: Rows, t: Tenant, x: Insertion, fk: ForeignKey) {
    forall item | item in At(rows, t, x.table) :: !Refers(fk, x.row, item)
  }

  lemma TargetIsUnique(c: Contract, spec: RecordSpec, fk: ForeignKey, r: RelationSpec)
    requires ContractOk(c) && spec in c.records && Declares(c, spec, fk, r, spec)
    ensures HasUniqueField(spec, fk.targetColumns)
  {
    CleanIsResolvable(c);
    ListedIn(c, spec);
    assert RelationFault(RecordMap(c.records), r) == None;
    assert fk.targetColumns[0] == spec.destination.columns[r.targetField];
  }

  /** A staged row that carries the target value, and was not there before, is an earlier insertion. */
  lemma EarlierTarget(
    cat: Catalog, rows: Rows, t: Tenant, all: seq<Insertion>, k: nat, staged: Rows, fk: ForeignKey) returns (m: nat)
    requires k < |all| && StageAll(cat, rows, t, all[..k]) == Ok(staged)
    requires TargetNotThere(rows, t, all[k], fk) && !TargetNotThere(staged, t, all[k], fk)
    ensures m < k && all[m].table == all[k].table && Refers(fk, all[k].row, all[m].row)
  {
    StagedRows(cat, rows, t, all[..k], t, all[k].table);
    var item :| item in At(staged, t, all[k].table) && Refers(fk, all[k].row, item);
    assert item !in At(rows, t, all[k].table);
    m := RowsForFrom(all[..k], all[k].table, item);
  }

  /** No row of the type that was staged before carries the row's own target value. */
  lemma NoEarlierTarget(
    cat: Catalog, rows: Rows, t: Tenant, c: Contract, records: Records, fmt: Formats, k: nat, staged: Rows,
    spec: RecordSpec, fk: ForeignKey)
    requires ContractOk(c) && Accepts(c, records, fmt) && RecordsFit(c, records) && OwnTables(c)
    requires k < |AllInsertions(c, records)| && StageAll(cat, rows, t, AllInsertions(c, records)[..k]) == Ok(staged)
    requires spec in c.records && HasUniqueField(spec, fk.targetColumns)
    requires var x := AllInsertions(c, records)[k];
      && x.table == Table(spec.destination) && Refers(fk, x.row, x.row) && CNull !in Tuple(x.row, fk.columns)
      && TargetNotThere(rows, t, x, fk)
    ensures TargetNotThere(staged, t, AllInsertions(c, records)[k], fk)
  {
    var all := AllInsertions(c, records);
    if !TargetNotThere(staged, t, all[k], fk) {
      var m := EarlierTarget(cat, rows, t, all, k, staged, fk);
      OthersDiffer(c, records, fmt, m, k, fk.targetColumns);
    }
  }

  lemma OwnReferenceRefers(c: Contract, spec: RecordSpec, rank: nat, row: Row, fk: ForeignKey, r: RelationSpec)
    requires spec in c.records && RowFits(spec, row) && Declares(c, spec, fk, r, spec)
    requires OwnReference(row, r) && !Get(row, r.sourceField).Null?
    ensures var x := InsertionOf(spec, rank, row);
      fk.target == x.table && Refers(fk, x.row, x.row) && CNull !in Tuple(x.row, fk.columns)
  {
    ColumnTuple(spec, rank, row, r.sourceField);
    ColumnTuple(spec, rank, row, r.targetField);
  }

  lemma LeansBecause(cat: Catalog, rows: Rows, t: Tenant, x: Insertion, fk: ForeignKey)
    requires x.table in cat.tables && fk in cat.tables[x.table].foreignKeys && fk.target == x.table
    requires Refers(fk, x.row, x.row) && CNull !in Tuple(x.row, fk.columns) && TargetNotThere(rows, t, x, fk)
    ensures Leans(cat, rows, t, x)
  {
    assert LeansOn(rows, t, x, fk);
  }

  /** A row whose self-relation is mapped to a foreign key leans on itself when it comes in. */
  lemma SelfRelationLeans(
    cat: Catalog, rows: Rows, t: Tenant, c: Contract, records: Records, fmt: Formats, k: nat, staged: Rows,
    spec: RecordSpec, rank: nat, row: Row, fk: ForeignKey, r: RelationSpec)
    requires ContractOk(c) && Accepts(c, records, fmt) && RecordsFit(c, records) && OwnTables(c)
    requires spec in c.records && RowFits(spec, row) && k < |AllInsertions(c, records)|
    requires AllInsertions(c, records)[k] == InsertionOf(spec, rank, row)
    requires Declares(c, spec, fk, r, spec) && r.targetType == r.sourceType
    requires OwnReference(row, r) && !Get(row, r.sourceField).Null?
    requires var x := AllInsertions(c, records)[k];
      x.table in cat.tables && fk in cat.tables[x.table].foreignKeys && TargetNotThere(rows, t, x, fk)
    requires StageAll(InSql(cat), rows, t, AllInsertions(c, records)[..k]) == Ok(staged)
    ensures Leans(cat, staged, t, AllInsertions(c, records)[k])
  {
    OwnReferenceRefers(c, spec, rank, row, fk, r);
    TargetIsUnique(c, spec, fk, r);
    NoEarlierTarget(InSql(cat), rows, t, c, records, fmt, k, staged, spec, fk);
    LeansBecause(cat, staged, t, AllInsertions(c, records)[k], fk);
  }

  /**
   * Where a self-relation is mapped to a foreign key, a dataset that refers to itself row by row, as
   * generated ones do, and that the database takes, is refused by the in-memory store: unless its
   * source is null, or the row's target value is in the table already.
   */
  lemma SelfRelationPartsTheStores(
    cat: Catalog, rows: Rows, t: Tenant, c: Contract, records: Records, fmt: Formats, k: nat,
    spec: RecordSpec, rank: nat, row: Row, fk: ForeignKey, r: RelationSpec)
    requires ContractOk(c) && Accepts(c, records, fmt) && RecordsFit(c, records) && OwnTables(c)
    requires spec in c.records && RowFits(spec, row) && k < |AllInsertions(c, records)|
    requires AllInsertions(c, records)[k] == InsertionOf(spec, rank, row)
    requires Declares(c, spec, fk, r, spec) && r.targetType == r.sourceType
    requires OwnReference(row, r) && !Get(row, r.sourceField).Null?
    requires var x := AllInsertions(c, records)[k];
      x.table in cat.tables && fk in cat.tables[x.table].foreignKeys && TargetNotThere(rows, t, x, fk)
    requires StageAll(InSql(cat), rows, t, AllInsertions(c, records)).Ok?
    ensures StageAll(InMemory(cat), rows, t, AllInsertions(c, records)) == Err(DestinationConflict)
  {
    var all := AllInsertions(c, records);
    StagePrefix(InSql(cat), rows, t, all, k);
    var staged := StageAll(InSql(cat), rows, t, all[..k]).value;
    SelfRelationLeans(cat, rows, t, c, records, fmt, k, staged, spec, rank, row, fk, r);
    LeansSomewhere(cat, rows, t, all, k);
    StagingsCompared(cat, rows, t, all);
  }
}
