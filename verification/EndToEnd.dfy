// From an accepted dataset to the store: references are met, and the whole generation can be undone.
module EndToEnd {
  import opened Values
  import opened Contracts
  import opened Planning
  import opened Store
  import opened Integrity
  import opened Undo
  import opened Writes
  import opened Dataset

  /** A relation mapped to exactly the columns of the foreign key. */
  ghost predicate Declares(c: Contract, child: RecordSpec, fk: ForeignKey, r: RelationSpec, parent: RecordSpec) {
    && r in c.relations && r.sourceType == child.recordType
    && parent in c.records && parent.recordType == r.targetType
    && r.sourceField in child.destination.columns && r.targetField in parent.destination.columns
    && fk.columns == [child.destination.columns[r.sourceField]]
    && fk.target == Table(parent.destination)
    && fk.targetColumns == [parent.destination.columns[r.targetField]]
  }

  /** The in-memory store cannot meet a relation of a record type to itself: it looks before it appends. */
  ghost predicate Declared(cat: Catalog, c: Contract, child: RecordSpec, fk: ForeignKey) {
    exists r, parent :: Declares(c, child, fk, r, parent) && (cat.rules.InStore? ==> r.targetType != r.sourceType)
  }

  /** Every foreign key of every written table is declared as a relation. */
  ghost predicate AllDeclared(cat: Catalog, c: Contract) {
    forall spec, fk | spec in c.records && Table(spec.destination) in cat.tables
        && fk in cat.tables[Table(spec.destination)].foreignKeys :: Declared(cat, c, spec, fk)
  }

  /** A row refers to itself, or to nothing. */
  ghost predicate OwnReference(row: Row, r: RelationSpec) {
    Get(row, r.sourceField).Null? || Canon(Get(row, r.sourceField)) == Canon(Get(row, r.targetField))
  }

  /** In every relation of a record type to itself each row refers to itself, as the generator's pass leaves it. */
  ghost predicate SelfRelationsInPlace(c: Contract, records: Records) {
    forall r, j: nat | r in c.relations && r.sourceType == r.targetType && r.sourceType in records
        && j < |records[r.sourceType]| :: OwnReference(records[r.sourceType][j], r)
  }

  // ---- where things stand in the insertion order -------------------------------------

  lemma ListedIn(c: Contract, spec: RecordSpec)
    requires ContractOk(c) && spec in c.records
    ensures spec.recordType in Names(c)
    ensures spec.recordType in RecordMap(c.records) && RecordMap(c.records)[spec.recordType] == spec
  {
    var k :| 0 <= k < |c.records| && c.records[k] == spec;
    assert Names(c)[k] == spec.recordType;
    RecordMapAt(c, k);
  }

  lemma PlannedAt(c: Contract, name: string) returns (i: nat)
    requires ContractOk(c) && name in Names(c)
    ensures Resolvable(c) && i < |InsertOrder(c)| && InsertOrder(c)[i] == name
  {
    ContractPlanned(c);
    assert name in Elems(InsertOrder(c));
    i :| 0 <= i < |InsertOrder(c)| && InsertOrder(c)[i] == name;
  }

  /** The group of a record type in the plan. */
  lemma GroupOf(c: Contract, records: Records, spec: RecordSpec) returns (i: nat)
    requires ContractOk(c) && RecordsFit(c, records) && spec in c.records
    ensures i < |AllGroups(c, records)| && Resolvable(c) && i < |InsertOrder(c)|
    ensures InsertOrder(c)[i] == spec.recordType && AllGroups(c, records)[i].spec == spec
    ensures spec.recordType in records && AllGroups(c, records)[i].rows == records[spec.recordType]
  {
    ListedIn(c, spec);
    i := PlannedAt(c, spec.recordType);
    PlanOrdered(c, records);
    GroupAt(c, records, InsertOrder(c), i);
  }

  lemma GroupSpec(c: Contract, records: Records, i: nat)
    requires ContractOk(c) && RecordsFit(c, records) && i < |AllGroups(c, records)|
    ensures Resolvable(c) && i < |InsertOrder(c)|
    ensures var g := AllGroups(c, records)[i];
      && g.spec in c.records && RecordOk(g.spec) && g.spec.recordType == InsertOrder(c)[i]
      && g.spec.recordType in records && g.rows == records[g.spec.recordType]
  {
    PlanOrdered(c, records);
    GroupAt(c, records, InsertOrder(c), i);
  }

  /** A parent's rows are all inserted before any row of a child. */
  lemma ParentGroupFirst(c: Contract, records: Records, r: RelationSpec, child: nat, parent: nat)
    requires ContractOk(c) && RecordsFit(c, records) && Resolvable(c)
    requires r in c.relations && r.sourceType != r.targetType
    requires child < |InsertOrder(c)| && InsertOrder(c)[child] == r.sourceType
    requires parent < |InsertOrder(c)| && InsertOrder(c)[parent] == r.targetType
    ensures parent < child
  {
    ContractPlanned(c);
    ParentsFirst(c, PlanOf(c).value, r, child, parent);
  }

  lemma {:induction false} FlattenOrder(gs: seq<Group>, a: nat, b: nat)
    requires GroupsOk(gs) && a < b <= |gs|
    ensures GroupsOk(gs[..a]) && GroupsOk(gs[..b])
    ensures |Flatten(gs[..a])| + |gs[a].rows| <= |Flatten(gs[..b])|
  {
    FlattenSpan(gs[..b], a);
    assert gs[..b][..a] == gs[..a] && gs[..b][..a + 1] == gs[..a + 1];
  }

  // ---- foreign keys --------------------------------------------------------------------

  /** The value a relation promises: a parent row with an equal target value, unless the source is null. */
  lemma PromisedTarget(c: Contract, records: Records, fmt: Formats, r: RelationSpec, j: nat) returns (k: nat)
    requires Accepts(c, records, fmt) && r in c.relations
    requires r.sourceType in records && r.targetType in records && j < |records[r.sourceType]|
    requires !Get(records[r.sourceType][j], r.sourceField).Null?
    ensures k < |records[r.targetType]|
    ensures Canon(Get(records[r.targetType][k], r.targetField)) == Canon(Get(records[r.sourceType][j], r.sourceField))
  {
    assert Holds(records, r);
    var v := Canon(Get(records[r.sourceType][j], r.sourceField));
    assert v in Targets(records[r.targetType], r.targetField);
    var row :| row in records[r.targetType] && Canon(Get(row, r.targetField)) == v;
    k :| 0 <= k < |records[r.targetType]| && records[r.targetType][k] == row;
  }

  lemma ColumnTuple(spec: RecordSpec, rank: nat, generated: Row, field: string)
    requires RowFits(spec, generated) && field in spec.destination.columns
    ensures Tuple(InsertionOf(spec, rank, generated).row, [spec.destination.columns[field]]) ==
            [Canon(Get(generated, field))]
  {
    DatabaseRowAt(spec.destination, generated, field);
  }

  lemma StagedHas(cat: Catalog, rows: Rows, t: Tenant, all: seq<Insertion>, k: nat, m: nat, staged: Rows)
    requires m < k <= |all| && StageAll(cat, rows, t, all[..k]) == Ok(staged)
    ensures all[m].row in At(staged, t, all[m].table)
  {
    assert all[..k][m] == all[m];
    RowsForHas(all[..k], m);
    StagedRows(cat, rows, t, all[..k], t, all[m].table);
  }

  /** Some earlier insertion, into the table the foreign key names, carries the referenced value. */
  lemma TargetInserted(
    c: Contract, records: Records, fmt: Formats, i: nat, j: nat, fk: ForeignKey, r: RelationSpec, parent: RecordSpec)
      returns (m: nat)
    requires ContractOk(c) && Accepts(c, records, fmt) && RecordsFit(c, records)
    requires i < |AllGroups(c, records)| && j < |AllGroups(c, records)[i].rows|
    requires Declares(c, AllGroups(c, records)[i].spec, fk, r, parent) && r.targetType != r.sourceType
    requires !Get(AllGroups(c, records)[i].rows[j], r.sourceField).Null?
    ensures GroupsOk(AllGroups(c, records)[..i])
    ensures m < |Flatten(AllGroups(c, records)[..i])| && m < |AllInsertions(c, records)|
    ensures AllInsertions(c, records)[m].table == fk.target
    ensures Tuple(AllInsertions(c, records)[m].row, fk.targetColumns) ==
            [Canon(Get(AllGroups(c, records)[i].rows[j], r.sourceField))]
  {
    var p, q := ParentRow(c, records, fmt, i, j, fk, r, parent);
    m := InsertedBefore(AllGroups(c, records), i, p, q, r.targetField);
  }

  /** What one group's row contributes to its table, column by column. */
  lemma FlattenColumn(gs: seq<Group>, p: nat, q: nat, f: string)
    requires GroupsOk(gs) && p < |gs| && q < |gs[p].rows| && f in gs[p].spec.destination.columns
    ensures GroupsOk(gs[..p]) && |Flatten(gs[..p])| + q < |Flatten(gs)|
    ensures Flatten(gs)[|Flatten(gs[..p])| + q].table == Table(gs[p].spec.destination)
    ensures Tuple(Flatten(gs)[|Flatten(gs[..p])| + q].row, [gs[p].spec.destination.columns[f]]) ==
            [Canon(Get(gs[p].rows[q], f))]
  {
    FlattenAt(gs, p, q);
    ColumnTuple(gs[p].spec, gs[p].rank, gs[p].rows[q], f);
  }

  /** A row of an earlier group is inserted before any row of a later one. */
  lemma InsertedBefore(gs: seq<Group>, i: nat, p: nat, q: nat, f: string) returns (m: nat)
    requires GroupsOk(gs) && p < i < |gs| && q < |gs[p].rows| && f in gs[p].spec.destination.columns
    ensures GroupsOk(gs[..i]) && m < |Flatten(gs[..i])| && m < |Flatten(gs)|
    ensures Flatten(gs)[m].table == Table(gs[p].spec.destination)
    ensures Tuple(Flatten(gs)[m].row, [gs[p].spec.destination.columns[f]]) == [Canon(Get(gs[p].rows[q], f))]
  {
    m := |Flatten(gs[..p])| + q;
    FlattenColumn(gs, p, q, f);
    assert m < |Flatten(gs[..i])| by { FlattenOrder(gs, p, i); }
  }

  lemma ParentRow(
    c: Contract, records: Records, fmt: Formats, i: nat, j: nat, fk: ForeignKey, r: RelationSpec, parent: RecordSpec)
      returns (p: nat, q: nat)
    requires ContractOk(c) && Accepts(c, records, fmt) && RecordsFit(c, records)
    requires i < |AllGroups(c, records)| && j < |AllGroups(c, records)[i].rows|
    requires Declares(c, AllGroups(c, records)[i].spec, fk, r, parent) && r.targetType != r.sourceType
    requires !Get(AllGroups(c, records)[i].rows[j], r.sourceField).Null?
    ensures p < i && AllGroups(c, records)[p].spec == parent && q < |AllGroups(c, records)[p].rows|
    ensures Canon(Get(AllGroups(c, records)[p].rows[q], r.targetField)) ==
            Canon(Get(AllGroups(c, records)[i].rows[j], r.sourceField))
  {
    GroupSpec(c, records, i);
    p := GroupOf(c, records, parent);
    q := PromisedTarget(c, records, fmt, r, j);
    ParentGroupFirst(c, records, r, i, p);
  }

  /** One declared foreign key of one row is met by the rows staged before it. */
  lemma DeclaredKeyMet(
    cat: Catalog, rows: Rows, t: Tenant, c: Contract, records: Records, fmt: Formats,
    i: nat, j: nat, k: nat, fk: ForeignKey, r: RelationSpec, parent: RecordSpec, staged: Rows)
    requires ContractOk(c) && Accepts(c, records, fmt) && RecordsFit(c, records)
    requires i < |AllGroups(c, records)| && j < |AllGroups(c, records)[i].rows|
    requires Declares(c, AllGroups(c, records)[i].spec, fk, r, parent) && r.targetType != r.sourceType
    requires GroupsOk(AllGroups(c, records)[..i]) && k == |Flatten(AllGroups(c, records)[..i])| + j
    requires k < |AllInsertions(c, records)| && StageAll(cat, rows, t, AllInsertions(c, records)[..k]) == Ok(staged)
    ensures Satisfied(cat, staged, t, AllInsertions(c, records)[k].row, fk)
  {
    var g, all := AllGroups(c, records)[i], AllInsertions(c, records);
    FlattenAt(AllGroups(c, records), i, j);
    ColumnTuple(g.spec, g.rank, g.rows[j], r.sourceField);
    var value := Get(g.rows[j], r.sourceField);
    assert Tuple(all[k].row, fk.columns) == [Canon(value)];
    if value.Null? {
      assert [Canon(value)][0] == CNull;
    } else {
      var m := TargetInserted(c, records, fmt, i, j, fk, r, parent);
      StagedHas(cat, rows, t, all, k, m, staged);
      assert all[m].row in At(staged, t, fk.target);
      assert Shares(cat, t, t) && Meets(staged, t, all[k].row, fk);
    }
  }

  /** A row that refers to itself meets its own reference once it is in. */
  lemma OwnKeyMet(
    cat: Catalog, rows: Rows, t: Tenant, c: Contract, spec: RecordSpec, rank: nat, generated: Row, fk: ForeignKey,
    r: RelationSpec, parent: RecordSpec)
    requires ContractOk(c) && spec in c.records && RowFits(spec, generated)
    requires Declares(c, spec, fk, r, parent) && r.targetType == r.sourceType && OwnReference(generated, r)
    ensures parent == spec
    ensures var x := InsertionOf(spec, rank, generated);
      && Satisfied(cat, Put(rows, t, x), t, x.row, fk)
      && (CNull !in Tuple(x.row, fk.columns) ==> Refers(fk, x.row, x.row))
  {
    ListedIn(c, spec);
    ListedIn(c, parent);
    var x := InsertionOf(spec, rank, generated);
    ColumnTuple(spec, rank, generated, r.sourceField);
    ColumnTuple(spec, rank, generated, r.targetField);
    assert At(Put(rows, t, x), t, x.table)[|At(rows, t, x.table)|] == x.row;
    if Get(generated, r.sourceField).Null? {
      assert Tuple(x.row, fk.columns)[0] == CNull;
    } else {
      assert Shares(cat, t, t) && Meets(Put(rows, t, x), t, x.row, fk);
    }
  }

  /** One declared foreign key, whichever kind of relation declares it. */
  lemma EitherKeyMet(
    cat: Catalog, rows: Rows, t: Tenant, c: Contract, records: Records, fmt: Formats,
    i: nat, j: nat, k: nat, fk: ForeignKey, staged: Rows)
    requires ContractOk(c) && Accepts(c, records, fmt) && RecordsFit(c, records)
    requires i < |AllGroups(c, records)| && j < |AllGroups(c, records)[i].rows|
    requires Declared(cat, c, AllGroups(c, records)[i].spec, fk)
    requires cat.rules.InDatabase? ==> SelfRelationsInPlace(c, records)
    requires GroupsOk(AllGroups(c, records)[..i]) && k == |Flatten(AllGroups(c, records)[..i])| + j
    requires k < |AllInsertions(c, records)| && StageAll(cat, rows, t, AllInsertions(c, records)[..k]) == Ok(staged)
    ensures Satisfied(
              cat, Seen(cat, staged, t, AllInsertions(c, records)[k]), t, AllInsertions(c, records)[k].row, fk)
  {
    var spec := AllGroups(c, records)[i].spec;
    var r, parent :| Declares(c, spec, fk, r, parent) && (cat.rules.InStore? ==> r.targetType != r.sourceType);
    if r.targetType != r.sourceType {
      var x := AllInsertions(c, records)[k];
      DeclaredKeyMet(cat, rows, t, c, records, fmt, i, j, k, fk, r, parent, staged);
      GrownStillSatisfied(cat, staged, t, x, t, x.row, fk);
    } else {
      SelfKeyMet(cat, staged, t, c, records, i, j, k, fk, r, parent);
    }
  }

  lemma SelfKeyMet(
    cat: Catalog, rows: Rows, t: Tenant, c: Contract, records: Records, i: nat, j: nat, k: nat, fk: ForeignKey,
    r: RelationSpec, parent: RecordSpec)
    requires ContractOk(c) && RecordsFit(c, records) && SelfRelationsInPlace(c, records)
    requires i < |AllGroups(c, records)| && j < |AllGroups(c, records)[i].rows|
    requires Declares(c, AllGroups(c, records)[i].spec, fk, r, parent) && r.targetType == r.sourceType
    requires GroupsOk(AllGroups(c, records)[..i]) && k == |Flatten(AllGroups(c, records)[..i])| + j
    requires k < |AllInsertions(c, records)|
    ensures var x := AllInsertions(c, records)[k]; Satisfied(cat, Put(rows, t, x), t, x.row, fk)
  {
    var g := AllGroups(c, records)[i];
    GroupRow(c, records, i, j, k);
    assert OwnReference(records[r.sourceType][j], r);
    OwnKeyMet(cat, rows, t, c, g.spec, g.rank, g.rows[j], fk, r, parent);
  }

  /** The row behind an insertion. */
  lemma GroupRow(c: Contract, records: Records, i: nat, j: nat, k: nat)
    requires ContractOk(c) && RecordsFit(c, records)
    requires i < |AllGroups(c, records)| && j < |AllGroups(c, records)[i].rows|
    requires GroupsOk(AllGroups(c, records)[..i]) && k == |Flatten(AllGroups(c, records)[..i])| + j
    ensures var g := AllGroups(c, records)[i];
      && g.spec in c.records && RowFits(g.spec, g.rows[j])
      && g.spec.recordType in records && g.rows == records[g.spec.recordType]
      && k < |AllInsertions(c, records)| && AllInsertions(c, records)[k] == InsertionOf(g.spec, g.rank, g.rows[j])
  {
    InsertionAt(AllGroups(c, records), i, j, k);
    GroupSpec(c, records, i);
  }

  /**
   * For any accepted dataset, and whatever rows are there before: when the foreign keys of the
   * written tables are declared as relations, the foreign-key check of the commit never fires.
   */
  lemma ReferencesAlwaysMet(
    cat: Catalog, rows: Rows, t: Tenant, c: Contract, records: Records, fmt: Formats, k: nat, staged: Rows)
    requires ContractOk(c) && Accepts(c, records, fmt) && AllDeclared(cat, c)
    requires cat.rules.InDatabase? ==> SelfRelationsInPlace(c, records)
    requires RecordsFit(c, records)
    requires k < |AllInsertions(c, records)| && AllInsertions(c, records)[k].table in cat.tables
    requires StageAll(cat, rows, t, AllInsertions(c, records)[..k]) == Ok(staged)
    ensures var x := AllInsertions(c, records)[k];
      ForeignKeysMet(cat, cat.tables[x.table], Seen(cat, staged, t, x), t, x.row)
  {
    var all := AllInsertions(c, records);
    var i, j := WriteStage(c, records, k);
    FlattenAt(AllGroups(c, records), i, j);
    GroupSpec(c, records, i);
    forall fk | fk in cat.tables[all[k].table].foreignKeys
      ensures Satisfied(cat, Seen(cat, staged, t, all[k]), t, all[k].row, fk)
    {
      assert Declared(cat, c, AllGroups(c, records)[i].spec, fk);
      EitherKeyMet(cat, rows, t, c, records, fmt, i, j, k, fk, staged);
    }
  }

  /** Where an insertion comes from. */
  lemma WriteStage(c: Contract, records: Records, k: nat) returns (i: nat, j: nat)
    requires ContractOk(c) && RecordsFit(c, records) && k < |AllInsertions(c, records)|
    ensures i < |AllGroups(c, records)| && j < |AllGroups(c, records)[i].rows|
    ensures GroupsOk(AllGroups(c, records)[..i]) && k == |Flatten(AllGroups(c, records)[..i])| + j
  {
    i, j := Origin(AllGroups(c, records), k);
  }

  // ---- every accepted dataset commits -------------------------------------------------------------

  /**
   * The table exists, needs no column that is not written, and has the declared types.  In the
   * database the columns it needs are filled from fields that are never null.
   */
  ghost predicate TableFits(cat: Catalog, spec: RecordSpec) {
    && Table(spec.destination) in cat.tables
    && (cat.rules.InDatabase? ==>
          forall col | col in cat.tables[Table(spec.destination)].required :: FromRequiredField(spec, col))
    && cat.tables[Table(spec.destination)].required <= spec.destination.columns.Values
    && forall f | f in spec.destination.columns && f in spec.fields ::
         var col := spec.destination.columns[f];
         col in cat.tables[Table(spec.destination)].columns
         && cat.tables[Table(spec.destination)].columns[col] == spec.fields[f].kind
  }

  /** Every unique key of the table has a column that is filled from a unique field. */
  ghost predicate KeysFromUniqueFields(cat: Catalog, spec: RecordSpec) {
    Table(spec.destination) in cat.tables ==>
      forall u | u in cat.tables[Table(spec.destination)].uniqueKeys :: HasUniqueField(spec, u)
  }

  ghost predicate HasUniqueField(spec: RecordSpec, u: seq<string>) {
    exists f :: f in spec.destination.columns && f in spec.fields && spec.fields[f].unique
      && spec.destination.columns[f] in u
  }

  /** No two record types write the same table. */
  ghost predicate OwnTables(c: Contract) {
    forall a, b | a in c.records && b in c.records && Table(a.destination) == Table(b.destination) :: a == b
  }

  /** No row that is already there, in the database of whichever tenant, carries a unique key of a new row. */
  ghost predicate Unoccupied(cat: Catalog, rows: Rows, t: Tenant, all: seq<Insertion>) {
    forall x | x in all && x.table in cat.tables :: !Clashes(cat, cat.tables[x.table], rows, t, x.table, x.row)
  }

  /** The group and row of an insertion, and its table. */
  lemma OriginTable(gs: seq<Group>, k: nat) returns (i: nat, j: nat)
    requires GroupsOk(gs) && k < |Flatten(gs)|
    ensures i < |gs| && j < |gs[i].rows| && RowFits(gs[i].spec, gs[i].rows[j])
    ensures GroupsOk(gs[..i]) && k == |Flatten(gs[..i])| + j
    ensures Flatten(gs)[k] == InsertionOf(gs[i].spec, gs[i].rank, gs[i].rows[j])
    ensures Flatten(gs)[k].table == Table(gs[i].spec.destination)
  {
    i, j := Origin(gs, k);
    FlattenAt(gs, i, j);
  }

  /** Two insertions into one table are two rows of one group. */
  lemma SameTableOrigins(c: Contract, records: Records, m: nat, k: nat) returns (i: nat, a: nat, b: nat)
    requires ContractOk(c) && RecordsFit(c, records) && OwnTables(c) && m < k < |AllInsertions(c, records)|
    requires AllInsertions(c, records)[m].table == AllInsertions(c, records)[k].table
    ensures i < |AllGroups(c, records)| && a != b
    ensures var g := AllGroups(c, records)[i];
      && a < |g.rows| && b < |g.rows| && RowFits(g.spec, g.rows[a]) && RowFits(g.spec, g.rows[b])
      && AllInsertions(c, records)[m] == InsertionOf(g.spec, g.rank, g.rows[a])
      && AllInsertions(c, records)[k] == InsertionOf(g.spec, g.rank, g.rows[b])
  {
    var i0;
    i0, a := OriginTable(AllGroups(c, records), m);
    i, b := OriginTable(AllGroups(c, records), k);
    SameGroup(c, records, i0, i);
  }

  lemma SameGroup(c: Contract, records: Records, i: nat, j: nat)
    requires ContractOk(c) && RecordsFit(c, records) && OwnTables(c)
    requires i < |AllGroups(c, records)| && j < |AllGroups(c, records)|
    requires Table(AllGroups(c, records)[i].spec.destination) == Table(AllGroups(c, records)[j].spec.destination)
    ensures i == j
  {
    GroupSpec(c, records, i);
    GroupSpec(c, records, j);
    ContractPlanned(c);
  }

  /** Different rows of an accepted record type differ in every unique key that has a unique field. */
  lemma UniqueRowsDiffer(spec: RecordSpec, rank: nat, rows: seq<Row>, a: nat, b: nat, fmt: Formats, u: seq<string>)
    requires RowsOk(spec, rows, fmt) && RecordOk(spec) && a < |rows| && b < |rows| && a != b
    requires RowFits(spec, rows[a]) && RowFits(spec, rows[b]) && HasUniqueField(spec, u)
    requires CNull !in Tuple(InsertionOf(spec, rank, rows[b]).row, u)
    ensures Tuple(InsertionOf(spec, rank, rows[a]).row, u) != Tuple(InsertionOf(spec, rank, rows[b]).row, u)
  {
    var f :| f in spec.destination.columns && f in spec.fields && spec.fields[f].unique
      && spec.destination.columns[f] in u;
    var p :| 0 <= p < |u| && u[p] == spec.destination.columns[f];
    var first, second := InsertionOf(spec, rank, rows[a]).row, InsertionOf(spec, rank, rows[b]).row;
    DatabaseRowAt(spec.destination, rows[a], f);
    DatabaseRowAt(spec.destination, rows[b], f);
    assert Tuple(first, u)[p] == Canon(Get(rows[a], f)) && Tuple(second, u)[p] == Canon(Get(rows[b], f));
    assert Tuple(second, u)[p] in Tuple(second, u);
    assert Unique(rows, f);
  }

  /** A conflict with rows that were not there before is one with an earlier insertion. */
  lemma ConflictOrigin(cat: Catalog, rows: Rows, t: Tenant, all: seq<Insertion>, k: nat, staged: Rows)
      returns (u: seq<string>, m: nat)
    requires k < |all| && StageAll(cat, rows, t, all[..k]) == Ok(staged) && all[k].table in cat.tables
    requires Unoccupied(cat, rows, t, all)
    requires Clashes(cat, cat.tables[all[k].table], staged, t, all[k].table, all[k].row)
    ensures m < k && all[m].table == all[k].table && u in cat.tables[all[k].table].uniqueKeys
    ensures CNull !in Tuple(all[k].row, u) && Tuple(all[m].row, u) == Tuple(all[k].row, u)
  {
    var x := all[k];
    assert x in all;
    var v :| Shares(cat, t, v) && Conflicts(cat.tables[x.table], At(staged, v, x.table), x.row);
    StagedRows(cat, rows, t, all[..k], v, x.table);
    assert !Conflicts(cat.tables[x.table], At(rows, v, x.table), x.row);
    u :| u in cat.tables[x.table].uniqueKeys && Taken(At(staged, v, x.table), x.row, u);
    var item :| item in At(staged, v, x.table) && Tuple(item, u) == Tuple(x.row, u);
    assert item in At(rows, v, x.table) ==> Taken(At(rows, v, x.table), x.row, u);
    m := RowsForFrom(all[..k], x.table, item);
  }

  lemma NeverConflicts(
    cat: Catalog, rows: Rows, t: Tenant, c: Contract, records: Records, fmt: Formats, k: nat, staged: Rows)
    requires ContractOk(c) && Accepts(c, records, fmt) && RecordsFit(c, records) && Suits(cat, c)
    requires cat.rules.InDatabase? ==> SelfRelationsInPlace(c, records)
    requires Unoccupied(cat, rows, t, AllInsertions(c, records))
    requires k < |AllInsertions(c, records)| && AllInsertions(c, records)[k].table in cat.tables
    requires StageAll(cat, rows, t, AllInsertions(c, records)[..k]) == Ok(staged)
    ensures var x := AllInsertions(c, records)[k]; !Clashes(cat, cat.tables[x.table], staged, t, x.table, x.row)
  {
    var all := AllInsertions(c, records);
    if Clashes(cat, cat.tables[all[k].table], staged, t, all[k].table, all[k].row) {
      var u, m := ConflictOrigin(cat, rows, t, all, k, staged);
      NoTwoAlike(cat, c, records, fmt, m, k, u);
    }
  }

  lemma NoTwoAlike(cat: Catalog, c: Contract, records: Records, fmt: Formats, m: nat, k: nat, u: seq<string>)
    requires ContractOk(c) && Accepts(c, records, fmt) && RecordsFit(c, records) && Suits(cat, c)
    requires m < k < |AllInsertions(c, records)|
    requires var x := AllInsertions(c, records)[k];
      && AllInsertions(c, records)[m].table == x.table && x.table in cat.tables && u in cat.tables[x.table].uniqueKeys
      && CNull !in Tuple(x.row, u)
    ensures Tuple(AllInsertions(c, records)[m].row, u) != Tuple(AllInsertions(c, records)[k].row, u)
  {
    var id := AllInsertions(c, records)[k].table;
    forall spec | spec in c.records && Table(spec.destination) == id ensures HasUniqueField(spec, u) {
      assert KeysFromUniqueFields(cat, spec);
    }
    OthersDiffer(c, records, fmt, m, k, u);
  }

  /** Two rows of one table differ in any columns that take in a unique field. */
  lemma OthersDiffer(c: Contract, records: Records, fmt: Formats, m: nat, k: nat, u: seq<string>)
    requires ContractOk(c) && Accepts(c, records, fmt) && RecordsFit(c, records) && OwnTables(c)
    requires m < k < |AllInsertions(c, records)|
    requires var x := AllInsertions(c, records)[k];
      && AllInsertions(c, records)[m].table == x.table && CNull !in Tuple(x.row, u)
      && forall spec | spec in c.records && Table(spec.destination) == x.table :: HasUniqueField(spec, u)
    ensures Tuple(AllInsertions(c, records)[m].row, u) != Tuple(AllInsertions(c, records)[k].row, u)
  {
    var i, a, b := SameTableOrigins(c, records, m, k);
    var g := AllGroups(c, records)[i];
    GroupSpec(c, records, i);
    assert RowsOk(g.spec, records[g.spec.recordType], fmt);
    UniqueRowsDiffer(g.spec, g.rank, g.rows, a, b, fmt, u);
  }

  lemma ShapeFits(cat: Catalog, spec: RecordSpec, rank: nat, generated: Row, fmt: Formats)
    requires RowFits(spec, generated) && RowOk(spec, generated, fmt) && TableFits(cat, spec)
    ensures var x := InsertionOf(spec, rank, generated);
      && x.table in cat.tables && Supplied(cat, cat.tables[x.table], x.row)
      && TypesMatch(cat.tables[x.table], x.types)
  {
    var d := spec.destination;
    forall col | col in d.columns.Values ensures col in DatabaseRow(d, generated) {
      var f :| f in d.columns && d.columns[f] == col;
      DatabaseRowAt(d, generated, f);
    }
    if cat.rules.InDatabase? {
      forall col | col in cat.tables[Table(d)].required
        ensures Canon(Get(InsertionOf(spec, rank, generated).row, col)) != CNull
      {
        assert FromRequiredField(spec, col);
        var f :| f in d.columns && d.columns[f] == col && f in spec.fields && !spec.fields[f].nullable;
        RequiredColumnFilled(spec, rank, generated, fmt, f);
      }
    }
  }

  /** The catalog has every table the contract writes, with all its foreign keys declared. */
  ghost predicate Suits(cat: Catalog, c: Contract) {
    && AllDeclared(cat, c) && OwnTables(c)
    && forall spec | spec in c.records :: TableFits(cat, spec) && KeysFromUniqueFields(cat, spec)
  }

  lemma NextIsTaken(
    cat: Catalog, rows: Rows, t: Tenant, c: Contract, records: Records, fmt: Formats, k: nat, staged: Rows)
    requires ContractOk(c) && Accepts(c, records, fmt) && RecordsFit(c, records) && Suits(cat, c)
    requires cat.rules.InDatabase? ==> SelfRelationsInPlace(c, records)
    requires Unoccupied(cat, rows, t, AllInsertions(c, records)) && k < |AllInsertions(c, records)|
    requires StageAll(cat, rows, t, AllInsertions(c, records)[..k]) == Ok(staged)
    ensures Refusal(cat, staged, t, AllInsertions(c, records)[k]) == None
  {
    var spec, rank, row := AcceptedOrigin(c, records, fmt, k);
    ShapeFits(cat, spec, rank, row, fmt);
    ReferencesAlwaysMet(cat, rows, t, c, records, fmt, k, staged);
    NeverConflicts(cat, rows, t, c, records, fmt, k, staged);
  }

  /** A staging that fails does so at some insertion that the rows staged before it refuse. */
  lemma {:induction false} FirstRefused(cat: Catalog, rows: Rows, t: Tenant, all: seq<Insertion>)
      returns (k: nat, staged: Rows)
    requires StageAll(cat, rows, t, all).Err?
    ensures k < |all| && StageAll(cat, rows, t, all[..k]) == Ok(staged)
    ensures Refusal(cat, staged, t, all[k]).Some?
  {
    var n := |all| - 1;
    var before := StageAll(cat, rows, t, all[..n]);
    if before.Err? {
      k, staged := FirstRefused(cat, rows, t, all[..n]);
      assert all[..n][..k] == all[..k];
    } else {
      k, staged := n, before.value;
    }
  }

  /**
   * Liveness: an accepted dataset always commits, when its tables fit, its foreign keys are declared
   * as relations, unique keys draw on unique fields, and no row already there has a new row's key.
   */
  lemma AcceptedDatasetCommits(
    cat: Catalog, rows: Rows, t: Tenant, c: Contract, records: Records, fmt: Formats)
    requires ContractOk(c) && Accepts(c, records, fmt) && RecordsFit(c, records) && Suits(cat, c)
    requires cat.rules.InDatabase? ==> SelfRelationsInPlace(c, records)
    requires Unoccupied(cat, rows, t, AllInsertions(c, records))
    ensures StageAll(cat, rows, t, AllInsertions(c, records)).Ok?
  {
    if StageAll(cat, rows, t, AllInsertions(c, records)).Err? {
      var k, staged := FirstRefused(cat, rows, t, AllInsertions(c, records));
      NextIsTaken(cat, rows, t, c, records, fmt, k, staged);
    }
  }

  // ---- undo -----------------------------------------------------------------------------------

  /** The declared key of a record type covers a unique key of its table. */
  ghost predicate KeyCovers(cat: Catalog, spec: RecordSpec) {
    Table(spec.destination) in cat.tables ==>
      exists u | u in cat.tables[Table(spec.destination)].uniqueKeys :: CoveredBy(spec.destination, u)
  }

  ghost predicate CoveredBy(d: DestinationSpec, u: seq<string>) {
    forall col | col in u :: IsKeyColumn(d, col)
  }

  ghost predicate IsKeyColumn(d: DestinationSpec, col: string) {
    exists f :: f in d.keyFields && f in d.columns && d.columns[f] == col
  }

  /** Columns that foreign keys point at are filled from non-nullable fields. */
  ghost predicate ReferableFieldsRequired(cat: Catalog, spec: RecordSpec) {
    forall source, fk, col | source in cat.tables && fk in cat.tables[source].foreignKeys
        && fk.target == Table(spec.destination) && col in fk.targetColumns ::
      FromRequiredField(spec, col)
  }

  ghost predicate FromRequiredField(spec: RecordSpec, col: string) {
    exists f :: f in spec.destination.columns && spec.destination.columns[f] == col
      && f in spec.fields && !spec.fields[f].nullable
  }

  lemma RequiredColumnFilled(spec: RecordSpec, rank: nat, generated: Row, fmt: Formats, f: string)
    requires RowFits(spec, generated) && RowOk(spec, generated, fmt)
    requires f in spec.destination.columns && f in spec.fields && !spec.fields[f].nullable
    ensures Canon(Get(InsertionOf(spec, rank, generated).row, spec.destination.columns[f])) != CNull
  {
    DatabaseRowAt(spec.destination, generated, f);
    assert ValidValue(Get(generated, f), spec.fields[f], fmt);
  }

  lemma KeyCoversIdentifies(cat: Catalog, spec: RecordSpec, rank: nat, generated: Row, fmt: Formats)
    requires RowFits(spec, generated) && RowOk(spec, generated, fmt)
    requires KeyCovers(cat, spec) && Table(spec.destination) in cat.tables
    ensures KeyIdentifies(cat.tables[Table(spec.destination)], InsertionOf(spec, rank, generated))
  {
    var x, d := InsertionOf(spec, rank, generated), spec.destination;
    var u :| u in cat.tables[x.table].uniqueKeys && CoveredBy(d, u);
    forall i | 0 <= i < |u| ensures Tuple(x.row, u)[i] != CNull && u[i] in x.keyColumns {
      assert IsKeyColumn(d, u[i]);
      var f :| f in d.keyFields && f in d.columns && d.columns[f] == u[i];
      RequiredColumnFilled(spec, rank, generated, fmt, f);
    }
  }

  lemma ReferableFilled(
    cat: Catalog, spec: RecordSpec, rank: nat, generated: Row, fmt: Formats, source: TableId, fk: ForeignKey)
    requires RowFits(spec, generated) && RowOk(spec, generated, fmt) && ReferableFieldsRequired(cat, spec)
    requires source in cat.tables && fk in cat.tables[source].foreignKeys && fk.target == Table(spec.destination)
    ensures CNull !in Tuple(InsertionOf(spec, rank, generated).row, fk.targetColumns)
  {
    var x, d := InsertionOf(spec, rank, generated), spec.destination;
    forall i | 0 <= i < |fk.targetColumns| ensures Tuple(x.row, fk.targetColumns)[i] != CNull {
      assert FromRequiredField(spec, fk.targetColumns[i]);
      var f :| f in d.columns && d.columns[f] == fk.targetColumns[i] && f in spec.fields && !spec.fields[f].nullable;
      RequiredColumnFilled(spec, rank, generated, fmt, f);
    }
  }

  lemma KeyFilled(spec: RecordSpec, rank: nat, generated: Row, fmt: Formats)
    requires RowFits(spec, generated) && RowOk(spec, generated, fmt)
    ensures Filled(InsertionOf(spec, rank, generated).Key())
  {
    var x, d := InsertionOf(spec, rank, generated), spec.destination;
    forall c | c in x.Key() ensures Canon(x.Key()[c]) != CNull {
      var f :| f in d.keyFields && d.columns[f] == c;
      RequiredColumnFilled(spec, rank, generated, fmt, f);
    }
  }

  /** What undo asks of a record type's destination. */
  ghost predicate UndoSuits(cat: Catalog, spec: RecordSpec) {
    KeyCovers(cat, spec) && (cat.rules.InStore? ==> ReferableFieldsRequired(cat, spec))
  }

  lemma AcceptedRowUndoable(cat: Catalog, spec: RecordSpec, rank: nat, generated: Row, fmt: Formats)
    requires RowFits(spec, generated) && RowOk(spec, generated, fmt) && UndoSuits(cat, spec)
    ensures UndoableRow(cat, InsertionOf(spec, rank, generated))
  {
    var x := InsertionOf(spec, rank, generated);
    KeyFilled(spec, rank, generated, fmt);
    if x.table in cat.tables {
      KeyCoversIdentifies(cat, spec, rank, generated, fmt);
      if cat.rules.InStore? {
        forall source, fk | source in cat.tables && fk in cat.tables[source].foreignKeys && fk.target == x.table
          ensures CNull !in Tuple(x.row, fk.targetColumns)
        {
          ReferableFilled(cat, spec, rank, generated, fmt, source, fk);
        }
      }
    }
  }

  /** Every insertion of an accepted dataset is that of an accepted row of some record type. */
  lemma AcceptedOrigin(c: Contract, records: Records, fmt: Formats, k: nat)
      returns (spec: RecordSpec, rank: nat, row: Row)
    requires ContractOk(c) && Accepts(c, records, fmt) && RecordsFit(c, records) && k < |AllInsertions(c, records)|
    ensures spec in c.records && RowFits(spec, row) && RowOk(spec, row, fmt)
    ensures AllInsertions(c, records)[k] == InsertionOf(spec, rank, row)
  {
    var gs := AllGroups(c, records);
    var i, j := OriginAt(gs, k);
    spec, rank, row := gs[i].spec, gs[i].rank, gs[i].rows[j];
    GroupSpec(c, records, i);
    assert RowsOk(spec, records[spec.recordType], fmt);
  }

  /** Keys and references as undo needs them, before the commit. */
  ghost predicate UndoReady(cat: Catalog, db: Db, t: Tenant, c: Contract) {
    && SharedReferencesHold(cat, db.rows, t) && (cat.rules.InStore? ==> TargetsAreKeys(cat))
    && forall spec | spec in c.records :: UndoSuits(cat, spec)
  }

  /**
   * Any accepted dataset that a fresh commit takes can be deleted again at once, and that puts every
   * table of every tenant back as it was: given references that held before, declared keys that
   * cover a unique key and, in memory, references into declared keys and non-nullable referable
   * fields.  The database asks for neither of the last two.
   */
  lemma CreateThenDeleteRestores(
    cat: Catalog, db: Db, t: Tenant, key: string, w: GenerationWrite, fmt: Formats, now: int, later: int)
    requires Tracked(db) && ContractOk(w.request.contract) && Accepts(w.request.contract, w.dataset.records, fmt)
    requires UndoReady(cat, db, t, w.request.contract) && FindIdempotent(db, t, key) == None
    ensures WriteOk(w)
    ensures var (committed, created) := CommitNext(cat, db, t, key, BatchOf(w), now);
      created.Committed? ==>
        var (after, reply) := DeleteNext(cat, committed, t, w.generationId, later);
        reply.Deleted? && forall u :: SameFor(after.rows, db.rows, u)
  {
    var c, records := w.request.contract, w.dataset.records;
    AcceptedFits(c, records, fmt);
    BatchParts(w);
    InsertionRanksFall(c, records);
    var ins := AllInsertions(c, records);
    if CommitNext(cat, db, t, key, BatchOf(w), now).1.Committed? {
      forall x | x in ins ensures UndoableRow(cat, x) {
        var k :| 0 <= k < |ins| && ins[k] == x;
        var spec, rank, row := AcceptedOrigin(c, records, fmt, k);
        AcceptedRowUndoable(cat, spec, rank, row, fmt);
      }
      DeleteUndoesCommit(cat, db, t, key, BatchOf(w), now, later);
      UndoAlwaysClear(cat, db.rows, t, ins);
    }
  }

  /** The same in every state that any run of commits and deletes reaches from consistent seed rows. */
  lemma CreateThenDeleteRestoresInAnyRun(
    cat: Catalog, start: Db, ops: seq<Op>, t: Tenant, key: string, w: GenerationWrite, fmt: Formats,
    now: int, later: int)
    requires Tracked(start) && (forall u | Shares(cat, t, u) :: Consistent(cat, start.rows, u))
    requires UndoReady(cat, start, t, w.request.contract)
    requires ContractOk(w.request.contract) && Accepts(w.request.contract, w.dataset.records, fmt)
    requires FindIdempotent(Run(cat, start, ops), t, key) == None
    ensures WriteOk(w)
    ensures var db := Run(cat, start, ops);
      var (committed, created) := CommitNext(cat, db, t, key, BatchOf(w), now);
      created.Committed? ==>
        var (after, reply) := DeleteNext(cat, committed, t, w.generationId, later);
        reply.Deleted? && forall u :: SameFor(after.rows, db.rows, u)
  {
    forall u | Shares(cat, t, u) ensures Consistent(cat, Run(cat, start, ops).rows, u) {
      RunsKeepConsistent(cat, start, ops, u);
    }
    CreateThenDeleteRestores(cat, Run(cat, start, ops), t, key, w, fmt, now, later);
  }

  /** The write commits, its generation is deleted again, and every table of every tenant is as it was. */
  ghost predicate InAndOut(cat: Catalog, db: Db, t: Tenant, key: string, b: Batch, now: int, later: int)
    requires Tracked(db)
  {
    var (committed, created) := CommitNext(cat, db, t, key, b, now);
    var (after, deleted) := DeleteNext(cat, committed, t, b.header.generationId, later);
    created.Committed? && !created.replayed && deleted.Deleted? && forall u :: SameFor(after.rows, db.rows, u)
  }

  /** Both together: what the service accepts goes into a catalog that suits it, and comes out again without a trace. */
  lemma AcceptedGoesInAndOut(
    cat: Catalog, db: Db, t: Tenant, key: string, w: GenerationWrite, fmt: Formats, now: int, later: int)
    requires Tracked(db) && WriteOk(w) && Accepts(w.request.contract, w.dataset.records, fmt)
    requires cat.rules.InDatabase? ==> SelfRelationsInPlace(w.request.contract, w.dataset.records)
    requires Suits(cat, w.request.contract) && Unoccupied(cat, db.rows, t, BatchOf(w).ins)
    requires UndoReady(cat, db, t, w.request.contract)
    requires FindIdempotent(db, t, key) == None && !MetadataTaken(cat, db, t, key, w.generationId)
    ensures InAndOut(cat, db, t, key, BatchOf(w), now, later)
  {
    BatchParts(w);
    AcceptedDatasetCommits(cat, db.rows, t, w.request.contract, w.dataset.records, fmt);
    CommitOfNewKey(cat, db, t, key, BatchOf(w), now);
    CreateThenDeleteRestores(cat, db, t, key, w, fmt, now, later);
  }
}
