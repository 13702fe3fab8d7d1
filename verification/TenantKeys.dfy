// Several tenants over the shared tables of the database: what one can notice of another.
module TenantKeys {
  import opened Values
  import opened Store
  import opened Integrity
  import opened Isolation
  import opened RulesCompared

  // ---- what other tenants' rows change ------------------------------------------------------

  /** The tables with only one tenant's rows in them. */
  function Alone(rows: Rows, t: Tenant): Rows {
    map place | place in rows && place.0 == t :: rows[place]
  }

  lemma AloneAt(rows: Rows, t: Tenant)
    ensures SameFor(Alone(rows, t), rows, t)
    ensures forall u, id | u != t :: At(Alone(rows, t), u, id) == []
  {
  }

  /** The reference of t's row is met, but by other tenants' rows only. */
  ghost predicate OnlyElsewhere(rows: Rows, t: Tenant, row: Row, fk: ForeignKey) {
    && CNull !in Tuple(row, fk.columns) && !Meets(rows, t, row, fk)
    && exists u :: u != t && Meets(rows, u, row, fk)
  }

  lemma SatisfiedAlone(cat: Catalog, rows: Rows, alone: Rows, t: Tenant, row: Row, fk: ForeignKey)
    requires cat.rules.InDatabase? && SameFor(alone, rows, t) && forall u, id | u != t :: At(alone, u, id) == []
    ensures Satisfied(cat, rows, t, row, fk) <==>
            Satisfied(cat, alone, t, row, fk) || OnlyElsewhere(rows, t, row, fk)
  {
    assert At(alone, t, fk.target) == At(rows, t, fk.target);
    assert forall u :: Shares(cat, t, u);
    assert Meets(alone, t, row, fk) <==> Meets(rows, t, row, fk);
    assert forall u | u != t :: !Meets(alone, u, row, fk);
    if Satisfied(cat, rows, t, row, fk) && CNull !in Tuple(row, fk.columns) && !Meets(rows, t, row, fk) {
      var u :| Shares(cat, t, u) && Meets(rows, u, row, fk);
      assert u != t;
    }
  }

  /** Some foreign key of the new row is met by other tenants' rows only. */
  ghost predicate NeedsOthers(cat: Catalog, rows: Rows, t: Tenant, x: Insertion) {
    x.table in cat.tables
    && exists fk :: fk in cat.tables[x.table].foreignKeys && OnlyElsewhere(Put(rows, t, x), t, x.row, fk)
  }

  /**
   * Other tenants' rows change what the database says of a new row in two ways only: one of them
   * holds a key of the row, or is what a foreign key of the row is met by.
   */
  lemma RefusalAmongOthers(cat: Catalog, rows: Rows, t: Tenant, x: Insertion)
    requires cat.rules.InDatabase?
    ensures var alone, among := Refusal(cat, Alone(rows, t), t, x), Refusal(cat, rows, t, x);
      && (alone == None ==> among == if HeldElsewhere(cat, rows, t, x) then Some(DestinationConflict) else None)
      && (among == None ==> alone == if NeedsOthers(cat, rows, t, x) then Some(DestinationConflict) else None)
      && (alone != None && among != None ==> alone == among)
  {
    if x.table in cat.tables {
      ForeignKeysAlone(cat, rows, t, x);
      ClashesAlone(cat, rows, t, x);
    }
  }

  lemma ForeignKeysAlone(cat: Catalog, rows: Rows, t: Tenant, x: Insertion)
    requires cat.rules.InDatabase? && x.table in cat.tables
    ensures var def := cat.tables[x.table];
      var alone := ForeignKeysMet(cat, def, Put(Alone(rows, t), t, x), t, x.row);
      var among := ForeignKeysMet(cat, def, Put(rows, t, x), t, x.row);
      (alone ==> among) && (among ==> (alone <==> !NeedsOthers(cat, rows, t, x)))
  {
    AloneAt(rows, t);
    var def, after, afterAlone := cat.tables[x.table], Put(rows, t, x), Put(Alone(rows, t), t, x);
    assert SameFor(afterAlone, after, t) by {
      assert At(Alone(rows, t), t, x.table) == At(rows, t, x.table);
      UpdateSame(Alone(rows, t), rows, t, x.table, At(rows, t, x.table) + [x.row], t);
    }
    forall fk
      ensures Satisfied(cat, after, t, x.row, fk) <==>
              Satisfied(cat, afterAlone, t, x.row, fk) || OnlyElsewhere(after, t, x.row, fk)
    {
      SatisfiedAlone(cat, after, afterAlone, t, x.row, fk);
    }
    if fk :| fk in def.foreignKeys && OnlyElsewhere(after, t, x.row, fk) {
      NotAlone(cat, after, afterAlone, t, x.row, fk);
    }
  }

  lemma NotAlone(cat: Catalog, rows: Rows, alone: Rows, t: Tenant, row: Row, fk: ForeignKey)
    requires SameFor(alone, rows, t) && forall u, id | u != t :: At(alone, u, id) == []
    requires OnlyElsewhere(rows, t, row, fk)
    ensures !Satisfied(cat, alone, t, row, fk)
  {
    assert At(alone, t, fk.target) == At(rows, t, fk.target);
    forall u ensures !Meets(alone, u, row, fk) {
      if u == t { assert !Meets(rows, t, row, fk); }
    }
  }

  lemma ClashesAlone(cat: Catalog, rows: Rows, t: Tenant, x: Insertion)
    requires cat.rules.InDatabase? && x.table in cat.tables
    ensures Clashes(cat, cat.tables[x.table], rows, t, x.table, x.row) <==>
            Clashes(cat, cat.tables[x.table], Alone(rows, t), t, x.table, x.row) || HeldElsewhere(cat, rows, t, x)
  {
    AloneAt(rows, t);
    var def := cat.tables[x.table];
    assert forall u :: Shares(cat, t, u);
    assert At(Alone(rows, t), t, x.table) == At(rows, t, x.table);
    assert forall u | u != t :: !Conflicts(def, At(Alone(rows, t), u, x.table), x.row);
    if Clashes(cat, def, rows, t, x.table, x.row) {
      var u :| Shares(cat, t, u) && Conflicts(def, At(rows, u, x.table), x.row);
      assert u == t ==> Conflicts(def, At(Alone(rows, t), t, x.table), x.row);
    }
    if Clashes(cat, def, Alone(rows, t), t, x.table, x.row) {
      var u :| Shares(cat, t, u) && Conflicts(def, At(Alone(rows, t), u, x.table), x.row);
      assert u == t && Conflicts(def, At(rows, t, x.table), x.row);
    }
  }

  // ---- keys that do not -----------------------------------------------------------------------

  ghost predicate Fit(cat: Catalog, x: Insertion) {
    x.table in cat.tables && Supplied(cat, cat.tables[x.table], x.row) && TypesMatch(cat.tables[x.table], x.types)
  }

  lemma {:induction false} StagedAreFit(cat: Catalog, rows: Rows, t: Tenant, ins: seq<Insertion>)
    requires StageAll(cat, rows, t, ins).Ok?
    ensures forall x | x in ins :: Fit(cat, x)
  {
    if ins == [] {
    } else {
      StagedAreFit(cat, rows, t, ins[..|ins| - 1]);
    }
  }

  lemma {:induction false} FitOnlyConflict(cat: Catalog, rows: Rows, t: Tenant, ins: seq<Insertion>)
    requires forall x | x in ins :: Fit(cat, x)
    ensures StageAll(cat, rows, t, ins).Err? ==> StageAll(cat, rows, t, ins).error == DestinationConflict
  {
    if ins == [] {
    } else {
      var n := |ins| - 1;
      assert Fit(cat, ins[n]) && forall x | x in ins[..n] :: x in ins;
      FitOnlyConflict(cat, rows, t, ins[..n]);
    }
  }

  /**
   * Tenants do meet in the database: what one has written, another cannot write too, if some row
   * has a declared key without nulls.  In the in-memory store the first write makes no difference.
   */
  lemma CopyRefused(
    cat: Catalog, rows: Rows, t: Tenant, u: Tenant, ins: seq<Insertion>, k: nat, key: seq<string>)
    requires t != u && StageAll(InSql(cat), rows, t, ins).Ok?
    requires k < |ins| && HasKey(cat, ins[k].table, key) && CNull !in Tuple(ins[k].row, key)
    ensures var after := StageAll(InSql(cat), rows, t, ins).value;
      && StageAll(InSql(cat), after, u, ins) == Err(DestinationConflict)
      && StagedTheSame(StageAll(InMemory(cat), after, u, ins), StageAll(InMemory(cat), rows, u, ins), u)
  {
    var after := StageAll(InSql(cat), rows, t, ins).value;
    StagedAreFit(InSql(cat), rows, t, ins);
    FitOnlyConflict(InSql(cat), after, u, ins);
    if StageAll(InSql(cat), after, u, ins).Ok? {
      var mid := CopyHeld(cat, rows, t, u, ins, k);
      NotTaken(InSql(cat), mid, u, ins[k], t, key);
    }
    StagingSparesOthers(InSql(cat), rows, t, ins, u);
    assert Alike(InMemory(cat), after, rows, u);
    StageSame(InMemory(cat), after, rows, u, ins);
  }

  /** When u comes to its copy of row k, the row of t is there. */
  lemma CopyHeld(cat: Catalog, rows: Rows, t: Tenant, u: Tenant, ins: seq<Insertion>, k: nat) returns (mid: Rows)
    requires t != u && StageAll(InSql(cat), rows, t, ins).Ok? && k < |ins|
    requires StageAll(InSql(cat), StageAll(InSql(cat), rows, t, ins).value, u, ins).Ok?
    ensures Refusal(InSql(cat), mid, u, ins[k]) == None && ins[k].row in At(mid, t, ins[k].table)
  {
    var after := StageAll(InSql(cat), rows, t, ins).value;
    TakenAt(InSql(cat), after, u, ins, k);
    mid := StageAll(InSql(cat), after, u, ins[..k]).value;
    StagedRows(InSql(cat), after, u, ins[..k], t, ins[k].table);
    StagedRows(InSql(cat), rows, t, ins, t, ins[k].table);
    RowsForHas(ins, k);
  }

  // ---- keys that carry the tenant ---------------------------------------------------------

  /** The column by which a table's row policy tells the tenants apart. */
  type TenantColumn = TableId -> string

  predicate OwnedBy(col: TenantColumn, id: TableId, row: Row, t: Tenant) {
    Canon(Get(row, col(id))) == Canon(Text(t))
  }

  /** What the row policy guarantees: every row carries its tenant. */
  ghost predicate RowsOwned(col: TenantColumn, rows: Rows) {
    forall u, id, r | r in At(rows, u, id) :: OwnedBy(col, id, r, u)
  }

  ghost predicate InsertionsOwned(col: TenantColumn, t: Tenant, ins: seq<Insertion>) {
    forall x | x in ins :: OwnedBy(col, x.table, x.row, t)
  }

  ghost predicate OpOwned(col: TenantColumn, op: Op) {
    op.Commit? ==> InsertionsOwned(col, op.tenant, op.batch.ins)
  }

  ghost predicate OpsOwned(col: TenantColumn, ops: seq<Op>) {
    forall i | 0 <= i < |ops| :: OpOwned(col, ops[i])
  }

  /** The foreign key takes the tenant along. */
  ghost predicate ReferenceCarries(col: TenantColumn, source: TableId, fk: ForeignKey) {
    exists i :: 0 <= i < |fk.columns| && i < |fk.targetColumns|
      && fk.columns[i] == col(source) && fk.targetColumns[i] == col(fk.target)
  }

  ghost predicate KeysCarryTenant(cat: Catalog, col: TenantColumn) {
    && (forall id, key | HasKey(cat, id, key) :: col(id) in key)
    && (forall source, fk | source in cat.tables && fk in cat.tables[source].foreignKeys ::
          ReferenceCarries(col, source, fk))
  }

  lemma KeysNeverMeet(col: TenantColumn, id: TableId, key: seq<string>, r: Row, u: Tenant, s: Row, t: Tenant)
    requires col(id) in key && OwnedBy(col, id, r, u) && OwnedBy(col, id, s, t) && u != t
    ensures Tuple(r, key) != Tuple(s, key)
  {
    var i :| 0 <= i < |key| && key[i] == col(id);
    assert Tuple(r, key)[i] == Canon(Get(r, col(id))) && Tuple(s, key)[i] == Canon(Get(s, col(id)));
  }

  lemma ReferencesNeverMeet(
    col: TenantColumn, source: TableId, fk: ForeignKey, r: Row, u: Tenant, target: Row, t: Tenant)
    requires ReferenceCarries(col, source, fk)
    requires OwnedBy(col, source, r, u) && OwnedBy(col, fk.target, target, t) && u != t
    ensures Tuple(r, fk.columns) != Tuple(target, fk.targetColumns)
  {
    var i :| 0 <= i < |fk.columns| && i < |fk.targetColumns|
      && fk.columns[i] == col(source) && fk.targetColumns[i] == col(fk.target);
    assert Tuple(r, fk.columns)[i] == Canon(Get(r, col(source)));
    assert Tuple(target, fk.targetColumns)[i] == Canon(Get(target, col(fk.target)));
  }

  lemma NothingElsewhere(
    cat: Catalog, col: TenantColumn, rows: Rows, t: Tenant, source: TableId, row: Row, fk: ForeignKey)
    requires KeysCarryTenant(cat, col) && RowsOwned(col, rows) && OwnedBy(col, source, row, t)
    requires source in cat.tables && fk in cat.tables[source].foreignKeys
    ensures !OnlyElsewhere(rows, t, row, fk)
  {
    forall u | u != t ensures !Meets(rows, u, row, fk) {
      forall target | target in At(rows, u, fk.target)
        ensures Tuple(target, fk.targetColumns) != Tuple(row, fk.columns)
      {
        ReferencesNeverMeet(col, source, fk, row, t, target, u);
      }
    }
  }

  lemma PutOwned(col: TenantColumn, rows: Rows, t: Tenant, x: Insertion)
    requires RowsOwned(col, rows) && OwnedBy(col, x.table, x.row, t)
    ensures RowsOwned(col, Put(rows, t, x))
  {
    forall u, id, r | r in At(Put(rows, t, x), u, id) ensures OwnedBy(col, id, r, u) {
      assert r in At(rows, u, id) || (u == t && id == x.table && r == x.row);
    }
  }

  /** Then the judgement of a new row is that among the tenant's own rows. */
  lemma RefusalOwned(cat: Catalog, col: TenantColumn, rows: Rows, t: Tenant, x: Insertion)
    requires cat.rules.InDatabase? && KeysCarryTenant(cat, col) && RowsOwned(col, rows)
    requires OwnedBy(col, x.table, x.row, t)
    ensures Refusal(cat, rows, t, x) == Refusal(cat, Alone(rows, t), t, x)
  {
    RefusalAmongOthers(cat, rows, t, x);
    PutOwned(col, rows, t, x);
    if x.table in cat.tables {
      forall u | u != t ensures !Conflicts(cat.tables[x.table], At(rows, u, x.table), x.row) {
        forall key | key in cat.tables[x.table].uniqueKeys ensures !Taken(At(rows, u, x.table), x.row, key) {
          assert HasKey(cat, x.table, key);
          forall r | r in At(rows, u, x.table) ensures Tuple(r, key) != Tuple(x.row, key) {
            KeysNeverMeet(col, x.table, key, r, u, x.row, t);
          }
        }
      }
      forall fk | fk in cat.tables[x.table].foreignKeys ensures !OnlyElsewhere(Put(rows, t, x), t, x.row, fk) {
        NothingElsewhere(cat, col, Put(rows, t, x), t, x.table, x.row, fk);
      }
    }
  }

  lemma AloneAlike(cat: Catalog, a: Rows, b: Rows, t: Tenant)
    requires SameFor(a, b, t)
    ensures Alike(cat, Alone(a, t), Alone(b, t), t)
  {
    AloneAt(a, t);
    AloneAt(b, t);
    forall u ensures SameFor(Alone(a, t), Alone(b, t), u) {
      forall id ensures At(Alone(a, t), u, id) == At(Alone(b, t), u, id) {
        if u == t {
          assert At(Alone(a, t), t, id) == At(a, t, id) == At(b, t, id) == At(Alone(b, t), t, id);
        }
      }
    }
  }

  lemma {:induction false} StageOwned(cat: Catalog, col: TenantColumn, a: Rows, b: Rows, t: Tenant, ins: seq<Insertion>)
    requires cat.rules.InDatabase? && KeysCarryTenant(cat, col) && RowsOwned(col, a) && RowsOwned(col, b)
    requires SameFor(a, b, t) && InsertionsOwned(col, t, ins)
    ensures StagedTheSame(StageAll(cat, a, t, ins), StageAll(cat, b, t, ins), t)
    ensures StageAll(cat, a, t, ins).Ok? ==> RowsOwned(col, StageAll(cat, a, t, ins).value)
    ensures StageAll(cat, b, t, ins).Ok? ==> RowsOwned(col, StageAll(cat, b, t, ins).value)
  {
    if ins == [] {
    } else {
      var n := |ins| - 1;
      var x := ins[n];
      assert x in ins && forall y | y in ins[..n] :: y in ins;
      StageOwned(cat, col, a, b, t, ins[..n]);
      var p, q := StageAll(cat, a, t, ins[..n]), StageAll(cat, b, t, ins[..n]);
      if p.Ok? {
        OneOwned(cat, col, p.value, q.value, t, x);
      }
    }
  }

  lemma OneOwned(cat: Catalog, col: TenantColumn, a: Rows, b: Rows, t: Tenant, x: Insertion)
    requires cat.rules.InDatabase? && KeysCarryTenant(cat, col) && RowsOwned(col, a) && RowsOwned(col, b)
    requires SameFor(a, b, t) && OwnedBy(col, x.table, x.row, t)
    ensures Refusal(cat, a, t, x) == Refusal(cat, b, t, x)
    ensures SameFor(Put(a, t, x), Put(b, t, x), t) && RowsOwned(col, Put(a, t, x)) && RowsOwned(col, Put(b, t, x))
  {
    RefusalOwned(cat, col, a, t, x);
    RefusalOwned(cat, col, b, t, x);
    AloneAlike(cat, a, b, t);
    RefusalSame(cat, Alone(a, t), Alone(b, t), t, x);
    assert At(a, t, x.table) == At(b, t, x.table);
    UpdateSame(a, b, t, x.table, At(a, t, x.table) + [x.row], t);
    PutOwned(col, a, t, x);
    PutOwned(col, b, t, x);
  }

  // ---- deleting -----------------------------------------------------------------------------

  lemma WithoutOwned(col: TenantColumn, rows: Rows, t: Tenant, id: TableId, k: nat)
    requires RowsOwned(col, rows) && k < |At(rows, t, id)|
    ensures RowsOwned(col, Without(rows, t, id, k))
  {
    forall u, other, r | r in At(Without(rows, t, id, k), u, other) ensures OwnedBy(col, other, r, u) {
      CutHasNoMore(rows, t, id, k, u, other, r);
    }
  }

  /** Only the tenant's own rows can be orphaned. */
  lemma OwnOrphansOnly(cat: Catalog, col: TenantColumn, after: Rows, t: Tenant, id: TableId, row: Row)
    requires cat.rules.InDatabase? && KeysCarryTenant(cat, col) && RowsOwned(col, after) && OwnedBy(col, id, row, t)
    ensures LeavesOrphan(cat, after, t, id, row) <==> OrphansOf(cat, after, t, id, row)
  {
    forall u | u != t ensures !OrphansOf(cat, after, u, id, row) {
      forall source, fk, candidate | RealReference(cat, after, u, id, row, source, fk, candidate) ensures false {
        ReferencesNeverMeet(col, source, fk, candidate, u, row, t);
      }
    }
    assert Shares(cat, t, t);
  }

  lemma OrphansOwned(cat: Catalog, col: TenantColumn, a: Rows, b: Rows, t: Tenant, id: TableId, row: Row)
    requires cat.rules.InDatabase? && KeysCarryTenant(cat, col) && RowsOwned(col, a) && SameFor(a, b, t)
    requires OrphansOf(cat, a, t, id, row) && RowsOwned(col, b)
    ensures OrphansOf(cat, b, t, id, row)
  {
    var source, fk, candidate :|
      RealReference(cat, a, t, id, row, source, fk, candidate) && !Satisfied(cat, a, t, candidate, fk);
    assert At(a, t, source) == At(b, t, source) && At(a, t, fk.target) == At(b, t, fk.target);
    assert OwnedBy(col, source, candidate, t);
    NothingElsewhere(cat, col, b, t, source, candidate, fk);
    assert Shares(cat, t, t) && !Meets(a, t, candidate, fk) && !Meets(b, t, candidate, fk);
    assert RealReference(cat, b, t, id, row, source, fk, candidate) && !Satisfied(cat, b, t, candidate, fk);
  }

  lemma EraseOwned(cat: Catalog, col: TenantColumn, a: Rows, b: Rows, t: Tenant, w: WrittenRow)
    requires cat.rules.InDatabase? && KeysCarryTenant(cat, col) && RowsOwned(col, a) && RowsOwned(col, b)
    requires SameFor(a, b, t)
    ensures UndoneTheSame(Erase(cat, a, t, w), Erase(cat, b, t, w), t)
    ensures Erase(cat, a, t, w).Some? ==> RowsOwned(col, Erase(cat, a, t, w).value)
    ensures Erase(cat, b, t, w).Some? ==> RowsOwned(col, Erase(cat, b, t, w).value)
  {
    var table := At(a, t, w.table);
    assert At(b, t, w.table) == table;
    var m := Found(cat, table, w.key);
    if |m| == 1 {
      var k := m[0];
      var row, x, y := table[k], Without(a, t, w.table, k), Without(b, t, w.table, k);
      UpdateSame(a, b, t, w.table, table[..k] + table[k + 1..], t);
      WithoutOwned(col, a, t, w.table, k);
      WithoutOwned(col, b, t, w.table, k);
      OwnOrphansOnly(cat, col, x, t, w.table, row);
      OwnOrphansOnly(cat, col, y, t, w.table, row);
      if OrphansOf(cat, x, t, w.table, row) { OrphansOwned(cat, col, x, y, t, w.table, row); }
      if OrphansOf(cat, y, t, w.table, row) { OrphansOwned(cat, col, y, x, t, w.table, row); }
    }
  }

  lemma {:induction false} UnwindOwned(
    cat: Catalog, col: TenantColumn, a: Rows, b: Rows, t: Tenant, todo: seq<WrittenRow>)
    requires cat.rules.InDatabase? && KeysCarryTenant(cat, col) && RowsOwned(col, a) && RowsOwned(col, b)
    requires SameFor(a, b, t)
    ensures UndoneTheSame(Unwind(cat, a, t, todo), Unwind(cat, b, t, todo), t)
    ensures Unwind(cat, a, t, todo).Some? ==> RowsOwned(col, Unwind(cat, a, t, todo).value)
    decreases |todo|
  {
    if todo == [] {
    } else {
      EraseOwned(cat, col, a, b, t, todo[0]);
      var x, y := Erase(cat, a, t, todo[0]), Erase(cat, b, t, todo[0]);
      if x.Some? { UnwindOwned(cat, col, x.value, y.value, t, todo[1..]); }
    }
  }

  // ---- whole runs -------------------------------------------------------------------------------

  lemma StepOwned(cat: Catalog, col: TenantColumn, db: Db, op: Op)
    requires cat.rules.InDatabase? && KeysCarryTenant(cat, col) && Tracked(db) && RowsOwned(col, db.rows)
    requires OpOwned(col, op)
    ensures RowsOwned(col, Next(cat, db, op).0.rows)
  {
    match op
    case Commit(t, key, batch, now) => StageOwned(cat, col, db.rows, db.rows, t, batch.ins);
    case Delete(t, id, now) =>
      if (t, id) in db.generations {
        UnwindOwned(cat, col, db.rows, db.rows, t, SortLedger(db.written[(t, id)]));
      }
  }

  lemma {:induction false} RunOwned(cat: Catalog, col: TenantColumn, db: Db, ops: seq<Op>)
    requires cat.rules.InDatabase? && KeysCarryTenant(cat, col) && Tracked(db) && RowsOwned(col, db.rows)
    requires OpsOwned(col, ops)
    ensures RowsOwned(col, Run(cat, db, ops).rows)
  {
    if ops == [] {
    } else {
      RunOwned(cat, col, db, ops[..|ops| - 1]);
      StepOwned(cat, col, Run(cat, db, ops[..|ops| - 1]), ops[|ops| - 1]);
    }
  }

  lemma {:induction false} OwnOpsOwned(col: TenantColumn, ops: seq<Op>, t: Tenant)
    requires OpsOwned(col, ops)
    ensures OpsOwned(col, Own(ops, t))
  {
    if ops == [] {
    } else {
      OwnOpsOwned(col, ops[..|ops| - 1], t);
    }
  }

  lemma OwnStepOwned(cat: Catalog, col: TenantColumn, a: Db, b: Db, op: Op)
    requires cat.rules.InDatabase? && KeysCarryTenant(cat, col) && Tracked(a) && Tracked(b) && Agree(a, b, op.tenant)
    requires RowsOwned(col, a.rows) && RowsOwned(col, b.rows) && OpOwned(col, op)
    ensures Agree(Next(cat, a, op).0, Next(cat, b, op).0, op.tenant)
    ensures Next(cat, a, op).1 == Next(cat, b, op).1
  {
    match op
    case Commit(t, key, batch, now) =>
      StageOwned(cat, col, a.rows, b.rows, t, batch.ins);
      OwnCommitAgrees(cat, a, b, t, key, batch, now);
    case Delete(t, id, now) =>
      if (t, id) in a.generations { UnwindOwned(cat, col, a.rows, b.rows, t, SortLedger(a.written[(t, id)])); }
      OwnDeleteAgrees(cat, a, b, t, id, now);
  }

  /**
   * In the database tenants do not notice each other when every unique key and every foreign key
   * takes the tenant column along, and every row carries its tenant: dropping every other tenant's
   * operations changes nothing that tenant t can see, including its replies.
   */
  lemma {:induction false} KeyedTenantsDoNotInterfere(
    cat: Catalog, col: TenantColumn, db: Db, ops: seq<Op>, t: Tenant)
    requires cat.rules.InDatabase? && KeysCarryTenant(cat, col) && Tracked(db) && RowsOwned(col, db.rows)
    requires OpsOwned(col, ops)
    ensures Agree(Run(cat, db, ops), Run(cat, db, Own(ops, t)), t)
    ensures Replies(cat, db, ops, t) == Replies(cat, db, Own(ops, t), t)
  {
    if ops == [] {
    } else {
      var n := |ops| - 1;
      KeyedTenantsDoNotInterfere(cat, col, db, ops[..n], t);
      var own := Own(ops[..n], t);
      var a, b := Run(cat, db, ops[..n]), Run(cat, db, own);
      if ops[n].tenant == t {
        assert (own + [ops[n]])[..|own|] == own;
        RunOwned(cat, col, db, ops[..n]);
        OwnOpsOwned(col, ops[..n], t);
        RunOwned(cat, col, db, own);
        OwnStepOwned(cat, col, a, b, ops[n]);
      } else {
        assert own + [] == own;
        ForeignStepInvisible(cat, a, b, ops[n], t);
      }
    }
  }
}
