// The two repositories side by side: where the in-memory store and the database judge alike, and where not.
module RulesCompared {
  import opened Values
  import opened Store
  import opened Integrity
  import opened Undo
  import opened Interleaving

  function InMemory(cat: Catalog): Catalog {
    cat.(rules := InStore)
  }

  function InSql(cat: Catalog): Catalog {
    cat.(rules := InDatabase)
  }

  // ---- one row --------------------------------------------------------------------------

  /** A required column is written, but with a null. */
  ghost predicate NullRequired(cat: Catalog, x: Insertion) {
    && x.table in cat.tables && cat.tables[x.table].required <= x.row.Keys
    && exists c :: c in cat.tables[x.table].required && Canon(Get(x.row, c)) == CNull
  }

  /** Another tenant's row carries one of the row's unique keys. */
  ghost predicate HeldElsewhere(cat: Catalog, rows: Rows, t: Tenant, x: Insertion) {
    x.table in cat.tables && exists u :: u != t && Conflicts(cat.tables[x.table], At(rows, u, x.table), x.row)
  }

  ghost predicate MetElsewhere(rows: Rows, t: Tenant, x: Insertion, fk: ForeignKey) {
    exists u :: u != t && Meets(rows, u, x.row, fk)
  }

  /** No earlier row of the tenant meets the foreign key, but the row itself does, or another tenant's. */
  ghost predicate LeansOn(rows: Rows, t: Tenant, x: Insertion, fk: ForeignKey) {
    && CNull !in Tuple(x.row, fk.columns) && !Meets(rows, t, x.row, fk)
    && ((fk.target == x.table && Refers(fk, x.row, x.row)) || MetElsewhere(rows, t, x, fk))
  }

  ghost predicate Leans(cat: Catalog, rows: Rows, t: Tenant, x: Insertion) {
    x.table in cat.tables && exists fk :: fk in cat.tables[x.table].foreignKeys && LeansOn(rows, t, x, fk)
  }

  lemma MeetsAfter(rows: Rows, t: Tenant, x: Insertion, fk: ForeignKey, u: Tenant)
    ensures Meets(Put(rows, t, x), u, x.row, fk) <==>
            Meets(rows, u, x.row, fk) || (u == t && fk.target == x.table && Refers(fk, x.row, x.row))
  {
    var after := At(Put(rows, t, x), u, fk.target);
    if Meets(rows, u, x.row, fk) {
      var target :| target in At(rows, u, fk.target) && Tuple(target, fk.targetColumns) == Tuple(x.row, fk.columns);
      assert target in after;
    }
    if u == t && fk.target == x.table {
      assert after[|At(rows, t, x.table)|] == x.row;
    }
  }

  lemma SatisfiedCompared(cat: Catalog, rows: Rows, t: Tenant, x: Insertion, fk: ForeignKey)
    ensures Satisfied(InSql(cat), Put(rows, t, x), t, x.row, fk) <==>
            Satisfied(InMemory(cat), rows, t, x.row, fk) || LeansOn(rows, t, x, fk)
  {
    var after := Put(rows, t, x);
    forall u ensures Meets(after, u, x.row, fk) <==>
                     Meets(rows, u, x.row, fk) || (u == t && fk.target == x.table && Refers(fk, x.row, x.row))
    {
      MeetsAfter(rows, t, x, fk, u);
    }
    assert Shares(InMemory(cat), t, t) && forall u :: Shares(InSql(cat), t, u);
    assert Meets(after, t, x.row, fk) ==> Satisfied(InSql(cat), after, t, x.row, fk);
  }

  lemma ClashesCompared(cat: Catalog, rows: Rows, t: Tenant, x: Insertion)
    requires x.table in cat.tables
    ensures var def := cat.tables[x.table];
      && (Clashes(InMemory(cat), def, rows, t, x.table, x.row) <==> Conflicts(def, At(rows, t, x.table), x.row))
      && (Clashes(InSql(cat), def, rows, t, x.table, x.row) <==>
            Conflicts(def, At(rows, t, x.table), x.row) || HeldElsewhere(cat, rows, t, x))
  {
    var def := cat.tables[x.table];
    assert forall u :: Shares(InSql(cat), t, u) && (Shares(InMemory(cat), t, u) <==> u == t);
    if Clashes(InSql(cat), def, rows, t, x.table, x.row) {
      var u :| Shares(InSql(cat), t, u) && Conflicts(def, At(rows, u, x.table), x.row);
      assert u != t ==> HeldElsewhere(cat, rows, t, x);
    }
  }

  lemma ForeignKeysCompared(cat: Catalog, rows: Rows, t: Tenant, x: Insertion)
    requires x.table in cat.tables
    ensures var def := cat.tables[x.table];
      && (ForeignKeysMet(InMemory(cat), def, rows, t, x.row) ==>
            ForeignKeysMet(InSql(cat), def, Put(rows, t, x), t, x.row))
      && (ForeignKeysMet(InSql(cat), def, Put(rows, t, x), t, x.row) ==>
            (ForeignKeysMet(InMemory(cat), def, rows, t, x.row) <==> !Leans(cat, rows, t, x)))
  {
    forall fk
      ensures Satisfied(InSql(cat), Put(rows, t, x), t, x.row, fk) <==>
              Satisfied(InMemory(cat), rows, t, x.row, fk) || LeansOn(rows, t, x, fk)
    {
      SatisfiedCompared(cat, rows, t, x, fk);
    }
    if fk :| fk in cat.tables[x.table].foreignKeys && LeansOn(rows, t, x, fk) {
      assert !Satisfied(InMemory(cat), rows, t, x.row, fk);
    }
  }

  /** Why the database refuses a row that the in-memory store takes. */
  ghost function Bar(cat: Catalog, rows: Rows, t: Tenant, x: Insertion): Option<Error> {
    if NullRequired(cat, x) then Some(DestinationInvalid)
    else if HeldElsewhere(cat, rows, t, x) then Some(DestinationConflict)
    else None
  }

  /**
   * The two differ on a row in exactly three ways.  Of the rows that the in-memory store takes the
   * database refuses those with a null in a required column or with a key that another tenant holds;
   * of the rows that the database takes the in-memory store refuses those that lean on themselves or
   * on another tenant's row.  Where both refuse they say the same, unless a required column is null.
   */
  lemma RefusalsCompared(cat: Catalog, rows: Rows, t: Tenant, x: Insertion)
    ensures var store, database := Refusal(InMemory(cat), rows, t, x), Refusal(InSql(cat), rows, t, x);
      && (store == None ==> database == Bar(cat, rows, t, x))
      && (database == None ==> store == if Leans(cat, rows, t, x) then Some(DestinationConflict) else None)
      && (store != None && database != None ==> store == database || NullRequired(cat, x))
  {
    if x.table in cat.tables {
      ClashesCompared(cat, rows, t, x);
      ForeignKeysCompared(cat, rows, t, x);
      assert Supplied(InSql(cat), cat.tables[x.table], x.row) <==>
             Supplied(InMemory(cat), cat.tables[x.table], x.row) && !NullRequired(cat, x);
    }
  }

  // ---- whole batches ------------------------------------------------------------------------

  /** Why the database refuses a batch that the in-memory store takes: its first row with a bar. */
  ghost function FirstBar(cat: Catalog, rows: Rows, t: Tenant, ins: seq<Insertion>): Option<Error>
    requires StageAll(InMemory(cat), rows, t, ins).Ok?
  {
    if ins == [] then None
    else
      var n := |ins| - 1;
      var earlier := FirstBar(cat, rows, t, ins[..n]);
      if earlier.Some? then earlier else Bar(cat, StageAll(InMemory(cat), rows, t, ins[..n]).value, t, ins[n])
  }

  /** Some row of a batch that the database takes leans when it comes in. */
  ghost predicate SomeLean(cat: Catalog, rows: Rows, t: Tenant, ins: seq<Insertion>)
    requires StageAll(InSql(cat), rows, t, ins).Ok?
  {
    ins != [] &&
    var n := |ins| - 1;
    SomeLean(cat, rows, t, ins[..n]) || Leans(cat, StageAll(InSql(cat), rows, t, ins[..n]).value, t, ins[n])
  }

  lemma {:induction false} StagingsCompared(cat: Catalog, rows: Rows, t: Tenant, ins: seq<Insertion>)
    ensures StageAll(InMemory(cat), rows, t, ins).Ok? ==>
      StageAll(InSql(cat), rows, t, ins) ==
      match FirstBar(cat, rows, t, ins) { case Some(e) => Err(e) case None => StageAll(InMemory(cat), rows, t, ins) }
    ensures StageAll(InSql(cat), rows, t, ins).Ok? ==>
      StageAll(InMemory(cat), rows, t, ins) ==
      if SomeLean(cat, rows, t, ins) then Err(DestinationConflict) else StageAll(InSql(cat), rows, t, ins)
  {
    if ins == [] {
    } else {
      var n := |ins| - 1;
      StagingsCompared(cat, rows, t, ins[..n]);
      var store, database := StageAll(InMemory(cat), rows, t, ins[..n]), StageAll(InSql(cat), rows, t, ins[..n]);
      if store.Ok? { RefusalsCompared(cat, store.value, t, ins[n]); }
      if database.Ok? { RefusalsCompared(cat, database.value, t, ins[n]); }
    }
  }

  lemma {:induction false} LeansSomewhere(cat: Catalog, rows: Rows, t: Tenant, ins: seq<Insertion>, k: nat)
    requires StageAll(InSql(cat), rows, t, ins).Ok? && k < |ins|
    ensures StageAll(InSql(cat), rows, t, ins[..k]).Ok?
    ensures Leans(cat, StageAll(InSql(cat), rows, t, ins[..k]).value, t, ins[k]) ==> SomeLean(cat, rows, t, ins)
  {
    var n := |ins| - 1;
    if k == n {
    } else {
      LeansSomewhere(cat, rows, t, ins[..n], k);
      assert ins[..n][..k] == ins[..k];
    }
  }

  /** Why the database refuses a commit that the in-memory store makes, if it does. */
  ghost function CommitBar(cat: Catalog, db: Db, t: Tenant, key: string, b: Batch): Option<Error>
    requires FindIdempotent(db, t, key) == None ==> StageAll(InMemory(cat), db.rows, t, b.ins).Ok?
  {
    if FindIdempotent(db, t, key).Some? then None
    else if FirstBar(cat, db.rows, t, b.ins).Some? then FirstBar(cat, db.rows, t, b.ins)
    else if (t, b.header.generationId) in db.generations then Some(DestinationConflict)
    else None
  }

  /**
   * Whole commits.  What is committed in memory is committed alike in the database unless the key is
   * new and a row has a bar or the generation id is taken; what is committed in the database is
   * committed alike in memory unless the key is new and a row leans.  Otherwise both leave
   * everything as it was.
   */
  lemma CommitsCompared(cat: Catalog, db: Db, t: Tenant, key: string, b: Batch, now: int)
    requires Tracked(db) && Bound(db, t, key)
    ensures var store, database :=
              CommitNext(InMemory(cat), db, t, key, b, now), CommitNext(InSql(cat), db, t, key, b, now);
      var unbound := FindIdempotent(db, t, key) == None;
      && (store.1.Committed? ==>
            && (unbound ==> StageAll(InMemory(cat), db.rows, t, b.ins).Ok?)
            && database == match CommitBar(cat, db, t, key, b) { case Some(e) => (db, Refused(e)) case None => store })
      && (database.1.Committed? ==>
            && (unbound ==> StageAll(InSql(cat), db.rows, t, b.ins).Ok?)
            && store == if unbound && SomeLean(cat, db.rows, t, b.ins)
                        then (db, Refused(DestinationConflict)) else database)
      && (!store.1.Committed? && !database.1.Committed? ==> store.0 == db == database.0)
  {
    FoundWhenBound(db, t, key);
    if FindIdempotent(db, t, key) == None {
      StagingsCompared(cat, db.rows, t, b.ins);
      CommitOfNewKey(InMemory(cat), db, t, key, b, now);
      CommitOfNewKey(InSql(cat), db, t, key, b, now);
    }
  }

  // ---- deletion -----------------------------------------------------------------------------

  /** What stops the in-memory store only: anything of the tenant's own refers to the row, nulls and itself included. */
  ghost predicate Stopped(cat: Catalog, rows: Rows, t: Tenant, w: WrittenRow) {
    var m := Matches(At(rows, t, w.table), w.key);
    |m| == 1 && HasReference(InMemory(cat), rows, t, w.table, At(rows, t, w.table)[m[0]])
  }

  /** What stops the database only: a null in the written key, or another tenant's row that would lose its target. */
  ghost predicate Barred(cat: Catalog, rows: Rows, t: Tenant, w: WrittenRow) {
    || !Filled(w.key)
    || var m := Matches(At(rows, t, w.table), w.key);
       |m| == 1 && OrphansElsewhere(InSql(cat), rows, t, w.table, m[0])
  }

  ghost predicate OrphansElsewhere(cat: Catalog, rows: Rows, t: Tenant, id: TableId, k: nat)
    requires k < |At(rows, t, id)|
  {
    exists u :: u != t && OrphansOf(cat, Without(rows, t, id, k), u, id, At(rows, t, id)[k])
  }

  lemma ErasesCompared(cat: Catalog, rows: Rows, t: Tenant, w: WrittenRow)
    ensures Erase(InMemory(cat), rows, t, w).Some? ==>
      Erase(InSql(cat), rows, t, w) == if Barred(cat, rows, t, w) then None else Erase(InMemory(cat), rows, t, w)
    ensures Erase(InSql(cat), rows, t, w).Some? ==>
      Erase(InMemory(cat), rows, t, w) == if Stopped(cat, rows, t, w) then None else Erase(InSql(cat), rows, t, w)
  {
    var m := Matches(At(rows, t, w.table), w.key);
    if |m| == 1 && !HasReference(InMemory(cat), rows, t, w.table, At(rows, t, w.table)[m[0]]) {
      OnlyOthersOrphaned(cat, rows, t, w.table, m[0]);
    }
  }

  /** With no reference among the tenant's own rows, only other tenants' rows can be orphaned. */
  lemma OnlyOthersOrphaned(cat: Catalog, rows: Rows, t: Tenant, id: TableId, k: nat)
    requires k < |At(rows, t, id)| && !HasReference(InMemory(cat), rows, t, id, At(rows, t, id)[k])
    ensures Pinned(InSql(cat), rows, t, id, k) <==> OrphansElsewhere(InSql(cat), rows, t, id, k)
  {
    var row, after := At(rows, t, id)[k], Without(rows, t, id, k);
    if OrphansOf(InSql(cat), after, t, id, row) {
      var source, fk, candidate :| RealReference(InSql(cat), after, t, id, row, source, fk, candidate);
      CutHasNoMore(rows, t, id, k, t, source, candidate);
      assert ReferredBy(InMemory(cat), rows, t, id, row, source);
    }
    assert forall u :: Shares(InSql(cat), t, u);
  }

  /** The in-memory store stops somewhere along what the database carries out. */
  ghost predicate SomeStop(cat: Catalog, rows: Rows, t: Tenant, todo: seq<WrittenRow>)
    requires Unwind(InSql(cat), rows, t, todo).Some?
    decreases |todo|
  {
    todo != [] &&
    (Stopped(cat, rows, t, todo[0]) || SomeStop(cat, Erase(InSql(cat), rows, t, todo[0]).value, t, todo[1..]))
  }

  /** The database stops somewhere along what the in-memory store carries out. */
  ghost predicate SomeBar(cat: Catalog, rows: Rows, t: Tenant, todo: seq<WrittenRow>)
    requires Unwind(InMemory(cat), rows, t, todo).Some?
    decreases |todo|
  {
    todo != [] &&
    (Barred(cat, rows, t, todo[0]) || SomeBar(cat, Erase(InMemory(cat), rows, t, todo[0]).value, t, todo[1..]))
  }

  lemma {:induction false} UnwindsCompared(cat: Catalog, rows: Rows, t: Tenant, todo: seq<WrittenRow>)
    ensures Unwind(InMemory(cat), rows, t, todo).Some? ==>
      Unwind(InSql(cat), rows, t, todo) ==
      if SomeBar(cat, rows, t, todo) then None else Unwind(InMemory(cat), rows, t, todo)
    ensures Unwind(InSql(cat), rows, t, todo).Some? ==>
      Unwind(InMemory(cat), rows, t, todo) ==
      if SomeStop(cat, rows, t, todo) then None else Unwind(InSql(cat), rows, t, todo)
    decreases |todo|
  {
    if todo == [] {
    } else {
      ErasesCompared(cat, rows, t, todo[0]);
      var store, database := Erase(InMemory(cat), rows, t, todo[0]), Erase(InSql(cat), rows, t, todo[0]);
      if store.Some? { UnwindsCompared(cat, store.value, t, todo[1..]); }
      if database.Some? { UnwindsCompared(cat, database.value, t, todo[1..]); }
    }
  }

  ghost function Todo(db: Db, t: Tenant, generationId: string): seq<WrittenRow>
    requires (t, generationId) in db.written
  {
    SortLedger(db.written[(t, generationId)])
  }

  ghost predicate StillThere(db: Db, t: Tenant, generationId: string) {
    (t, generationId) in db.generations && db.generations[(t, generationId)].state == COMMITTED
  }

  /**
   * Whole deletes.  What is deleted in memory is deleted alike in the database unless some entry is
   * barred there; what is deleted in the database is deleted alike in memory unless some entry is
   * stopped there.  Otherwise both answer the same.
   */
  lemma DeletesCompared(cat: Catalog, db: Db, t: Tenant, generationId: string, now: int)
    requires Tracked(db)
    ensures var store, database :=
              DeleteNext(InMemory(cat), db, t, generationId, now), DeleteNext(InSql(cat), db, t, generationId, now);
      var there := StillThere(db, t, generationId);
      && (store.1.Deleted? ==>
            && (there ==> Unwind(InMemory(cat), db.rows, t, Todo(db, t, generationId)).Some?)
            && database == if there && SomeBar(cat, db.rows, t, Todo(db, t, generationId))
                           then (db, Refused(DeleteConflict)) else store)
      && (database.1.Deleted? ==>
            && (there ==> Unwind(InSql(cat), db.rows, t, Todo(db, t, generationId)).Some?)
            && store == if there && SomeStop(cat, db.rows, t, Todo(db, t, generationId))
                        then (db, Refused(DeleteConflict)) else database)
      && (!store.1.Deleted? && !database.1.Deleted? ==> store == database)
  {
    if StillThere(db, t, generationId) { UnwindsCompared(cat, db.rows, t, Todo(db, t, generationId)); }
  }

  /** Some other row, of whichever tenant, refers to this one with no null in the reference. */
  ghost predicate ReferredByOther(cat: Catalog, rows: Rows, t: Tenant, id: TableId, k: nat)
    requires k < |At(rows, t, id)|
  {
    exists u, source, fk, candidate ::
      RealReference(cat, Without(rows, t, id, k), u, id, At(rows, t, id)[k], source, fk, candidate)
  }

  /**
   * Over rows that keep the declared keys, a DELETE statement succeeds if and only if its key has no
   * null and finds exactly one row, and no other row of any tenant really refers to it.
   */
  lemma SqlEraseExactly(cat: Catalog, rows: Rows, t: Tenant, w: WrittenRow)
    requires cat.rules.InDatabase? && KeysHold(cat, rows, t) && TargetsAreKeys(cat) && w.table in cat.tables
    ensures Erase(cat, rows, t, w).Some? <==>
            && Filled(w.key) && |Matches(At(rows, t, w.table), w.key)| == 1
            && !ReferredByOther(cat, rows, t, w.table, Matches(At(rows, t, w.table), w.key)[0])
  {
    var m := Matches(At(rows, t, w.table), w.key);
    if |m| == 1 { PinnedExactly(cat, rows, t, w.table, m[0]); }
  }

  /** A real reference from another row is one that the removal would orphan: no second row can meet it. */
  lemma PinnedExactly(cat: Catalog, rows: Rows, t: Tenant, id: TableId, k: nat)
    requires cat.rules.InDatabase? && KeysHold(cat, rows, t) && TargetsAreKeys(cat) && id in cat.tables
    requires k < |At(rows, t, id)|
    ensures Pinned(cat, rows, t, id, k) <==> ReferredByOther(cat, rows, t, id, k)
  {
    var row, after := At(rows, t, id)[k], Without(rows, t, id, k);
    if Pinned(cat, rows, t, id, k) {
      var u :| Shares(cat, t, u) && OrphansOf(cat, after, u, id, row);
      var source, fk, candidate :| RealReference(cat, after, u, id, row, source, fk, candidate);
    }
    if ReferredByOther(cat, rows, t, id, k) {
      var u, source, fk, candidate :| RealReference(cat, after, u, id, row, source, fk, candidate);
      assert HasKey(cat, id, fk.targetColumns);
      NoSecondTarget(cat, rows, t, id, k, fk.targetColumns);
      forall v ensures !Meets(after, v, candidate, fk) {
        assert forall r | r in At(after, v, id) :: Tuple(r, fk.targetColumns) != Tuple(row, fk.targetColumns);
      }
      assert !Satisfied(cat, after, u, candidate, fk);
      assert OrphansOf(cat, after, u, id, row) && Shares(cat, t, u);
    }
  }

  lemma NoSecondTarget(cat: Catalog, rows: Rows, t: Tenant, id: TableId, k: nat, columns: seq<string>)
    requires cat.rules.InDatabase? && KeysHold(cat, rows, t) && HasKey(cat, id, columns) && k < |At(rows, t, id)|
    requires CNull !in Tuple(At(rows, t, id)[k], columns)
    ensures forall v, r {:trigger r in At(Without(rows, t, id, k), v, id)} ::
      r in At(Without(rows, t, id, k), v, id) ==> Tuple(r, columns) != Tuple(At(rows, t, id)[k], columns)
  {
    var table, after := At(rows, t, id), Without(rows, t, id, k);
    forall v, r | r in At(after, v, id) ensures Tuple(r, columns) != Tuple(table[k], columns) {
      if v == t {
        var cut := table[..k] + table[k + 1..];
        var i :| 0 <= i < |cut| && cut[i] == r;
        assert r == table[if i < k then i else i + 1];
        assert Distinct(table, columns);
      } else {
        assert Shares(cat, t, v) && KeysApart(cat, rows, t, v);
        assert Apart(table, At(rows, v, id), columns);
      }
    }
  }
}
