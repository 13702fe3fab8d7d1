// What the store's judgements come to, column by column and value by value.
module Judgements {
  import opened Values
  import opened Store

  // ---- equality -----------------------------------------------------------------------------

  /** The columns of one row carry what the columns of another do. */
  ghost predicate Agree(a: Row, aColumns: seq<string>, b: Row, bColumns: seq<string>) {
    |aColumns| == |bColumns| && forall i | 0 <= i < |aColumns| :: Same(Get(a, aColumns[i]), Get(b, bColumns[i]))
  }

  ghost predicate AnyNull(row: Row, columns: seq<string>) {
    exists c :: c in columns && Get(row, c).Null?
  }

  lemma TuplesAgree(a: Row, aColumns: seq<string>, b: Row, bColumns: seq<string>)
    ensures Tuple(a, aColumns) == Tuple(b, bColumns) <==> Agree(a, aColumns, b, bColumns)
  {
    var x, y := Tuple(a, aColumns), Tuple(b, bColumns);
    if Agree(a, aColumns, b, bColumns) {
      forall i | 0 <= i < |x| ensures x[i] == y[i] {
        CanonIsSame(Get(a, aColumns[i]), Get(b, bColumns[i]));
      }
    }
    if x == y {
      assert |aColumns| == |x| == |y| == |bColumns|;
      forall i | 0 <= i < |aColumns| ensures Same(Get(a, aColumns[i]), Get(b, bColumns[i])) {
        assert x[i] == y[i];
        CanonIsSame(Get(a, aColumns[i]), Get(b, bColumns[i]));
      }
    }
  }

  lemma TupleNull(row: Row, columns: seq<string>)
    ensures CNull in Tuple(row, columns) <==> AnyNull(row, columns)
  {
    var x := Tuple(row, columns);
    if CNull in x {
      var i :| 0 <= i < |x| && x[i] == CNull;
      CanonIsSame(Get(row, columns[i]), Null);
      assert columns[i] in columns;
    }
    if AnyNull(row, columns) {
      var c :| c in columns && Get(row, c).Null?;
      var i :| 0 <= i < |columns| && columns[i] == c;
      assert x[i] == CNull;
    }
  }

  // ---- inserting ----------------------------------------------------------------------------

  /** The table is there, the required columns are written, and the column types are those declared. */
  ghost predicate WellShaped(cat: Catalog, x: Insertion) {
    && x.table in cat.tables
    && (forall c | c in cat.tables[x.table].required :: c in x.row && (cat.rules.InDatabase? ==> !x.row[c].Null?))
    && (forall c | c in x.types ::
          c in cat.tables[x.table].columns && cat.tables[x.table].columns[c] == x.types[c])
  }

  /** Some row that t's writes are checked against, or in the database the new row itself, is referred to. */
  ghost predicate HasTarget(cat: Catalog, rows: Rows, t: Tenant, x: Insertion, fk: ForeignKey) {
    || (exists u, target :: IsTarget(cat, rows, t, x, fk, u, target))
    || (cat.rules.InDatabase? && fk.target == x.table && Agree(x.row, fk.targetColumns, x.row, fk.columns))
  }

  ghost predicate IsTarget(
    cat: Catalog, rows: Rows, t: Tenant, x: Insertion, fk: ForeignKey, u: Tenant, target: Row)
  {
    && (cat.rules.InStore? ==> u == t) && target in At(rows, u, fk.target)
    && Agree(target, fk.targetColumns, x.row, fk.columns)
  }

  /** Some row that t's writes are checked against carries the key. */
  ghost predicate IsHeld(cat: Catalog, rows: Rows, t: Tenant, x: Insertion, key: seq<string>) {
    exists u, item :: (cat.rules.InStore? ==> u == t) && item in At(rows, u, x.table) && Agree(item, key, x.row, key)
  }

  ghost predicate ReferencesMet(cat: Catalog, rows: Rows, t: Tenant, x: Insertion)
    requires x.table in cat.tables
  {
    forall fk | fk in cat.tables[x.table].foreignKeys ::
      AnyNull(x.row, fk.columns) || HasTarget(cat, rows, t, x, fk)
  }

  ghost predicate KeysFree(cat: Catalog, rows: Rows, t: Tenant, x: Insertion)
    requires x.table in cat.tables
  {
    forall key | key in cat.tables[x.table].uniqueKeys ::
      AnyNull(x.row, key) || !IsHeld(cat, rows, t, x, key)
  }

  lemma TargetExactly(cat: Catalog, rows: Rows, t: Tenant, x: Insertion, fk: ForeignKey)
    ensures Satisfied(cat, Seen(cat, rows, t, x), t, x.row, fk) <==>
            AnyNull(x.row, fk.columns) || HasTarget(cat, rows, t, x, fk)
  {
    TupleNull(x.row, fk.columns);
    forall target ensures Tuple(target, fk.targetColumns) == Tuple(x.row, fk.columns) <==>
                          Agree(target, fk.targetColumns, x.row, fk.columns)
    {
      TuplesAgree(target, fk.targetColumns, x.row, fk.columns);
    }
    var seen := Seen(cat, rows, t, x);
    if HasTarget(cat, rows, t, x, fk) {
      if u, target :| IsTarget(cat, rows, t, x, fk, u, target) {
        assert target in At(seen, u, fk.target);
        assert Shares(cat, t, u) && Meets(seen, u, x.row, fk);
      } else {
        assert At(seen, t, x.table)[|At(rows, t, x.table)|] == x.row;
        assert Shares(cat, t, t) && Meets(seen, t, x.row, fk);
      }
    }
    if Satisfied(cat, seen, t, x.row, fk) && CNull !in Tuple(x.row, fk.columns) {
      var u :| Shares(cat, t, u) && Meets(seen, u, x.row, fk);
      var target :| target in At(seen, u, fk.target) && Tuple(target, fk.targetColumns) == Tuple(x.row, fk.columns);
      assert IsTarget(cat, rows, t, x, fk, u, target)
             || (cat.rules.InDatabase? && fk.target == x.table && target == x.row);
    }
  }

  lemma ClashExactly(cat: Catalog, rows: Rows, t: Tenant, x: Insertion)
    requires x.table in cat.tables
    ensures Clashes(cat, cat.tables[x.table], rows, t, x.table, x.row) <==> !KeysFree(cat, rows, t, x)
  {
    var def := cat.tables[x.table];
    forall key, item ensures Tuple(item, key) == Tuple(x.row, key) <==> Agree(item, key, x.row, key) {
      TuplesAgree(item, key, x.row, key);
    }
    forall key ensures CNull in Tuple(x.row, key) <==> AnyNull(x.row, key) {
      TupleNull(x.row, key);
    }
    if Clashes(cat, def, rows, t, x.table, x.row) {
      var u :| Shares(cat, t, u) && Conflicts(def, At(rows, u, x.table), x.row);
      var key :| key in def.uniqueKeys && Taken(At(rows, u, x.table), x.row, key);
      assert IsHeld(cat, rows, t, x, key);
    }
    if !KeysFree(cat, rows, t, x) {
      var key :| key in def.uniqueKeys && !AnyNull(x.row, key) && IsHeld(cat, rows, t, x, key);
      var u, item :| (cat.rules.InStore? ==> u == t) && item in At(rows, u, x.table) && Agree(item, key, x.row, key);
      assert Taken(At(rows, u, x.table), x.row, key);
      assert Shares(cat, t, u) && Conflicts(def, At(rows, u, x.table), x.row);
    }
  }

  /**
   * A row is taken if and only if it has the shape of its table, each foreign key without nulls has a
   * target, and no declared key without nulls is held.  A row of another shape is DESTINATION_INVALID,
   * any other that is not taken DESTINATION_CONFLICT.
   */
  lemma TakenExactly(cat: Catalog, rows: Rows, t: Tenant, x: Insertion)
    ensures Refusal(cat, rows, t, x) ==
      if !WellShaped(cat, x) then Some(DestinationInvalid)
      else if !ReferencesMet(cat, rows, t, x) || !KeysFree(cat, rows, t, x) then Some(DestinationConflict)
      else None
  {
    if x.table in cat.tables {
      var def := cat.tables[x.table];
      forall fk ensures Satisfied(cat, Seen(cat, rows, t, x), t, x.row, fk) <==>
                        AnyNull(x.row, fk.columns) || HasTarget(cat, rows, t, x, fk)
      {
        TargetExactly(cat, rows, t, x, fk);
      }
      ClashExactly(cat, rows, t, x);
      assert Supplied(cat, def, x.row) <==>
             forall c | c in def.required :: c in x.row && (cat.rules.InDatabase? ==> !x.row[c].Null?) by {
        forall c | c in x.row ensures Canon(x.row[c]) == CNull <==> x.row[c].Null? {
          CanonIsSame(x.row[c], Null);
        }
      }
    }
  }

  // ---- staging ------------------------------------------------------------------------------

  /** The rows of every table after some insertions of one tenant, in order. */
  ghost predicate Holds(rows: Rows, before: Rows, t: Tenant, ins: seq<Insertion>) {
    forall u, id {:trigger At(rows, u, id)} ::
      At(rows, u, id) == At(before, u, id) + (if u == t then RowsFor(ins, id) else [])
  }

  /** Insertion k comes upon exactly the rows before it, and is not taken. */
  ghost predicate StopsAt(cat: Catalog, rows: Rows, t: Tenant, ins: seq<Insertion>, k: int, error: Error) {
    0 <= k < |ins| && exists staged ::
      && StageAll(cat, rows, t, ins[..k]) == Ok(staged) && Holds(staged, rows, t, ins[..k])
      && Refusal(cat, staged, t, ins[k]) == Some(error)
  }

  /** A batch is staged whole, or stops at its first insertion that is not taken, with that one's error. */
  lemma {:induction false} StagedExactly(cat: Catalog, rows: Rows, t: Tenant, ins: seq<Insertion>)
    ensures var r := StageAll(cat, rows, t, ins);
      && (r.Ok? ==> Holds(r.value, rows, t, ins))
      && (r.Err? ==> exists k :: StopsAt(cat, rows, t, ins, k, r.error))
  {
    if StageAll(cat, rows, t, ins).Ok? {
      forall u, id
        ensures At(StageAll(cat, rows, t, ins).value, u, id) ==
                At(rows, u, id) + (if u == t then RowsFor(ins, id) else [])
      {
        StagedRows(cat, rows, t, ins, u, id);
      }
    } else {
      var n, e := |ins| - 1, StageAll(cat, rows, t, ins).error;
      var before := StageAll(cat, rows, t, ins[..n]);
      StagedExactly(cat, rows, t, ins[..n]);
      if before.Ok? {
        assert StopsAt(cat, rows, t, ins, n, e);
      } else {
        var k :| StopsAt(cat, rows, t, ins[..n], k, e);
        assert ins[..n][..k] == ins[..k];
        assert StopsAt(cat, rows, t, ins, k, e);
      }
    }
  }

  /** In a successful staging every row had the shape of its table: its columns are there, with their declared types. */
  lemma {:induction false} StagedShapes(cat: Catalog, rows: Rows, t: Tenant, ins: seq<Insertion>)
    requires StageAll(cat, rows, t, ins).Ok?
    ensures forall x | x in ins :: WellShaped(cat, x)
  {
    if ins == [] {
    } else {
      var n := |ins| - 1;
      StagedShapes(cat, rows, t, ins[..n]);
      TakenExactly(cat, StageAll(cat, rows, t, ins[..n]).value, t, ins[n]);
    }
  }

  // ---- committing -----------------------------------------------------------------------------

  /** A key is found if and only if it is bound to a generation id, not the empty one, that is there. */
  lemma FoundExactly(db: Db, t: Tenant, key: string, g: Generation)
    ensures FindIdempotent(db, t, key) == Some(g) <==>
      exists id :: id != "" && (t, key) in db.idempotency && db.idempotency[(t, key)] == id
        && (t, id) in db.generations && db.generations[(t, id)] == g
  {
  }

  /**
   * The commit of a key that is found: a replay if the request is the recorded one, otherwise the key
   * is reused.  The in-memory store records the digest by key, the database in the generation.
   */
  lemma KnownKeyExactly(cat: Catalog, db: Db, t: Tenant, key: string, b: Batch, now: int, g: Generation)
    requires Tracked(db) && FindIdempotent(db, t, key) == Some(g)
    ensures CommitNext(cat, db, t, key, b, now).0 == db
    ensures var recorded := if cat.rules.InStore? then db.digests[(t, key)] else g.header.requestDigest;
      CommitNext(cat, db, t, key, b, now).1 ==
      if recorded == b.header.requestDigest then Committed(g, true) else Refused(IdempotencyKeyReused)
  {
  }

  /**
   * The metadata's unique constraints: in the database a batch that stages is still refused, and leaves
   * nothing, if its generation id is taken, or its key is bound to anything at all.
   */
  lemma TakenMetadataConflicts(cat: Catalog, db: Db, t: Tenant, key: string, b: Batch, now: int)
    requires cat.rules.InDatabase?
    requires Tracked(db) && FindIdempotent(db, t, key) == None && StageAll(cat, db.rows, t, b.ins).Ok?
    ensures var taken := (t, b.header.generationId) in db.generations || (t, key) in db.idempotency;
      && (taken ==> CommitNext(cat, db, t, key, b, now) == (db, Refused(DestinationConflict)))
      && (!taken ==> Writes(cat, db, t, key, b))
  {
  }

  // ---- deleting -----------------------------------------------------------------------------

  /** The row carries every value of the written key. */
  ghost predicate Carries(row: Row, key: Row) {
    forall c | c in key :: Same(Get(row, c), key[c])
  }

  lemma CarriesExactly(row: Row, key: Row)
    ensures RowMatches(row, key) <==> Carries(row, key)
  {
    forall c | c in key ensures Canon(Get(row, c)) == Canon(key[c]) <==> Same(Get(row, c), key[c]) {
      CanonIsSame(Get(row, c), key[c]);
    }
  }

  ghost predicate OnlyCarrier(table: seq<Row>, key: Row, k: nat) {
    k < |table| && forall i | 0 <= i < |table| :: Carries(table[i], key) <==> i == k
  }

  /** Some row of the tenant refers to the row: null for null, itself included. */
  ghost predicate Referred(cat: Catalog, rows: Rows, t: Tenant, id: TableId, row: Row) {
    exists source, fk, candidate ::
      && source in cat.tables && fk in cat.tables[source].foreignKeys && fk.target == id
      && candidate in At(rows, t, source) && Agree(candidate, fk.columns, row, fk.targetColumns)
  }

  lemma ReferredExactly(cat: Catalog, rows: Rows, t: Tenant, id: TableId, row: Row)
    ensures HasReference(cat, rows, t, id, row) <==> Referred(cat, rows, t, id, row)
  {
    forall fk: ForeignKey, candidate
      ensures Refers(fk, candidate, row) <==> Agree(candidate, fk.columns, row, fk.targetColumns)
    {
      TuplesAgree(candidate, fk.columns, row, fk.targetColumns);
    }
    if Referred(cat, rows, t, id, row) {
      var source, fk, candidate :|
        source in cat.tables && fk in cat.tables[source].foreignKeys && fk.target == id
        && candidate in At(rows, t, source) && Agree(candidate, fk.columns, row, fk.targetColumns);
      assert Refers(fk, candidate, row);
      assert ReferredBy(cat, rows, t, id, row, source);
    }
    if HasReference(cat, rows, t, id, row) {
      var source :| ReferredBy(cat, rows, t, id, row, source);
      var fk, candidate :| fk in cat.tables[source].foreignKeys && fk.target == id
        && candidate in At(rows, t, source) && Refers(fk, candidate, row);
      assert Agree(candidate, fk.columns, row, fk.targetColumns);
    }
  }

  /** A row, of whichever tenant, has a reference without nulls to the one gone, and no target left. */
  ghost predicate Stranded(
    cat: Catalog, after: Rows, id: TableId, row: Row, u: Tenant, source: TableId, fk: ForeignKey, r: Row)
  {
    && source in cat.tables && fk in cat.tables[source].foreignKeys && fk.target == id && r in At(after, u, source)
    && !AnyNull(r, fk.columns) && Agree(r, fk.columns, row, fk.targetColumns)
    && forall v, target | target in At(after, v, fk.target) :: !Agree(target, fk.targetColumns, r, fk.columns)
  }

  ghost predicate AnyStranded(cat: Catalog, after: Rows, id: TableId, row: Row) {
    exists u, source, fk, r :: Stranded(cat, after, id, row, u, source, fk, r)
  }

  lemma StrandedExactly(
    cat: Catalog, after: Rows, id: TableId, row: Row, u: Tenant, source: TableId, fk: ForeignKey, r: Row)
    requires cat.rules.InDatabase?
    ensures Stranded(cat, after, id, row, u, source, fk, r) <==>
            RealReference(cat, after, u, id, row, source, fk, r) && !Satisfied(cat, after, u, r, fk)
  {
    TupleNull(r, fk.columns);
    TuplesAgree(r, fk.columns, row, fk.targetColumns);
    forall target ensures Tuple(target, fk.targetColumns) == Tuple(r, fk.columns) <==>
                          Agree(target, fk.targetColumns, r, fk.columns)
    {
      TuplesAgree(target, fk.targetColumns, r, fk.columns);
    }
    if !AnyNull(r, fk.columns) {
      if v, target :| target in At(after, v, fk.target) && Agree(target, fk.targetColumns, r, fk.columns) {
        assert Shares(cat, u, v) && Meets(after, v, r, fk);
      }
      if Satisfied(cat, after, u, r, fk) {
        var v :| Shares(cat, u, v) && Meets(after, v, r, fk);
      }
    }
  }

  lemma OrphanExactly(cat: Catalog, after: Rows, t: Tenant, id: TableId, row: Row)
    requires cat.rules.InDatabase?
    ensures LeavesOrphan(cat, after, t, id, row) <==> AnyStranded(cat, after, id, row)
  {
    forall u, source, fk, r
      ensures Stranded(cat, after, id, row, u, source, fk, r) <==>
              RealReference(cat, after, u, id, row, source, fk, r) && !Satisfied(cat, after, u, r, fk)
    {
      StrandedExactly(cat, after, id, row, u, source, fk, r);
    }
    if AnyStranded(cat, after, id, row) {
      var u, source, fk, r :| Stranded(cat, after, id, row, u, source, fk, r);
      assert Shares(cat, t, u) && OrphansOf(cat, after, u, id, row);
    }
  }

  /** What keeps the row at k from being deleted. */
  ghost predicate Kept(cat: Catalog, rows: Rows, t: Tenant, id: TableId, k: nat)
    requires k < |At(rows, t, id)|
  {
    var row := At(rows, t, id)[k];
    if cat.rules.InStore? then Referred(cat, rows, t, id, row)
    else AnyStranded(cat, Without(rows, t, id, k), id, row)
  }

  lemma OnlyMatchExactly(table: seq<Row>, key: Row, k: nat)
    ensures Matches(table, key) == [k] <==> OnlyCarrier(table, key, k)
  {
    forall i | 0 <= i < |table| ensures RowMatches(table[i], key) <==> Carries(table[i], key) {
      CarriesExactly(table[i], key);
    }
    if Matches(table, key) == [k] {
      assert Matches(table, key)[0] == k;
      forall i | 0 <= i < |table| ensures Carries(table[i], key) <==> i == k {
        if RowMatches(table[i], key) { MatchesHas(table, key, i); }
      }
    }
    if OnlyCarrier(table, key, k) {
      MatchesExactly(table, key, k);
    }
  }

  lemma {:induction false} MatchesExactly(table: seq<Row>, key: Row, k: nat)
    requires k < |table| && forall i | 0 <= i < |table| :: RowMatches(table[i], key) <==> i == k
    ensures Matches(table, key) == [k]
  {
    var n := |table| - 1;
    if k == n {
      NoMatches(table[..n], key);
    } else {
      MatchesExactly(table[..n], key, k);
    }
  }

  lemma {:induction false} NoMatches(table: seq<Row>, key: Row)
    requires forall r | r in table :: !RowMatches(r, key)
    ensures Matches(table, key) == []
  {
    if table == [] {
    } else {
      assert table[|table| - 1] in table;
      NoMatches(table[..|table| - 1], key);
    }
  }

  /**
   * A ledger entry is erased if and only if exactly one row of the tenant's table carries the written
   * key (in the database one without nulls) and nothing keeps it; then that row, and no other, is gone.
   */
  lemma ErasedExactly(cat: Catalog, rows: Rows, t: Tenant, w: WrittenRow, k: nat)
    requires OnlyCarrier(At(rows, t, w.table), w.key, k)
    ensures Erase(cat, rows, t, w) ==
      if (cat.rules.InDatabase? && exists c :: c in w.key && w.key[c].Null?) || Kept(cat, rows, t, w.table, k)
      then None else Some(rows[(t, w.table) := At(rows, t, w.table)[..k] + At(rows, t, w.table)[k + 1..]])
  {
    OnlyMatchExactly(At(rows, t, w.table), w.key, k);
    ReferredExactly(cat, rows, t, w.table, At(rows, t, w.table)[k]);
    if cat.rules.InDatabase? {
      OrphanExactly(cat, Without(rows, t, w.table, k), t, w.table, At(rows, t, w.table)[k]);
      forall c | c in w.key ensures Canon(w.key[c]) == CNull <==> w.key[c].Null? {
        CanonIsSame(w.key[c], Null);
      }
    }
  }

  lemma NotErased(cat: Catalog, rows: Rows, t: Tenant, w: WrittenRow)
    requires forall k :: !OnlyCarrier(At(rows, t, w.table), w.key, k)
    ensures Erase(cat, rows, t, w) == None
  {
    var m := Matches(At(rows, t, w.table), w.key);
    if |m| == 1 {
      assert m == [m[0]];
      OnlyMatchExactly(At(rows, t, w.table), w.key, m[0]);
    }
  }
}
