// A commit followed at once by its delete: when it succeeds, and that it restores every table.
module Undo {
  import opened Values
  import opened Store
  import opened Integrity
  import opened Isolation

  /** The written key is usable and not yet present, and nothing pins the new row once it is in. */
  ghost predicate RowClear(cat: Catalog, before: Rows, t: Tenant, x: Insertion) {
    && (cat.rules.InDatabase? ==> Filled(x.Key()))
    && NoneMatch(At(before, t, x.table), x.Key())
    && !Pinned(cat, Put(before, t, x), t, x.table, |At(before, t, x.table)|)
  }

  /** Every new row is clear at the moment it is inserted.  Readable off the former state and the write. */
  ghost predicate UndoClear(cat: Catalog, rows: Rows, t: Tenant, ins: seq<Insertion>)
    requires StageAll(cat, rows, t, ins).Ok?
  {
    ins == [] ||
    var n := |ins| - 1;
    UndoClear(cat, rows, t, ins[..n]) && RowClear(cat, StageAll(cat, rows, t, ins[..n]).value, t, ins[n])
  }

  lemma OwnRowMatches(x: Insertion)
    ensures RowMatches(x.row, x.Key())
  {
  }

  /** Erasing the row just put succeeds exactly if the row is clear. */
  lemma EraseNeedsClear(cat: Catalog, rows: Rows, t: Tenant, x: Insertion, w: WrittenRow)
    requires w.table == x.table && w.key == x.Key()
    ensures Erase(cat, Put(rows, t, x), t, w).Some? <==> RowClear(cat, rows, t, x)
  {
    var before := At(rows, t, x.table);
    OwnRowMatches(x);
    LastIsOnly(before, x.row, w.key);
    if |Matches(before + [x.row], w.key)| == 1 {
      MatchesOnly(before + [x.row], w.key, |before|);
    }
  }

  /** Cutting the last row off again. */
  lemma CutRestores(rows: Rows, t: Tenant, x: Insertion, u: Tenant)
    ensures SameFor(Without(Put(rows, t, x), t, x.table, |At(rows, t, x.table)|), rows, u)
  {
    var before, k := At(rows, t, x.table), |At(rows, t, x.table)|;
    assert (before + [x.row])[..k] + (before + [x.row])[k + 1..] == before;
  }

  lemma EraseRestores(cat: Catalog, rows: Rows, t: Tenant, x: Insertion, w: WrittenRow, u: Tenant)
    requires w.table == x.table && w.key == x.Key()
    requires Erase(cat, Put(rows, t, x), t, w).Some?
    ensures SameFor(Erase(cat, Put(rows, t, x), t, w).value, rows, u)
  {
    OwnRowMatches(x);
    MatchesOnly(At(Put(rows, t, x), t, x.table), w.key, |At(rows, t, x.table)|);
    CutRestores(rows, t, x, u);
  }

  ghost predicate NoneMatch(table: seq<Row>, key: Row) {
    forall r | r in table :: !RowMatches(r, key)
  }

  lemma LastIsOnly(before: seq<Row>, row: Row, key: Row)
    requires RowMatches(row, key)
    ensures |Matches(before + [row], key)| == 1 <==> NoneMatch(before, key)
  {
    var earlier := Matches(before, key);
    assert (before + [row])[..|before|] == before;
    assert Matches(before + [row], key) == earlier + [|before|];
    if earlier != [] {
      assert before[earlier[0]] in before;
    } else {
      forall r | r in before ensures !RowMatches(r, key) {
        var j :| 0 <= j < |before| && before[j] == r;
        if RowMatches(r, key) { MatchesHas(before, key, j); }
      }
    }
  }

  lemma ReverseHead(ins: seq<Insertion>)
    requires ins != []
    ensures Reverse(LedgerOf(ins)) == [Entry(ins, |ins| - 1)] + Reverse(LedgerOf(ins[..|ins| - 1]))
  {
    assert LedgerOf(ins)[..|ins| - 1] == LedgerOf(ins[..|ins| - 1]);
    assert LedgerOf(ins)[|ins| - 1] == Entry(ins, |ins| - 1);
  }

  /** Unwinding the reversed ledger from the staged rows. */
  lemma {:induction false} UnwindUndoesStaging(cat: Catalog, rows: Rows, t: Tenant, ins: seq<Insertion>)
    requires StageAll(cat, rows, t, ins).Ok?
    ensures var undone := Unwind(cat, StageAll(cat, rows, t, ins).value, t, Reverse(LedgerOf(ins)));
      && (undone.Some? <==> UndoClear(cat, rows, t, ins))
      && (undone.Some? ==> forall u :: SameFor(undone.value, rows, u))
    decreases |ins|
  {
    if ins == [] {
    } else {
      var n := |ins| - 1;
      ReverseHead(ins);
      var mid, full := StageAll(cat, rows, t, ins[..n]).value, StageAll(cat, rows, t, ins).value;
      assert full == Put(mid, t, ins[n]);
      var todo, rest := Reverse(LedgerOf(ins)), Reverse(LedgerOf(ins[..n]));
      assert todo[0] == Entry(ins, n) && todo[1..] == rest;
      EraseNeedsClear(cat, mid, t, ins[n], todo[0]);
      UnwindUndoesStaging(cat, rows, t, ins[..n]);
      var next := Erase(cat, full, t, todo[0]);
      if next.Some? {
        forall u ensures SameFor(next.value, mid, u) { EraseRestores(cat, mid, t, ins[n], todo[0], u); }
        assert Alike(cat, next.value, mid, t);
        UnwindSame(cat, next.value, mid, t, rest);
        OthersRestored(cat, next.value, rows, mid, t, ins[..n], rest);
      }
    }
  }

  lemma OthersRestored(
    cat: Catalog, a: Rows, rows: Rows, mid: Rows, t: Tenant, ins: seq<Insertion>, rest: seq<WrittenRow>)
    requires StageAll(cat, rows, t, ins) == Ok(mid) && forall u :: SameFor(a, mid, u)
    requires SameUndone(cat, Unwind(cat, a, t, rest), Unwind(cat, mid, t, rest), t)
    requires Unwind(cat, mid, t, rest).Some? ==> SameFor(Unwind(cat, mid, t, rest).value, rows, t)
    ensures Unwind(cat, a, t, rest).Some? ==> forall u :: SameFor(Unwind(cat, a, t, rest).value, rows, u)
  {
    if Unwind(cat, a, t, rest).Some? {
      forall u ensures SameFor(Unwind(cat, a, t, rest).value, rows, u) {
        if u != t {
          UnwindSparesOthers(cat, a, t, rest, u);
          StagingSparesOthers(cat, rows, t, ins, u);
          assert SameFor(a, mid, u);
        } else {
          assert SameFor(Unwind(cat, a, t, rest).value, Unwind(cat, mid, t, rest).value, t);
        }
      }
    }
  }

  /**
   * Deleting a generation right after committing it succeeds exactly when the undo is clear, and
   * then every table of every tenant is back to its former row sequence.  Otherwise nothing changes.
   */
  lemma DeleteUndoesCommit(cat: Catalog, db: Db, t: Tenant, key: string, b: Batch, now: int, later: int)
    requires Tracked(db) && RanksFall(b.ins)
    requires FindIdempotent(db, t, key) == None && CommitNext(cat, db, t, key, b, now).1.Committed?
    ensures StageAll(cat, db.rows, t, b.ins).Ok?
    ensures var committed := CommitNext(cat, db, t, key, b, now).0;
      var (after, reply) := DeleteNext(cat, committed, t, b.header.generationId, later);
      if UndoClear(cat, db.rows, t, b.ins)
      then reply.Deleted? && forall u :: SameFor(after.rows, db.rows, u)
      else reply == Refused(DeleteConflict) && after == committed
  {
    SortedLedgerReverses(b.ins);
    UnwindUndoesStaging(cat, db.rows, t, b.ins);
  }

  // ---- when the undo is always clear ---------------------------------------------

  /** Every foreign key into a known table targets one of its declared unique keys. */
  ghost predicate TargetsAreKeys(cat: Catalog) {
    forall source, fk | source in cat.tables && fk in cat.tables[source].foreignKeys && fk.target in cat.tables ::
      fk.targetColumns in cat.tables[fk.target].uniqueKeys
  }

  /** The written key covers a declared unique key that the row fills in. */
  ghost predicate KeyIdentifies(def: TableDef, x: Insertion) {
    exists u | u in def.uniqueKeys :: CNull !in Tuple(x.row, u) && forall c | c in u :: c in x.keyColumns
  }

  /** The row is non-null in every column group that some foreign key points at. */
  ghost predicate ReferableColumnsFilled(cat: Catalog, x: Insertion) {
    forall source, fk | source in cat.tables && fk in cat.tables[source].foreignKeys && fk.target == x.table ::
      CNull !in Tuple(x.row, fk.targetColumns)
  }

  /** What a row needs to be removable again under the catalog's rules. */
  ghost predicate UndoableRow(cat: Catalog, x: Insertion) {
    && (cat.rules.InDatabase? ==> Filled(x.Key()))
    && (x.table in cat.tables ==> KeyIdentifies(cat.tables[x.table], x))
    && (cat.rules.InStore? && x.table in cat.tables ==> ReferableColumnsFilled(cat, x))
  }

  lemma MatchingTuple(r: Row, x: Insertion, u: seq<string>)
    requires CNull !in Tuple(x.row, u) && (forall c | c in u :: c in x.keyColumns) && RowMatches(r, x.Key())
    ensures Tuple(r, u) == Tuple(x.row, u)
  {
    forall i | 0 <= i < |u| ensures Tuple(r, u)[i] == Tuple(x.row, u)[i] {
      assert Tuple(x.row, u)[i] in Tuple(x.row, u);
      assert u[i] in u;
      assert u[i] in x.Key();
    }
  }

  lemma KeyIsNew(cat: Catalog, before: Rows, t: Tenant, x: Insertion)
    requires Refusal(cat, before, t, x) == None && KeyIdentifies(cat.tables[x.table], x)
    ensures NoneMatch(At(before, t, x.table), x.Key())
  {
    var u :|
      u in cat.tables[x.table].uniqueKeys && CNull !in Tuple(x.row, u) && forall c | c in u :: c in x.keyColumns;
    NotTaken(cat, before, t, x, t, u);
    forall r | r in At(before, t, x.table) ensures !RowMatches(r, x.Key()) {
      if RowMatches(r, x.Key()) { MatchingTuple(r, x, u); }
    }
  }

  /** Some row, the new one included, has a reference that equals the new row's target columns null for null. */
  ghost predicate NullReferred(cat: Catalog, before: Rows, t: Tenant, x: Insertion) {
    exists source, fk, candidate :: NullReference(cat, Put(before, t, x), t, x, source, fk, candidate)
  }

  ghost predicate NullReference(
    cat: Catalog, rows: Rows, t: Tenant, x: Insertion, source: TableId, fk: ForeignKey, candidate: Row)
  {
    && source in cat.tables && fk in cat.tables[source].foreignKeys && fk.target == x.table
    && candidate in At(rows, t, source) && Refers(fk, candidate, x.row) && CNull in Tuple(candidate, fk.columns)
  }

  /** In the in-memory store only nulls can refer to a new row: a real reference would have had to be met before. */
  lemma NewRowReferredByNulls(cat: Catalog, before: Rows, t: Tenant, x: Insertion)
    requires cat.rules.InStore? && TargetsAreKeys(cat) && ReferencesHold(cat, before, t)
    requires Refusal(cat, before, t, x) == None
    ensures HasReference(cat, Put(before, t, x), t, x.table, x.row) <==> NullReferred(cat, before, t, x)
  {
    var after := Put(before, t, x);
    if HasReference(cat, after, t, x.table, x.row) {
      var source :| ReferredBy(cat, after, t, x.table, x.row, source);
      var fk, candidate :|
        fk in cat.tables[source].foreignKeys && fk.target == x.table
        && candidate in At(after, t, source) && Refers(fk, candidate, x.row);
      RealReferenceImpossible(cat, before, t, x, source, fk, candidate);
      assert NullReference(cat, after, t, x, source, fk, candidate);
    }
    if NullReferred(cat, before, t, x) {
      var source, fk, candidate :| NullReference(cat, after, t, x, source, fk, candidate);
      assert ReferredBy(cat, after, t, x.table, x.row, source);
    }
  }

  lemma RealReferenceImpossible(
    cat: Catalog, before: Rows, t: Tenant, x: Insertion, source: TableId, fk: ForeignKey, candidate: Row)
    requires cat.rules.InStore? && TargetsAreKeys(cat) && ReferencesHold(cat, before, t)
    requires Refusal(cat, before, t, x) == None
    requires source in cat.tables && fk in cat.tables[source].foreignKeys && fk.target == x.table
    requires candidate in At(Put(before, t, x), t, source) && Refers(fk, candidate, x.row)
    ensures CNull in Tuple(candidate, fk.columns)
  {
    if CNull !in Tuple(candidate, fk.columns) {
      assert candidate in At(before, t, source) || (source == x.table && candidate == x.row);
      assert ForeignKeysMet(cat, cat.tables[source], before, t, candidate);
      assert Satisfied(cat, before, t, candidate, fk);
      assert Meets(before, t, candidate, fk);
      assert Taken(At(before, t, x.table), x.row, fk.targetColumns);
      NotTaken(cat, before, t, x, t, fk.targetColumns);
    }
  }

  /** References hold for everyone whose rows t's writes are checked against. */
  ghost predicate SharedReferencesHold(cat: Catalog, rows: Rows, t: Tenant) {
    forall u | Shares(cat, t, u) :: ReferencesHold(cat, rows, u)
  }

  /** In the database nothing real refers to a new row but itself, so taking it out leaves no orphan. */
  lemma NewRowLeavesNoOrphan(cat: Catalog, before: Rows, t: Tenant, x: Insertion)
    requires SharedReferencesHold(cat, before, t)
    ensures !LeavesOrphan(
      cat, Without(Put(before, t, x), t, x.table, |At(before, t, x.table)|), t, x.table, x.row)
  {
    var after := Without(Put(before, t, x), t, x.table, |At(before, t, x.table)|);
    forall u ensures SameFor(after, before, u) { CutRestores(before, t, x, u); }
    if LeavesOrphan(cat, after, t, x.table, x.row) {
      OrphanSame(cat, after, before, t, x.table, x.row);
      NoOrphanIfConsistent(cat, before, t, x.table, x.row);
    }
  }

  lemma NoOrphanIfConsistent(cat: Catalog, rows: Rows, t: Tenant, id: TableId, row: Row)
    requires SharedReferencesHold(cat, rows, t)
    ensures !LeavesOrphan(cat, rows, t, id, row)
  {
    forall u | Shares(cat, t, u) ensures !OrphansOf(cat, rows, u, id, row) {
      assert ReferencesHold(cat, rows, u);
    }
  }

  lemma StagingKeepsShared(cat: Catalog, rows: Rows, t: Tenant, ins: seq<Insertion>)
    requires SharedReferencesHold(cat, rows, t) && StageAll(cat, rows, t, ins).Ok?
    ensures SharedReferencesHold(cat, StageAll(cat, rows, t, ins).value, t)
  {
    forall u | Shares(cat, t, u) ensures ReferencesHold(cat, StageAll(cat, rows, t, ins).value, u) {
      StagingKeepsConsistent(cat, rows, t, ins, u);
    }
  }

  /** When the written key identifies, the one thing in the way of an undo is a null that refers to a null. */
  lemma RowClearExactly(cat: Catalog, before: Rows, t: Tenant, x: Insertion)
    requires SharedReferencesHold(cat, before, t) && Refusal(cat, before, t, x) == None
    requires KeyIdentifies(cat.tables[x.table], x)
    requires if cat.rules.InStore? then TargetsAreKeys(cat) else Filled(x.Key())
    ensures RowClear(cat, before, t, x) <==> cat.rules.InDatabase? || !NullReferred(cat, before, t, x)
  {
    KeyIsNew(cat, before, t, x);
    assert At(Put(before, t, x), t, x.table)[|At(before, t, x.table)|] == x.row;
    assert Shares(cat, t, t) && ReferencesHold(cat, before, t);
    if cat.rules.InStore? {
      NewRowReferredByNulls(cat, before, t, x);
    } else {
      NewRowLeavesNoOrphan(cat, before, t, x);
    }
  }

  /** No new row is referred to by nulls when it comes in. */
  ghost predicate NoNullReferences(cat: Catalog, rows: Rows, t: Tenant, ins: seq<Insertion>)
    requires StageAll(cat, rows, t, ins).Ok?
  {
    ins == [] ||
    var n := |ins| - 1;
    NoNullReferences(cat, rows, t, ins[..n]) && !NullReferred(cat, StageAll(cat, rows, t, ins[..n]).value, t, ins[n])
  }

  /**
   * Over references that held before and written keys that cover a filled unique key: the database
   * can always undo a commit, and the in-memory store can if and only if no new row is referred to
   * by nulls.  Existing rows need not be unique, and no order of the insertions is assumed.
   */
  lemma {:induction false} UndoClearExactly(cat: Catalog, rows: Rows, t: Tenant, ins: seq<Insertion>)
    requires SharedReferencesHold(cat, rows, t) && StageAll(cat, rows, t, ins).Ok?
    requires cat.rules.InStore? ==> TargetsAreKeys(cat)
    requires forall x | x in ins :: x.table in cat.tables ==> KeyIdentifies(cat.tables[x.table], x)
    requires cat.rules.InDatabase? ==> forall x | x in ins :: Filled(x.Key())
    ensures UndoClear(cat, rows, t, ins) <==> cat.rules.InDatabase? || NoNullReferences(cat, rows, t, ins)
  {
    if ins == [] {
    } else {
      var n := |ins| - 1;
      UndoClearExactly(cat, rows, t, ins[..n]);
      StagingKeepsShared(cat, rows, t, ins[..n]);
      assert ins[n] in ins;
      RowClearExactly(cat, StageAll(cat, rows, t, ins[..n]).value, t, ins[n]);
    }
  }

  lemma {:induction false} NoNullReferenceAt(cat: Catalog, rows: Rows, t: Tenant, ins: seq<Insertion>, k: nat)
    requires StageAll(cat, rows, t, ins).Ok? && NoNullReferences(cat, rows, t, ins) && k < |ins|
    ensures StageAll(cat, rows, t, ins[..k]).Ok?
    ensures !NullReferred(cat, StageAll(cat, rows, t, ins[..k]).value, t, ins[k])
  {
    var n := |ins| - 1;
    if k < n {
      NoNullReferenceAt(cat, rows, t, ins[..n], k);
      assert ins[..n][..k] == ins[..k];
    }
  }

  lemma {:induction false} FilledColumnsNotReferred(cat: Catalog, rows: Rows, t: Tenant, ins: seq<Insertion>)
    requires StageAll(cat, rows, t, ins).Ok?
    requires forall x | x in ins :: x.table in cat.tables ==> ReferableColumnsFilled(cat, x)
    ensures NoNullReferences(cat, rows, t, ins)
  {
    if ins == [] {
    } else {
      var n := |ins| - 1;
      FilledColumnsNotReferred(cat, rows, t, ins[..n]);
      assert ins[n] in ins;
      FilledNotReferred(cat, StageAll(cat, rows, t, ins[..n]).value, t, ins[n]);
    }
  }

  lemma FilledNotReferred(cat: Catalog, before: Rows, t: Tenant, x: Insertion)
    requires ReferableColumnsFilled(cat, x)
    ensures !NullReferred(cat, before, t, x)
  {
  }

  /** So filled referable columns suffice. */
  lemma UndoAlwaysClear(cat: Catalog, rows: Rows, t: Tenant, ins: seq<Insertion>)
    requires SharedReferencesHold(cat, rows, t) && StageAll(cat, rows, t, ins).Ok?
    requires cat.rules.InStore? ==> TargetsAreKeys(cat)
    requires forall x | x in ins :: UndoableRow(cat, x)
    ensures UndoClear(cat, rows, t, ins)
  {
    UndoClearExactly(cat, rows, t, ins);
    if cat.rules.InStore? { FilledColumnsNotReferred(cat, rows, t, ins); }
  }
}
