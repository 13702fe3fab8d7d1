// Declared keys and references hold in every state that commits and deletes can reach.
module Integrity {
  import opened Values
  import opened Store

  ghost predicate Distinct(table: seq<Row>, key: seq<string>) {
    forall i, j | 0 <= i < j < |table| ::
      CNull !in Tuple(table[i], key) ==> Tuple(table[i], key) != Tuple(table[j], key)
  }

  /** No key of one tenant's rows is found among another's. */
  ghost predicate Apart(own: seq<Row>, others: seq<Row>, key: seq<string>) {
    forall r, s | r in own && s in others :: CNull !in Tuple(r, key) ==> Tuple(r, key) != Tuple(s, key)
  }

  ghost predicate HasKey(cat: Catalog, id: TableId, key: seq<string>) {
    id in cat.tables && key in cat.tables[id].uniqueKeys
  }

  ghost predicate OwnKeysHold(cat: Catalog, rows: Rows, t: Tenant) {
    forall id, key | HasKey(cat, id, key) :: Distinct(At(rows, t, id), key)
  }

  ghost predicate KeysApart(cat: Catalog, rows: Rows, t: Tenant, u: Tenant) {
    forall id, key | HasKey(cat, id, key) :: Apart(At(rows, t, id), At(rows, u, id), key)
  }

  /** Every declared unique key, keys containing a null exempted; in the database across all tenants. */
  ghost predicate KeysHold(cat: Catalog, rows: Rows, t: Tenant) {
    && OwnKeysHold(cat, rows, t)
    && forall u | Shares(cat, t, u) && u != t :: KeysApart(cat, rows, t, u)
  }

  /** Every row's non-null foreign keys have a live target. */
  ghost predicate ReferencesHold(cat: Catalog, rows: Rows, t: Tenant) {
    forall source, r | source in cat.tables && r in At(rows, t, source) ::
      ForeignKeysMet(cat, cat.tables[source], rows, t, r)
  }

  ghost predicate Consistent(cat: Catalog, rows: Rows, t: Tenant) {
    KeysHold(cat, rows, t) && ReferencesHold(cat, rows, t)
  }

  // ---- insertion ---------------------------------------------------------------

  lemma AppendDistinct(table: seq<Row>, row: Row, key: seq<string>)
    requires Distinct(table, key) && !Taken(table, row, key)
    ensures Distinct(table + [row], key)
  {
    var more := table + [row];
    forall i, j | 0 <= i < j < |more| && CNull !in Tuple(more[i], key)
      ensures Tuple(more[i], key) != Tuple(more[j], key)
    {
      if j == |table| {
        assert more[i] in table;
      }
    }
  }

  lemma NotTaken(cat: Catalog, rows: Rows, t: Tenant, x: Insertion, u: Tenant, key: seq<string>)
    requires Refusal(cat, rows, t, x) == None && Shares(cat, t, u) && HasKey(cat, x.table, key)
    ensures !Taken(At(rows, u, x.table), x.row, key)
  {
    assert !Conflicts(cat.tables[x.table], At(rows, u, x.table), x.row);
  }

  lemma PutKeepsOwnKeys(cat: Catalog, rows: Rows, t: Tenant, x: Insertion)
    requires OwnKeysHold(cat, rows, t) && Refusal(cat, rows, t, x) == None
    ensures OwnKeysHold(cat, Put(rows, t, x), t)
  {
    forall id, key | HasKey(cat, id, key) ensures Distinct(At(Put(rows, t, x), t, id), key) {
      assert Distinct(At(rows, t, id), key);
      if id == x.table {
        NotTaken(cat, rows, t, x, t, key);
        AppendDistinct(At(rows, t, id), x.row, key);
      }
    }
  }

  /** The new row of t carries no key of a row of u, on whichever side it stands. */
  lemma PutKeepsApart(cat: Catalog, rows: Rows, t: Tenant, x: Insertion, u: Tenant)
    requires Refusal(cat, rows, t, x) == None && Shares(cat, t, u) && u != t
    ensures KeysApart(cat, rows, t, u) ==> KeysApart(cat, Put(rows, t, x), t, u)
    ensures KeysApart(cat, rows, u, t) ==> KeysApart(cat, Put(rows, t, x), u, t)
  {
    var after := Put(rows, t, x);
    forall id, key | HasKey(cat, id, key)
      ensures Apart(At(rows, t, id), At(rows, u, id), key) ==> Apart(At(after, t, id), At(after, u, id), key)
      ensures Apart(At(rows, u, id), At(rows, t, id), key) ==> Apart(At(after, u, id), At(after, t, id), key)
    {
      if id == x.table { NotTaken(cat, rows, t, x, u, key); }
    }
  }

  /** A row of t that is not refused keeps the keys of every tenant v. */
  lemma PutKeepsKeys(cat: Catalog, rows: Rows, t: Tenant, x: Insertion, v: Tenant)
    requires KeysHold(cat, rows, v) && Refusal(cat, rows, t, x) == None
    ensures KeysHold(cat, Put(rows, t, x), v)
  {
    var after := Put(rows, t, x);
    if v == t {
      PutKeepsOwnKeys(cat, rows, t, x);
    } else {
      assert forall id, key | HasKey(cat, id, key) :: Distinct(At(rows, v, id), key);
    }
    forall u | Shares(cat, v, u) && u != v ensures KeysApart(cat, after, v, u) {
      assert KeysApart(cat, rows, v, u);
      if v == t {
        PutKeepsApart(cat, rows, t, x, u);
      } else if u == t {
        PutKeepsApart(cat, rows, t, x, v);
      } else {
        assert forall id, key | HasKey(cat, id, key) :: Apart(At(rows, v, id), At(rows, u, id), key);
      }
    }
  }

  lemma GrownStillSatisfied(cat: Catalog, rows: Rows, t: Tenant, x: Insertion, v: Tenant, r: Row, fk: ForeignKey)
    requires Satisfied(cat, rows, v, r, fk)
    ensures Satisfied(cat, Put(rows, t, x), v, r, fk)
  {
    if CNull !in Tuple(r, fk.columns) {
      var u :| Shares(cat, v, u) && Meets(rows, u, r, fk);
      var target :| target in At(rows, u, fk.target) && Tuple(target, fk.targetColumns) == Tuple(r, fk.columns);
      assert target in At(Put(rows, t, x), u, fk.target);
      assert Meets(Put(rows, t, x), u, r, fk);
    }
  }

  lemma PutKeepsReferences(cat: Catalog, rows: Rows, t: Tenant, x: Insertion, v: Tenant)
    requires ReferencesHold(cat, rows, v) && Refusal(cat, rows, t, x) == None
    ensures ReferencesHold(cat, Put(rows, t, x), v)
  {
    var after := Put(rows, t, x);
    forall source, r | source in cat.tables && r in At(after, v, source)
      ensures ForeignKeysMet(cat, cat.tables[source], after, v, r)
    {
      assert r in At(rows, v, source) || (v == t && source == x.table && r == x.row);
      forall fk | fk in cat.tables[source].foreignKeys ensures Satisfied(cat, after, v, r, fk) {
        if Satisfied(cat, rows, v, r, fk) { GrownStillSatisfied(cat, rows, t, x, v, r, fk); }
      }
    }
  }

  /** What t stages keeps the keys and references of every tenant v. */
  lemma {:induction false} StagingKeepsConsistent(cat: Catalog, rows: Rows, t: Tenant, ins: seq<Insertion>, v: Tenant)
    requires StageAll(cat, rows, t, ins).Ok?
    ensures KeysHold(cat, rows, v) ==> KeysHold(cat, StageAll(cat, rows, t, ins).value, v)
    ensures ReferencesHold(cat, rows, v) ==> ReferencesHold(cat, StageAll(cat, rows, t, ins).value, v)
  {
    if ins == [] {
    } else {
      var n := |ins| - 1;
      StagingKeepsConsistent(cat, rows, t, ins[..n], v);
      var mid := StageAll(cat, rows, t, ins[..n]).value;
      if KeysHold(cat, rows, v) { PutKeepsKeys(cat, mid, t, ins[n], v); }
      if ReferencesHold(cat, rows, v) { PutKeepsReferences(cat, mid, t, ins[n], v); }
    }
  }

  // ---- deletion ----------------------------------------------------------------

  lemma CutDistinct(table: seq<Row>, k: nat, key: seq<string>)
    requires Distinct(table, key) && k < |table|
    ensures Distinct(table[..k] + table[k + 1..], key)
  {
    var cut := table[..k] + table[k + 1..];
    assert forall i | 0 <= i < |cut| :: cut[i] == table[if i < k then i else i + 1];
  }

  lemma CutHasNoMore(rows: Rows, t: Tenant, id: TableId, k: nat, u: Tenant, source: TableId, r: Row)
    requires k < |At(rows, t, id)| && r in At(Without(rows, t, id, k), u, source)
    ensures r in At(rows, u, source)
  {
  }

  lemma WithoutKeepsKeys(cat: Catalog, rows: Rows, t: Tenant, id: TableId, k: nat, v: Tenant)
    requires KeysHold(cat, rows, v) && k < |At(rows, t, id)|
    ensures KeysHold(cat, Without(rows, t, id, k), v)
  {
    var after := Without(rows, t, id, k);
    forall other, key | HasKey(cat, other, key) ensures Distinct(At(after, v, other), key) {
      assert Distinct(At(rows, v, other), key);
      if v == t && other == id { CutDistinct(At(rows, t, id), k, key); }
    }
    forall u | Shares(cat, v, u) && u != v ensures KeysApart(cat, after, v, u) {
      assert KeysApart(cat, rows, v, u);
      forall other, key | HasKey(cat, other, key) ensures Apart(At(after, v, other), At(after, u, other), key) {
        assert Apart(At(rows, v, other), At(rows, u, other), key);
      }
    }
  }

  lemma ReferencePins(
    cat: Catalog, rows: Rows, t: Tenant, id: TableId, k: nat, v: Tenant, source: TableId, r: Row, fk: ForeignKey)
    requires k < |At(rows, t, id)| && source in cat.tables && fk in cat.tables[source].foreignKeys && fk.target == id
    requires r in At(Without(rows, t, id, k), v, source) && Shares(cat, t, v)
    requires Refers(fk, r, At(rows, t, id)[k]) && CNull !in Tuple(r, fk.columns)
    ensures Pinned(cat, rows, t, id, k) || Satisfied(cat, Without(rows, t, id, k), v, r, fk)
  {
    var row, after := At(rows, t, id)[k], Without(rows, t, id, k);
    if cat.rules.InStore? {
      CutHasNoMore(rows, t, id, k, v, source, r);
      assert ReferredBy(cat, rows, t, id, row, source);
    } else if !Satisfied(cat, after, v, r, fk) {
      assert RealReference(cat, after, v, id, row, source, fk, r);
      assert OrphansOf(cat, after, v, id, row);
    }
  }

  /** A row of v whose target was removed by t would have pinned it. */
  lemma CutStillSatisfied(
    cat: Catalog, rows: Rows, t: Tenant, id: TableId, k: nat, v: Tenant, source: TableId, r: Row, fk: ForeignKey)
    requires k < |At(rows, t, id)| && !Pinned(cat, rows, t, id, k)
    requires source in cat.tables && fk in cat.tables[source].foreignKeys && r in At(Without(rows, t, id, k), v, source)
    requires Satisfied(cat, rows, v, r, fk)
    ensures Satisfied(cat, Without(rows, t, id, k), v, r, fk)
  {
    var table, after := At(rows, t, id), Without(rows, t, id, k);
    if CNull !in Tuple(r, fk.columns) {
      var u :| Shares(cat, v, u) && Meets(rows, u, r, fk);
      var target :| target in At(rows, u, fk.target) && Tuple(target, fk.targetColumns) == Tuple(r, fk.columns);
      if u == t && fk.target == id && target == table[k] {
        ReferencePins(cat, rows, t, id, k, v, source, r, fk);
      } else {
        if u == t && fk.target == id { OtherTargetStays(rows, t, id, k, target); }
        assert target in At(after, u, fk.target);
        assert Meets(after, u, r, fk);
      }
    }
  }

  lemma OtherTargetStays(rows: Rows, t: Tenant, id: TableId, k: nat, target: Row)
    requires k < |At(rows, t, id)| && target in At(rows, t, id) && target != At(rows, t, id)[k]
    ensures target in At(Without(rows, t, id, k), t, id)
  {
    var table := At(rows, t, id);
    var i :| 0 <= i < |table| && table[i] == target;
    assert (table[..k] + table[k + 1..])[if i < k then i else i - 1] == target;
  }

  /** What t erases leaves the keys and references of every tenant v. */
  lemma EraseKeepsConsistent(cat: Catalog, rows: Rows, t: Tenant, w: WrittenRow, v: Tenant)
    requires Consistent(cat, rows, v) && Erase(cat, rows, t, w).Some?
    ensures Consistent(cat, Erase(cat, rows, t, w).value, v)
  {
    var k := Found(cat, At(rows, t, w.table), w.key)[0];
    var after := Erase(cat, rows, t, w).value;
    WithoutKeepsKeys(cat, rows, t, w.table, k, v);
    forall source, r | source in cat.tables && r in At(after, v, source)
      ensures ForeignKeysMet(cat, cat.tables[source], after, v, r)
    {
      CutHasNoMore(rows, t, w.table, k, v, source, r);
      forall fk | fk in cat.tables[source].foreignKeys ensures Satisfied(cat, after, v, r, fk) {
        CutStillSatisfied(cat, rows, t, w.table, k, v, source, r, fk);
      }
    }
  }

  lemma {:induction false} UnwindKeepsConsistent(
    cat: Catalog, rows: Rows, t: Tenant, todo: seq<WrittenRow>, v: Tenant)
    requires Consistent(cat, rows, v) && Unwind(cat, rows, t, todo).Some?
    ensures Consistent(cat, Unwind(cat, rows, t, todo).value, v)
    decreases |todo|
  {
    if todo == [] {
    } else {
      EraseKeepsConsistent(cat, rows, t, todo[0], v);
      UnwindKeepsConsistent(cat, Erase(cat, rows, t, todo[0]).value, t, todo[1..], v);
    }
  }

  // ---- other tenants -------------------------------------------------------------

  ghost predicate SameFor(a: Rows, b: Rows, t: Tenant) {
    forall id :: At(a, t, id) == At(b, t, id)
  }

  lemma {:induction false} StagingSparesOthers(cat: Catalog, rows: Rows, t: Tenant, ins: seq<Insertion>, u: Tenant)
    requires StageAll(cat, rows, t, ins).Ok? && u != t
    ensures SameFor(StageAll(cat, rows, t, ins).value, rows, u)
  {
    forall id { StagedRows(cat, rows, t, ins, u, id); }
  }

  lemma {:induction false} UnwindSparesOthers(cat: Catalog, rows: Rows, t: Tenant, todo: seq<WrittenRow>, u: Tenant)
    requires Unwind(cat, rows, t, todo).Some? && u != t
    ensures SameFor(Unwind(cat, rows, t, todo).value, rows, u)
    decreases |todo|
  {
    if todo == [] {
    } else {
      var next := Erase(cat, rows, t, todo[0]).value;
      UnwindSparesOthers(cat, next, t, todo[1..], u);
      assert SameFor(next, rows, u);
    }
  }

  // ---- whole runs ------------------------------------------------------------------

  lemma StepKeepsConsistent(cat: Catalog, db: Db, op: Op, v: Tenant)
    requires Tracked(db) && Consistent(cat, db.rows, v)
    ensures Consistent(cat, Next(cat, db, op).0.rows, v)
  {
    var after := Next(cat, db, op).0.rows;
    if after != db.rows {
      match op
      case Commit(t, key, batch, now) => StagingKeepsConsistent(cat, db.rows, t, batch.ins, v);
      case Delete(t, id, now) => UnwindKeepsConsistent(cat, db.rows, t, SortLedger(db.written[(t, id)]), v);
    }
  }

  /**
   * From seed rows that satisfy the declared keys and references, no sequence of commits and
   * deletes, by any tenants, succeeding or failing, reaches a state that does not.
   */
  lemma {:induction false} RunsKeepConsistent(cat: Catalog, db: Db, ops: seq<Op>, v: Tenant)
    requires Tracked(db) && Consistent(cat, db.rows, v)
    ensures Consistent(cat, Run(cat, db, ops).rows, v)
  {
    if ops == [] {
    } else {
      RunsKeepConsistent(cat, db, ops[..|ops| - 1], v);
      StepKeepsConsistent(cat, Run(cat, db, ops[..|ops| - 1]), ops[|ops| - 1], v);
    }
  }
}
