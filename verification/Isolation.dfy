// In the in-memory store a tenant's rows, generations, keys, ledgers and replies do not depend on the
// other tenants.  TenantKeys.dfy says when the same holds in the database.
module Isolation {
  import opened Values
  import opened Store
  import opened Integrity

  // ---- staging and unwinding read no tables but the shared ones -----------------------

  /** Two states with the same rows of every tenant that t's writes are checked against. */
  ghost predicate Alike(cat: Catalog, a: Rows, b: Rows, t: Tenant) {
    forall u | Shares(cat, t, u) :: SameFor(a, b, u)
  }

  lemma UpdateSame(a: Rows, b: Rows, t: Tenant, id: TableId, table: seq<Row>, u: Tenant)
    requires SameFor(a, b, u)
    ensures SameFor(a[(t, id) := table], b[(t, id) := table], u)
  {
    var x, y := a[(t, id) := table], b[(t, id) := table];
    forall other ensures At(x, u, other) == At(y, u, other) {
      assert At(a, u, other) == At(b, u, other);
    }
  }

  lemma UpdateAlike(cat: Catalog, a: Rows, b: Rows, t: Tenant, id: TableId, table: seq<Row>)
    requires Alike(cat, a, b, t)
    ensures Alike(cat, a[(t, id) := table], b[(t, id) := table], t)
  {
    forall u | Shares(cat, t, u) ensures SameFor(a[(t, id) := table], b[(t, id) := table], u) {
      UpdateSame(a, b, t, id, table, u);
    }
  }

  lemma SatisfiedSame(cat: Catalog, a: Rows, b: Rows, t: Tenant, row: Row, fk: ForeignKey)
    requires Alike(cat, a, b, t) && Satisfied(cat, a, t, row, fk)
    ensures Satisfied(cat, b, t, row, fk)
  {
    if CNull !in Tuple(row, fk.columns) {
      var u :| Shares(cat, t, u) && Meets(a, u, row, fk);
      assert SameFor(a, b, u);
      assert At(a, u, fk.target) == At(b, u, fk.target);
      assert Meets(b, u, row, fk);
    }
  }

  lemma ClashesSame(cat: Catalog, def: TableDef, a: Rows, b: Rows, t: Tenant, id: TableId, row: Row)
    requires Alike(cat, a, b, t) && Clashes(cat, def, a, t, id, row)
    ensures Clashes(cat, def, b, t, id, row)
  {
    var u :| Shares(cat, t, u) && Conflicts(def, At(a, u, id), row);
    assert SameFor(a, b, u);
    assert At(a, u, id) == At(b, u, id);
  }

  lemma AlikeFlips(cat: Catalog, a: Rows, b: Rows, t: Tenant)
    requires Alike(cat, a, b, t)
    ensures Alike(cat, b, a, t)
  {
    forall u | Shares(cat, t, u) ensures SameFor(b, a, u) {
      assert SameFor(a, b, u);
    }
  }

  lemma RefusalSame(cat: Catalog, a: Rows, b: Rows, t: Tenant, x: Insertion)
    requires Alike(cat, a, b, t)
    ensures Refusal(cat, a, t, x) == Refusal(cat, b, t, x)
  {
    if x.table in cat.tables {
      var def, seen, seenToo := cat.tables[x.table], Seen(cat, a, t, x), Seen(cat, b, t, x);
      assert SameFor(a, b, t);
      assert At(a, t, x.table) == At(b, t, x.table);
      UpdateAlike(cat, a, b, t, x.table, At(a, t, x.table) + [x.row]);
      assert Alike(cat, seen, seenToo, t);
      AlikeFlips(cat, a, b, t);
      AlikeFlips(cat, seen, seenToo, t);
      forall fk | fk in def.foreignKeys
        ensures Satisfied(cat, seen, t, x.row, fk) <==> Satisfied(cat, seenToo, t, x.row, fk)
      {
        if Satisfied(cat, seen, t, x.row, fk) { SatisfiedSame(cat, seen, seenToo, t, x.row, fk); }
        if Satisfied(cat, seenToo, t, x.row, fk) { SatisfiedSame(cat, seenToo, seen, t, x.row, fk); }
      }
      if Clashes(cat, def, a, t, x.table, x.row) { ClashesSame(cat, def, a, b, t, x.table, x.row); }
      if Clashes(cat, def, b, t, x.table, x.row) { ClashesSame(cat, def, b, a, t, x.table, x.row); }
    }
  }

  ghost predicate SameStaged(cat: Catalog, a: Result<Rows, Error>, b: Result<Rows, Error>, t: Tenant) {
    match (a, b)
    case (Ok(x), Ok(y)) => Alike(cat, x, y, t)
    case (Err(e), Err(f)) => e == f
    case _ => false
  }

  lemma {:induction false} StageSame(cat: Catalog, a: Rows, b: Rows, t: Tenant, ins: seq<Insertion>)
    requires Alike(cat, a, b, t)
    ensures SameStaged(cat, StageAll(cat, a, t, ins), StageAll(cat, b, t, ins), t)
  {
    if ins == [] {
    } else {
      var n := |ins| - 1;
      StageSame(cat, a, b, t, ins[..n]);
      var x, y := StageAll(cat, a, t, ins[..n]), StageAll(cat, b, t, ins[..n]);
      if x.Ok? {
        RefusalSame(cat, x.value, y.value, t, ins[n]);
        assert SameFor(x.value, y.value, t);
        assert At(x.value, t, ins[n].table) == At(y.value, t, ins[n].table);
        UpdateAlike(cat, x.value, y.value, t, ins[n].table, At(x.value, t, ins[n].table) + [ins[n].row]);
      }
    }
  }

  lemma ReferenceSame(cat: Catalog, a: Rows, b: Rows, t: Tenant, id: TableId, row: Row)
    requires SameFor(a, b, t)
    ensures HasReference(cat, a, t, id, row) <==> HasReference(cat, b, t, id, row)
  {
    assert forall source :: ReferredBy(cat, a, t, id, row, source) <==> ReferredBy(cat, b, t, id, row, source);
  }

  lemma SharedAll(cat: Catalog, a: Rows, b: Rows, t: Tenant, u: Tenant)
    requires Alike(cat, a, b, t) && Shares(cat, t, u)
    ensures Alike(cat, a, b, u) && SameFor(a, b, u)
  {
  }

  lemma OrphanSame(cat: Catalog, a: Rows, b: Rows, t: Tenant, id: TableId, row: Row)
    requires Alike(cat, a, b, t) && LeavesOrphan(cat, a, t, id, row)
    ensures LeavesOrphan(cat, b, t, id, row)
  {
    var u :| Shares(cat, t, u) && OrphansOf(cat, a, u, id, row);
    SharedAll(cat, a, b, t, u);
    OrphansSame(cat, a, b, u, id, row);
  }

  lemma OrphansSame(cat: Catalog, a: Rows, b: Rows, u: Tenant, id: TableId, row: Row)
    requires Alike(cat, a, b, u) && SameFor(a, b, u) && OrphansOf(cat, a, u, id, row)
    ensures OrphansOf(cat, b, u, id, row)
  {
    var source, fk, candidate :|
      RealReference(cat, a, u, id, row, source, fk, candidate) && !Satisfied(cat, a, u, candidate, fk);
    assert At(a, u, source) == At(b, u, source);
    assert RealReference(cat, b, u, id, row, source, fk, candidate);
    AlikeFlips(cat, a, b, u);
    if Satisfied(cat, b, u, candidate, fk) { SatisfiedSame(cat, b, a, u, candidate, fk); }
  }

  lemma PinnedSame(cat: Catalog, a: Rows, b: Rows, t: Tenant, id: TableId, k: nat)
    requires Alike(cat, a, b, t) && k < |At(a, t, id)|
    ensures At(a, t, id) == At(b, t, id) && Alike(cat, Without(a, t, id, k), Without(b, t, id, k), t)
    ensures Pinned(cat, a, t, id, k) <==> Pinned(cat, b, t, id, k)
  {
    assert SameFor(a, b, t);
    assert At(a, t, id) == At(b, t, id);
    var row, x, y := At(a, t, id)[k], Without(a, t, id, k), Without(b, t, id, k);
    UpdateAlike(cat, a, b, t, id, At(a, t, id)[..k] + At(a, t, id)[k + 1..]);
    AlikeFlips(cat, x, y, t);
    ReferenceSame(cat, a, b, t, id, row);
    if LeavesOrphan(cat, x, t, id, row) { OrphanSame(cat, x, y, t, id, row); }
    if LeavesOrphan(cat, y, t, id, row) { OrphanSame(cat, y, x, t, id, row); }
  }

  ghost predicate SameUndone(cat: Catalog, a: Option<Rows>, b: Option<Rows>, t: Tenant) {
    match (a, b)
    case (Some(x), Some(y)) => Alike(cat, x, y, t)
    case (None, None) => true
    case _ => false
  }

  lemma EraseSame(cat: Catalog, a: Rows, b: Rows, t: Tenant, w: WrittenRow)
    requires Alike(cat, a, b, t)
    ensures SameUndone(cat, Erase(cat, a, t, w), Erase(cat, b, t, w), t)
  {
    assert SameFor(a, b, t);
    assert At(a, t, w.table) == At(b, t, w.table);
    var m := Found(cat, At(a, t, w.table), w.key);
    if |m| == 1 { PinnedSame(cat, a, b, t, w.table, m[0]); }
  }

  lemma {:induction false} UnwindSame(cat: Catalog, a: Rows, b: Rows, t: Tenant, todo: seq<WrittenRow>)
    requires Alike(cat, a, b, t)
    ensures SameUndone(cat, Unwind(cat, a, t, todo), Unwind(cat, b, t, todo), t)
    decreases |todo|
  {
    if todo == [] {
    } else {
      EraseSame(cat, a, b, t, todo[0]);
      var x, y := Erase(cat, a, t, todo[0]), Erase(cat, b, t, todo[0]);
      if x.Some? { UnwindSame(cat, x.value, y.value, t, todo[1..]); }
    }
  }

  // ---- whole states -------------------------------------------------------------------

  ghost predicate SameAt<V(!new)>(a: map<(Tenant, string), V>, b: map<(Tenant, string), V>, t: Tenant) {
    forall k :: ((t, k) in a <==> (t, k) in b) && ((t, k) in a ==> a[(t, k)] == b[(t, k)])
  }

  /** Two states that tenant t cannot tell apart. */
  ghost predicate Agree(a: Db, b: Db, t: Tenant) {
    && SameFor(a.rows, b.rows, t)
    && SameAt(a.generations, b.generations, t)
    && SameAt(a.idempotency, b.idempotency, t)
    && SameAt(a.digests, b.digests, t)
    && SameAt(a.written, b.written, t)
  }

  lemma SameUpdate<V(!new)>(
    a: map<(Tenant, string), V>, b: map<(Tenant, string), V>, t: Tenant, key: string, v: V)
    requires SameAt(a, b, t)
    ensures SameAt(a[(t, key) := v], b[(t, key) := v], t)
  {
  }

  /** The same outcome, as far as t can see. */
  ghost predicate StagedTheSame(a: Result<Rows, Error>, b: Result<Rows, Error>, t: Tenant) {
    match (a, b)
    case (Ok(x), Ok(y)) => SameFor(x, y, t)
    case (Err(e), Err(f)) => e == f
    case _ => false
  }

  ghost predicate UndoneTheSame(a: Option<Rows>, b: Option<Rows>, t: Tenant) {
    match (a, b)
    case (Some(x), Some(y)) => SameFor(x, y, t)
    case (None, None) => true
    case _ => false
  }

  lemma OwnCommitAgrees(cat: Catalog, a: Db, b: Db, t: Tenant, key: string, batch: Batch, now: int)
    requires Tracked(a) && Tracked(b) && Agree(a, b, t)
    requires StagedTheSame(StageAll(cat, a.rows, t, batch.ins), StageAll(cat, b.rows, t, batch.ins), t)
    ensures Agree(CommitNext(cat, a, t, key, batch, now).0, CommitNext(cat, b, t, key, batch, now).0, t)
    ensures CommitNext(cat, a, t, key, batch, now).1 == CommitNext(cat, b, t, key, batch, now).1
  {
    assert FindIdempotent(a, t, key) == FindIdempotent(b, t, key);
    if FindIdempotent(a, t, key) == None {
      var id := batch.header.generationId;
      SameUpdate(a.generations, b.generations, t, id, Generation(batch.header, COMMITTED, now, None));
      SameUpdate(a.idempotency, b.idempotency, t, key, id);
      SameUpdate(a.digests, b.digests, t, key, batch.header.requestDigest);
      SameUpdate(a.written, b.written, t, id, LedgerOf(batch.ins));
    } else {
      assert a.digests[(t, key)] == b.digests[(t, key)];
    }
  }

  lemma OwnDeleteAgrees(cat: Catalog, a: Db, b: Db, t: Tenant, id: string, now: int)
    requires Tracked(a) && Tracked(b) && Agree(a, b, t)
    requires (t, id) in a.generations ==>
      UndoneTheSame(Unwind(cat, a.rows, t, SortLedger(a.written[(t, id)])),
                    Unwind(cat, b.rows, t, SortLedger(a.written[(t, id)])), t)
    ensures Agree(DeleteNext(cat, a, t, id, now).0, DeleteNext(cat, b, t, id, now).0, t)
    ensures DeleteNext(cat, a, t, id, now).1 == DeleteNext(cat, b, t, id, now).1
  {
    if (t, id) in a.generations {
      var g := a.generations[(t, id)];
      assert b.generations[(t, id)] == g;
      assert a.written[(t, id)] == b.written[(t, id)];
      SameUpdate(a.generations, b.generations, t, id, g.(state := DELETED, deletedAt := Some(now)));
    }
  }

  lemma OwnStepAgrees(cat: Catalog, a: Db, b: Db, op: Op)
    requires cat.rules.InStore? && Tracked(a) && Tracked(b) && Agree(a, b, op.tenant)
    ensures Agree(Next(cat, a, op).0, Next(cat, b, op).0, op.tenant)
    ensures Next(cat, a, op).1 == Next(cat, b, op).1
  {
    match op
    case Commit(t, key, batch, now) =>
      StageSame(cat, a.rows, b.rows, t, batch.ins);
      OwnCommitAgrees(cat, a, b, t, key, batch, now);
    case Delete(t, id, now) =>
      if (t, id) in a.generations { UnwindSame(cat, a.rows, b.rows, t, SortLedger(a.written[(t, id)])); }
      OwnDeleteAgrees(cat, a, b, t, id, now);
  }

  /** Updating one tenant's entry is not seen by another. */
  lemma ForeignUpdate<V(!new)>(
    a: map<(Tenant, string), V>, b: map<(Tenant, string), V>, t: Tenant, key: string, v: V, u: Tenant)
    requires SameAt(a, b, u) && t != u
    ensures SameAt(a[(t, key) := v], b, u)
  {
  }

  lemma SameForTransitive(a: Rows, b: Rows, c: Rows, u: Tenant)
    requires SameFor(a, b, u) && SameFor(b, c, u)
    ensures SameFor(a, c, u)
  {
  }

  lemma ForeignCommitInvisible(
    cat: Catalog, a: Db, b: Db, t: Tenant, key: string, batch: Batch, now: int, u: Tenant)
    requires Tracked(a) && Agree(a, b, u) && t != u
    ensures Agree(CommitNext(cat, a, t, key, batch, now).0, b, u)
  {
    CommitWritesOrNot(cat, a, t, key, batch, now);
    if Writes(cat, a, t, key, batch) {
      var id := batch.header.generationId;
      StagingSparesOthers(cat, a.rows, t, batch.ins, u);
      SameForTransitive(StageAll(cat, a.rows, t, batch.ins).value, a.rows, b.rows, u);
      ForeignUpdate(a.generations, b.generations, t, id, Generation(batch.header, COMMITTED, now, None), u);
      ForeignUpdate(a.idempotency, b.idempotency, t, key, id, u);
      ForeignUpdate(a.digests, b.digests, t, key, batch.header.requestDigest, u);
      ForeignUpdate(a.written, b.written, t, id, LedgerOf(batch.ins), u);
    }
  }

  lemma ForeignDeleteInvisible(cat: Catalog, a: Db, b: Db, t: Tenant, id: string, now: int, u: Tenant)
    requires Tracked(a) && Agree(a, b, u) && t != u
    ensures Agree(DeleteNext(cat, a, t, id, now).0, b, u)
  {
    DeleteMarks(cat, a, t, id, now);
    var after := DeleteNext(cat, a, t, id, now).0;
    if after != a {
      UnwindSparesOthers(cat, a.rows, t, SortLedger(a.written[(t, id)]), u);
      SameForTransitive(after.rows, a.rows, b.rows, u);
      ForeignUpdate(
        a.generations, b.generations, t, id, a.generations[(t, id)].(state := DELETED, deletedAt := Some(now)), u);
    }
  }

  lemma ForeignStepInvisible(cat: Catalog, a: Db, b: Db, op: Op, u: Tenant)
    requires Tracked(a) && Agree(a, b, u) && op.tenant != u
    ensures Agree(Next(cat, a, op).0, b, u)
  {
    match op
    case Commit(t, key, batch, now) => ForeignCommitInvisible(cat, a, b, t, key, batch, now, u);
    case Delete(t, id, now) => ForeignDeleteInvisible(cat, a, b, t, id, now, u);
  }

  function Own(ops: seq<Op>, t: Tenant): seq<Op> {
    if ops == [] then []
    else
      var n := |ops| - 1;
      Own(ops[..n], t) + (if ops[n].tenant == t then [ops[n]] else [])
  }

  /** What tenant t is told over a run. */
  ghost function Replies(cat: Catalog, db: Db, ops: seq<Op>, t: Tenant): seq<Reply>
    requires Tracked(db)
  {
    if ops == [] then []
    else
      var n := |ops| - 1;
      Replies(cat, db, ops[..n], t) +
      (if ops[n].tenant == t then [Next(cat, Run(cat, db, ops[..n]), ops[n]).1] else [])
  }

  /**
   * In the in-memory store, dropping every other tenant's operations changes nothing that tenant t
   * can see, including its replies.
   */
  lemma {:induction false} TenantsDoNotInterfere(cat: Catalog, db: Db, ops: seq<Op>, t: Tenant)
    requires cat.rules.InStore? && Tracked(db)
    ensures Agree(Run(cat, db, ops), Run(cat, db, Own(ops, t)), t)
    ensures Replies(cat, db, ops, t) == Replies(cat, db, Own(ops, t), t)
  {
    if ops == [] {
    } else {
      var n := |ops| - 1;
      TenantsDoNotInterfere(cat, db, ops[..n], t);
      var own := Own(ops[..n], t);
      var a, b := Run(cat, db, ops[..n]), Run(cat, db, own);
      if ops[n].tenant == t {
        assert (own + [ops[n]])[..|own|] == own;
        OwnStepAgrees(cat, a, b, ops[n]);
      } else {
        assert own + [] == own;
        ForeignStepInvisible(cat, a, b, ops[n], t);
      }
    }
  }
}
