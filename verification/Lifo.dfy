// Several commits, of any tenants, deleted again last in, first out.
module Lifo {
  import opened Values
  import opened Store
  import opened Integrity
  import opened Isolation
  import opened Undo
  import opened Conservation

  /** Every commit in turn writes, under an id of its own, rows that can be removed again. */
  ghost predicate AllWrite(cat: Catalog, db: Db, cs: seq<Op>)
    requires Tracked(db)
  {
    cs == [] ||
    var n := |cs| - 1;
    && AllWrite(cat, db, cs[..n]) && cs[n].Commit? && PlannedOp(cs[n])
    && (cs[n].tenant, cs[n].batch.header.generationId) !in Run(cat, db, cs[..n]).generations
    && Writes(cat, Run(cat, db, cs[..n]), cs[n].tenant, cs[n].key, cs[n].batch)
    && forall x | x in cs[n].batch.ins :: UndoableRow(cat, x)
  }

  /** Delete the last commit's generation first, and so on back; and whether all went through. */
  ghost function DeleteBack(cat: Catalog, db: Db, cs: seq<Op>, now: int): (r: (Db, bool))
    requires Tracked(db) && forall i | 0 <= i < |cs| :: cs[i].Commit?
    ensures Tracked(r.0)
    decreases |cs|
  {
    if cs == [] then (db, true)
    else
      var n := |cs| - 1;
      var (next, reply) := DeleteNext(cat, db, cs[n].tenant, cs[n].batch.header.generationId, now);
      var (rest, ok) := DeleteBack(cat, next, cs[..n], now);
      (rest, ok && reply.Deleted?)
  }

  /** The generation of a commit is still there as it was committed. */
  ghost predicate Stands(d: Db, c: Op)
    requires c.Commit?
  {
    var id := (c.tenant, c.batch.header.generationId);
    && id in d.generations && d.generations[id].state == COMMITTED
    && id in d.written && d.written[id] == LedgerOf(c.batch.ins)
  }

  ghost predicate AllStand(d: Db, cs: seq<Op>) {
    forall i | 0 <= i < |cs| :: cs[i].Commit? && Stands(d, cs[i])
  }

  ghost predicate Apart(cs: seq<Op>) {
    forall i, j | 0 <= i < j < |cs| && cs[i].Commit? && cs[j].Commit? ::
      (cs[i].tenant, cs[i].batch.header.generationId) != (cs[j].tenant, cs[j].batch.header.generationId)
  }

  ghost predicate SameRows(a: Db, b: Db) {
    forall u :: SameFor(a.rows, b.rows, u)
  }

  /** A further commit, under an id of its own, leaves a standing generation standing. */
  lemma StillStands(before: Db, c: Op, t: Tenant, key: string, b: Batch, now: int, rows: Rows)
    requires Tracked(before) && c.Commit? && Stands(before, c)
    requires (t, b.header.generationId) !in before.generations
    ensures Stands(AfterCommit(before, t, key, b, now, rows), c)
    ensures (c.tenant, c.batch.header.generationId) != (t, b.header.generationId)
  {
  }

  lemma CommitStands(cat: Catalog, before: Db, cs: seq<Op>, c: Op)
    requires Tracked(before) && AllStand(before, cs) && Apart(cs) && c.Commit?
    requires (c.tenant, c.batch.header.generationId) !in before.generations
    requires Writes(cat, before, c.tenant, c.key, c.batch)
    ensures AllStand(Next(cat, before, c).0, cs + [c]) && Apart(cs + [c])
  {
    CommitWritesOrNot(cat, before, c.tenant, c.key, c.batch, c.now);
    var rows := StageAll(cat, before.rows, c.tenant, c.batch.ins).value;
    forall i | 0 <= i < |cs|
      ensures cs[i].Commit? && Stands(Next(cat, before, c).0, cs[i])
      ensures (cs[i].tenant, cs[i].batch.header.generationId) != (c.tenant, c.batch.header.generationId)
    {
      StillStands(before, cs[i], c.tenant, c.key, c.batch, c.now, rows);
    }
  }

  lemma {:induction false} CommitsStand(cat: Catalog, db: Db, cs: seq<Op>)
    requires Tracked(db) && AllWrite(cat, db, cs)
    ensures AllStand(Run(cat, db, cs), cs) && Apart(cs)
  {
    if cs == [] {
    } else {
      var n := |cs| - 1;
      CommitsStand(cat, db, cs[..n]);
      CommitStands(cat, Run(cat, db, cs[..n]), cs[..n], cs[n]);
      assert cs == cs[..n] + [cs[n]];
    }
  }

  /** The last commit comes out again, and leaves what the others had left. */
  lemma LastComesOut(cat: Catalog, before: Rows, t: Tenant, ins: seq<Insertion>, rows: Rows)
    requires SharedReferencesHold(cat, before, t) && StageAll(cat, before, t, ins).Ok?
    requires (cat.rules.InStore? ==> TargetsAreKeys(cat)) && forall x | x in ins :: UndoableRow(cat, x)
    requires forall u :: SameFor(rows, StageAll(cat, before, t, ins).value, u)
    ensures Unwind(cat, rows, t, Reverse(LedgerOf(ins))).Some?
    ensures forall u :: SameFor(Unwind(cat, rows, t, Reverse(LedgerOf(ins))).value, before, u)
  {
    var staged, todo := StageAll(cat, before, t, ins).value, Reverse(LedgerOf(ins));
    UndoAlwaysClear(cat, before, t, ins);
    UnwindUndoesStaging(cat, before, t, ins);
    assert Alike(cat, rows, staged, t);
    UnwindSame(cat, rows, staged, t, todo);
    OthersRestored(cat, rows, before, staged, t, ins, todo);
  }

  /** The last commit's generation is deleted, and the others still stand. */
  lemma OneBack(cat: Catalog, before: Rows, d: Db, cs: seq<Op>, c: Op, now: int)
    requires Tracked(d) && c.Commit? && PlannedOp(c) && AllStand(d, cs + [c]) && Apart(cs + [c])
    requires SharedReferencesHold(cat, before, c.tenant) && StageAll(cat, before, c.tenant, c.batch.ins).Ok?
    requires (cat.rules.InStore? ==> TargetsAreKeys(cat)) && forall x | x in c.batch.ins :: UndoableRow(cat, x)
    requires forall u :: SameFor(d.rows, StageAll(cat, before, c.tenant, c.batch.ins).value, u)
    ensures var (next, reply) := DeleteNext(cat, d, c.tenant, c.batch.header.generationId, now);
      reply.Deleted? && AllStand(next, cs) && forall u :: SameFor(next.rows, before, u)
  {
    assert Stands(d, (cs + [c])[|cs|]);
    LastComesOut(cat, before, c.tenant, c.batch.ins, d.rows);
    SortedLedgerReverses(c.batch.ins);
    var next := DeleteNext(cat, d, c.tenant, c.batch.header.generationId, now).0;
    forall i | 0 <= i < |cs| ensures cs[i].Commit? && Stands(next, cs[i]) {
      assert (cs + [c])[i] == cs[i] && Stands(d, cs[i]);
    }
  }

  lemma FewerApart(cs: seq<Op>)
    requires cs != [] && Apart(cs)
    ensures Apart(cs[..|cs| - 1]) && cs[..|cs| - 1] + [cs[|cs| - 1]] == cs
  {
  }

  lemma {:induction false} DeletesBack(cat: Catalog, db: Db, cs: seq<Op>, d: Db, now: int)
    requires Tracked(db) && Tracked(d) && AllWrite(cat, db, cs) && AllStand(d, cs) && Apart(cs)
    requires (forall u :: Consistent(cat, db.rows, u)) && (cat.rules.InStore? ==> TargetsAreKeys(cat))
    requires SameRows(d, Run(cat, db, cs))
    ensures DeleteBack(cat, d, cs, now).1 && SameRows(DeleteBack(cat, d, cs, now).0, db)
    decreases |cs|
  {
    if cs == [] {
    } else {
      var n := |cs| - 1;
      var c, before := cs[n], Run(cat, db, cs[..n]);
      CommitWritesOrNot(cat, before, c.tenant, c.key, c.batch, c.now);
      forall u ensures ReferencesHold(cat, before.rows, u) { RunsKeepConsistent(cat, db, cs[..n], u); }
      FewerApart(cs);
      OneBack(cat, before.rows, d, cs[..n], c, now);
      DeletesBack(cat, db, cs[..n], DeleteNext(cat, d, c.tenant, c.batch.header.generationId, now).0, now);
    }
  }

  /**
   * Any number of commits, by any tenants, each of which wrote removable rows: deleting their
   * generations in reverse succeeds every time and leaves every table as it was before the first.
   */
  lemma LastInFirstOut(cat: Catalog, db: Db, cs: seq<Op>, now: int)
    requires Tracked(db) && AllWrite(cat, db, cs)
    requires (forall u :: Consistent(cat, db.rows, u)) && (cat.rules.InStore? ==> TargetsAreKeys(cat))
    ensures forall i | 0 <= i < |cs| :: cs[i].Commit?
    ensures var (after, ok) := DeleteBack(cat, Run(cat, db, cs), cs, now);
      ok && SameRows(after, db)
  {
    CommitsStand(cat, db, cs);
    DeletesBack(cat, db, cs, Run(cat, db, cs), now);
  }
}
