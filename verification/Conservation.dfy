// Over whole runs every table is its seed rows followed by the rows of the generations still committed.
module Conservation {
  import opened Values
  import opened Store
  import opened Integrity
  import opened Undo

  /** A generation as it was committed. */
  datatype Past = Past(tenant: Tenant, generationId: string, ins: seq<Insertion>)

  ghost predicate Live(gens: map<(Tenant, string), Generation>, p: Past) {
    && (p.tenant, p.generationId) in gens
    && gens[(p.tenant, p.generationId)].state == COMMITTED
  }

  /** The rows that the still-committed generations hold in one table, in commit order. */
  ghost function LiveRows(gens: map<(Tenant, string), Generation>, h: seq<Past>, t: Tenant, id: TableId): seq<Row> {
    if h == [] then []
    else
      var n := |h| - 1;
      LiveRows(gens, h[..n], t, id) + (if h[n].tenant == t && Live(gens, h[n]) then RowsFor(h[n].ins, id) else [])
  }

  /** The history after one more operation: a commit that wrote is added. */
  ghost function Extend(cat: Catalog, db: Db, h: seq<Past>, op: Op): seq<Past>
    requires Tracked(db)
  {
    var reply := Next(cat, db, op).1;
    if op.Commit? && reply.Committed? && !reply.replayed
    then h + [Past(op.tenant, op.batch.header.generationId, op.batch.ins)] else h
  }

  /** Every commit that wrote, in order. */
  ghost function History(cat: Catalog, db: Db, ops: seq<Op>): seq<Past>
    requires Tracked(db)
  {
    if ops == [] then []
    else
      var n := |ops| - 1;
      Extend(cat, Run(cat, db, ops[..n]), History(cat, db, ops[..n]), ops[n])
  }

  /** Generation ids are never reused. */
  ghost predicate FreshRun(cat: Catalog, db: Db, ops: seq<Op>)
    requires Tracked(db)
  {
    ops == [] ||
    var n := |ops| - 1;
    FreshRun(cat, db, ops[..n]) && FreshOp(Run(cat, db, ops[..n]), ops[n])
  }

  ghost predicate FreshOp(db: Db, op: Op) {
    op.Commit? ==> (op.tenant, op.batch.header.generationId) !in db.generations
  }

  /** Insertions follow a plan. */
  ghost predicate Planned(ops: seq<Op>) {
    forall i | 0 <= i < |ops| :: PlannedOp(ops[i])
  }

  ghost predicate PlannedOp(op: Op) {
    op.Commit? ==> RanksFall(op.batch.ins)
  }

  ghost predicate Recorded(db: Db, p: Past) {
    && (p.tenant, p.generationId) in db.generations
    && (p.tenant, p.generationId) in db.written
    && db.written[(p.tenant, p.generationId)] == LedgerOf(p.ins)
    && RanksFall(p.ins)
  }

  ghost predicate Known(h: seq<Past>, t: Tenant, id: string) {
    exists i :: 0 <= i < |h| && h[i].tenant == t && h[i].generationId == id
  }

  ghost predicate DistinctIds(h: seq<Past>) {
    forall i, j | 0 <= i < |h| && 0 <= j < |h| && i != j ::
      h[i].tenant != h[j].tenant || h[i].generationId != h[j].generationId
  }

  ghost predicate AllRecorded(h: seq<Past>, db: Db) {
    forall i | 0 <= i < |h| :: Recorded(db, h[i])
  }

  ghost predicate NoneForgotten(h: seq<Past>, db: Db) {
    forall t, id {:trigger Known(h, t, id)} :: (t, id) in db.generations ==> Known(h, t, id)
  }

  ghost predicate WellRecorded(h: seq<Past>, db: Db) {
    DistinctIds(h) && AllRecorded(h, db) && NoneForgotten(h, db)
  }

  ghost predicate ConservedAt(seed: Rows, h: seq<Past>, db: Db, t: Tenant, id: TableId) {
    At(db.rows, t, id) == At(seed, t, id) + LiveRows(db.generations, h, t, id)
  }

  ghost predicate Conserved(seed: Rows, h: seq<Past>, db: Db) {
    forall t, id :: ConservedAt(seed, h, db, t, id)
  }

  // ---- the shape of LiveRows ------------------------------------------------------------

  ghost function OwnRows(gens: map<(Tenant, string), Generation>, p: Past, t: Tenant, id: TableId): seq<Row> {
    if p.tenant == t && Live(gens, p) then RowsFor(p.ins, id) else []
  }

  lemma LiveRowsLast(
    gens: map<(Tenant, string), Generation>, h: seq<Past>, p: Past, t: Tenant, id: TableId)
    ensures LiveRows(gens, h + [p], t, id) == LiveRows(gens, h, t, id) + OwnRows(gens, p, t, id)
  {
    assert (h + [p])[..|h|] == h;
  }

  lemma LastOf<T>(a: seq<T>, b: seq<T>)
    requires b != []
    ensures b == b[..|b| - 1] + [b[|b| - 1]] && a + b == a + b[..|b| - 1] + [b[|b| - 1]]
  {
  }

  lemma Associative<T>(a: seq<T>, b: seq<T>, c: seq<T>)
    ensures a + b + c == a + (b + c)
  {
  }

  lemma {:induction false} LiveRowsSplit(
    gens: map<(Tenant, string), Generation>, a: seq<Past>, b: seq<Past>, t: Tenant, id: TableId)
    ensures LiveRows(gens, a + b, t, id) == LiveRows(gens, a, t, id) + LiveRows(gens, b, t, id)
    decreases |b|
  {
    if b == [] {
      assert a + b == a;
    } else {
      var before, last := b[..|b| - 1], b[|b| - 1];
      LiveRowsSplit(gens, a, before, t, id);
      LastOf(a, b);
      LiveRowsLast(gens, a + before, last, t, id);
      LiveRowsLast(gens, before, last, t, id);
      Associative(LiveRows(gens, a, t, id), LiveRows(gens, before, t, id), OwnRows(gens, last, t, id));
    }
  }

  lemma {:induction false} LiveRowsSame(
    a: map<(Tenant, string), Generation>, b: map<(Tenant, string), Generation>, h: seq<Past>, t: Tenant, id: TableId)
    requires forall i | 0 <= i < |h| && h[i].tenant == t :: Live(a, h[i]) <==> Live(b, h[i])
    ensures LiveRows(a, h, t, id) == LiveRows(b, h, t, id)
  {
    if h == [] {
    } else {
      LiveRowsSame(a, b, h[..|h| - 1], t, id);
    }
  }

  /** One generation's rows sit in one block of each of its tenant's tables. */
  lemma LiveRowsAround(gens: map<(Tenant, string), Generation>, h: seq<Past>, p: nat, t: Tenant, id: TableId)
    requires p < |h| && h[p].tenant == t
    ensures LiveRows(gens, h, t, id) ==
            LiveRows(gens, h[..p], t, id) +
            (if Live(gens, h[p]) then RowsFor(h[p].ins, id) else []) +
            LiveRows(gens, h[p + 1..], t, id)
  {
    assert h == h[..p + 1] + h[p + 1..];
    assert h[..p + 1][..p] == h[..p];
    LiveRowsSplit(gens, h[..p + 1], h[p + 1..], t, id);
  }

  // ---- a successful undo takes exactly its own rows ---------------------------------------

  lemma EraseTakesOwn(cat: Catalog, rows: Rows, t: Tenant, w: WrittenRow, before: seq<Row>, row: Row, after: seq<Row>)
    requires At(rows, t, w.table) == before + [row] + after && RowMatches(row, w.key)
    requires Erase(cat, rows, t, w).Some?
    ensures At(Erase(cat, rows, t, w).value, t, w.table) == before + after
    ensures forall id | id != w.table :: At(Erase(cat, rows, t, w).value, t, id) == At(rows, t, id)
  {
    var table, k := before + [row] + after, |before|;
    assert table[k] == row;
    MatchesOnly(table, w.key, k);
    assert table[..k] == before && table[k + 1..] == after;
  }

  lemma {:induction false} UnwindTakesOwn(
    cat: Catalog, rows: Rows, t: Tenant, ins: seq<Insertion>, id: TableId, pre: seq<Row>, post: seq<Row>)
    requires At(rows, t, id) == pre + RowsFor(ins, id) + post
    requires Unwind(cat, rows, t, Reverse(LedgerOf(ins))).Some?
    ensures At(Unwind(cat, rows, t, Reverse(LedgerOf(ins))).value, t, id) == pre + post
    decreases |ins|
  {
    if ins == [] {
      assert pre + [] + post == pre + post;
    } else {
      var n := |ins| - 1;
      ReverseHead(ins);
      var todo := Reverse(LedgerOf(ins));
      var x, w := ins[n], todo[0];
      assert w == Entry(ins, n) && todo[1..] == Reverse(LedgerOf(ins[..n]));
      OwnRowMatches(x);
      if x.table == id {
        assert At(rows, t, id) == (pre + RowsFor(ins[..n], id)) + [x.row] + post;
        EraseTakesOwn(cat, rows, t, w, pre + RowsFor(ins[..n], id), x.row, post);
      } else {
        assert RowsFor(ins, id) == RowsFor(ins[..n], id);
      }
      UnwindTakesOwn(cat, Erase(cat, rows, t, w).value, t, ins[..n], id, pre, post);
    }
  }

  // ---- one step ----------------------------------------------------------------------------

  ghost predicate SameLive(
    a: map<(Tenant, string), Generation>, b: map<(Tenant, string), Generation>, h: seq<Past>)
  {
    forall i | 0 <= i < |h| :: Live(a, h[i]) <==> Live(b, h[i])
  }

  lemma CommitConserves(
    cat: Catalog, seed: Rows, h: seq<Past>, db: Db, past: Past, after: Db, u: Tenant, id: TableId)
    requires ConservedAt(seed, h, db, u, id)
    requires StageAll(cat, db.rows, past.tenant, past.ins) == Ok(after.rows)
    requires SameLive(after.generations, db.generations, h) && Live(after.generations, past)
    ensures ConservedAt(seed, h + [past], after, u, id)
  {
    assert (h + [past])[..|h|] == h;
    StagedRows(cat, db.rows, past.tenant, past.ins, u, id);
    LiveRowsSame(after.generations, db.generations, h, u, id);
  }

  /** A tenant's table around the block of one live generation. */
  ghost function Pre(seed: Rows, h: seq<Past>, gens: map<(Tenant, string), Generation>, p: nat, id: TableId): seq<Row>
    requires p < |h|
  {
    At(seed, h[p].tenant, id) + LiveRows(gens, h[..p], h[p].tenant, id)
  }

  ghost function Post(h: seq<Past>, gens: map<(Tenant, string), Generation>, p: nat, id: TableId): seq<Row>
    requires p < |h|
  {
    LiveRows(gens, h[p + 1..], h[p].tenant, id)
  }

  lemma Regroup<T>(s: seq<T>, a: seq<T>, b: seq<T>, c: seq<T>)
    ensures s + (a + b + c) == s + a + b + c
    ensures s + (a + c) == s + a + c
    ensures a + [] + c == a + c
  {
  }

  lemma BlockInPlace(seed: Rows, h: seq<Past>, db: Db, p: nat, id: TableId)
    requires p < |h| && Live(db.generations, h[p]) && ConservedAt(seed, h, db, h[p].tenant, id)
    ensures At(db.rows, h[p].tenant, id) ==
            Pre(seed, h, db.generations, p, id) + RowsFor(h[p].ins, id) + Post(h, db.generations, p, id)
  {
    LiveRowsAround(db.generations, h, p, h[p].tenant, id);
    Regroup(At(seed, h[p].tenant, id), LiveRows(db.generations, h[..p], h[p].tenant, id), RowsFor(h[p].ins, id),
            Post(h, db.generations, p, id));
  }

  lemma DeleteCutsBlock(
    cat: Catalog, seed: Rows, h: seq<Past>, db: Db, p: nat, rows: Rows, id: TableId)
    requires p < |h| && Live(db.generations, h[p]) && ConservedAt(seed, h, db, h[p].tenant, id)
    requires Unwind(cat, db.rows, h[p].tenant, Reverse(LedgerOf(h[p].ins))) == Some(rows)
    ensures At(db.rows, h[p].tenant, id) ==
            Pre(seed, h, db.generations, p, id) + RowsFor(h[p].ins, id) + Post(h, db.generations, p, id)
    ensures At(rows, h[p].tenant, id) == Pre(seed, h, db.generations, p, id) + Post(h, db.generations, p, id)
  {
    BlockInPlace(seed, h, db, p, id);
    UnwindTakesOwn(cat, db.rows, h[p].tenant, h[p].ins, id,
                   Pre(seed, h, db.generations, p, id), Post(h, db.generations, p, id));
  }

  lemma DeleteConserves(
    cat: Catalog, seed: Rows, h: seq<Past>, db: Db, p: nat, after: Db, u: Tenant, id: TableId)
    requires Conserved(seed, h, db) && p < |h| && Live(db.generations, h[p])
    requires Unwind(cat, db.rows, h[p].tenant, Reverse(LedgerOf(h[p].ins))) == Some(after.rows)
    requires !Live(after.generations, h[p])
    requires SameLive(after.generations, db.generations, h[..p] + h[p + 1..])
    ensures ConservedAt(seed, h, after, u, id)
  {
    assert ConservedAt(seed, h, db, u, id);
    SameLiveParts(after.generations, db.generations, h, p);
    LiveRowsSame(after.generations, db.generations, h[..p], u, id);
    LiveRowsSame(after.generations, db.generations, h[p + 1..], u, id);
    if u == h[p].tenant {
      DeleteCutsBlock(cat, seed, h, db, p, after.rows, id);
      LiveRowsAround(after.generations, h, p, u, id);
      Regroup(At(seed, u, id), LiveRows(db.generations, h[..p], u, id), [], Post(h, db.generations, p, id));
    } else {
      UnwindSparesOthers(cat, db.rows, h[p].tenant, Reverse(LedgerOf(h[p].ins)), u);
      LiveRowsElsewhere(after.generations, h, p, u, id);
      LiveRowsElsewhere(db.generations, h, p, u, id);
    }
  }

  lemma SameLiveParts(
    a: map<(Tenant, string), Generation>, b: map<(Tenant, string), Generation>, h: seq<Past>, p: nat)
    requires p < |h| && SameLive(a, b, h[..p] + h[p + 1..])
    ensures SameLive(a, b, h[..p]) && SameLive(a, b, h[p + 1..])
  {
    var head, tail := h[..p], h[p + 1..];
    assert forall i | 0 <= i < |head| :: head[i] == (head + tail)[i];
    assert forall i | 0 <= i < |tail| :: tail[i] == (head + tail)[p + i];
  }

  lemma LiveRowsElsewhere(gens: map<(Tenant, string), Generation>, h: seq<Past>, p: nat, u: Tenant, id: TableId)
    requires p < |h| && h[p].tenant != u
    ensures LiveRows(gens, h, u, id) == LiveRows(gens, h[..p], u, id) + LiveRows(gens, h[p + 1..], u, id)
  {
    assert h == h[..p + 1] + h[p + 1..];
    assert h[..p + 1][..p] == h[..p];
    LiveRowsSplit(gens, h[..p + 1], h[p + 1..], u, id);
    assert LiveRows(gens, h[..p], u, id) + [] == LiveRows(gens, h[..p], u, id);
  }

  /** `after` is `before` with exactly the inserted block cut out. */
  ghost predicate BlockRemoved(before: Rows, after: Rows, t: Tenant, ins: seq<Insertion>, id: TableId) {
    exists pre, post: seq<Row> ::
      At(before, t, id) == pre + RowsFor(ins, id) + post && At(after, t, id) == pre + post
  }

  // ---- whole runs ---------------------------------------------------------------------------

  lemma RecordedCommit(h: seq<Past>, db: Db, past: Past, after: Db, g: Generation)
    requires WellRecorded(h, db) && RanksFall(past.ins) && g.state == COMMITTED
    requires (past.tenant, past.generationId) !in db.generations
    requires after.generations == db.generations[(past.tenant, past.generationId) := g]
    requires after.written == db.written[(past.tenant, past.generationId) := LedgerOf(past.ins)]
    ensures WellRecorded(h + [past], after)
    ensures SameLive(after.generations, db.generations, h) && Live(after.generations, past)
  {
    var more := h + [past];
    forall i | 0 <= i < |h|
      ensures Recorded(after, h[i])
      ensures h[i].tenant != past.tenant || h[i].generationId != past.generationId
      ensures Live(after.generations, h[i]) <==> Live(db.generations, h[i])
    {
      assert Recorded(db, h[i]);
    }
    forall t, id | (t, id) in after.generations ensures Known(more, t, id) {
      if (t, id) in db.generations {
        assert Known(h, t, id);
        var i :| 0 <= i < |h| && h[i].tenant == t && h[i].generationId == id;
        assert more[i] == h[i];
      } else {
        assert more[|h|] == past;
      }
    }
  }

  lemma RecordedDelete(h: seq<Past>, db: Db, after: Db, p: nat, g: Generation)
    requires WellRecorded(h, db) && p < |h| && g.state == DELETED
    requires after.generations == db.generations[(h[p].tenant, h[p].generationId) := g] && after.written == db.written
    ensures WellRecorded(h, after)
    ensures SameLive(after.generations, db.generations, h[..p] + h[p + 1..]) && !Live(after.generations, h[p])
  {
    forall i | 0 <= i < |h|
      ensures Recorded(after, h[i]) && (i != p ==> (Live(after.generations, h[i]) <==> Live(db.generations, h[i])))
    {
      assert Recorded(db, h[i]);
    }
    assert Recorded(db, h[p]);
    forall t, id | (t, id) in after.generations ensures Known(h, t, id) {
      assert (t, id) in db.generations;
    }
  }

  /** A committed generation stands in the history, and its ledger unwinds in reverse. */
  lemma FindPast(h: seq<Past>, db: Db, t: Tenant, id: string) returns (p: nat)
    requires WellRecorded(h, db) && (t, id) in db.generations && (t, id) in db.written
    ensures p < |h| && h[p].tenant == t && h[p].generationId == id
    ensures SortLedger(db.written[(t, id)]) == Reverse(LedgerOf(h[p].ins))
  {
    assert Known(h, t, id);
    p :| 0 <= p < |h| && h[p].tenant == t && h[p].generationId == id;
    assert Recorded(db, h[p]);
    SortedLedgerReverses(h[p].ins);
  }

  lemma CommitStep(cat: Catalog, seed: Rows, h: seq<Past>, db: Db, t: Tenant, key: string, b: Batch, now: int)
    requires Tracked(db) && Conserved(seed, h, db) && WellRecorded(h, db)
    requires RanksFall(b.ins) && (t, b.header.generationId) !in db.generations
    requires Writes(cat, db, t, key, b)
    ensures var after := CommitNext(cat, db, t, key, b, now).0;
      var more := h + [Past(t, b.header.generationId, b.ins)];
      Conserved(seed, more, after) && WellRecorded(more, after)
  {
    CommitWritesOrNot(cat, db, t, key, b, now);
    var after, past := CommitNext(cat, db, t, key, b, now).0, Past(t, b.header.generationId, b.ins);
    RecordedCommit(h, db, past, after, Generation(b.header, COMMITTED, now, None));
    forall u, id ensures ConservedAt(seed, h + [past], after, u, id) {
      CommitConserves(cat, seed, h, db, past, after, u, id);
    }
  }

  lemma DeletedStep(
    cat: Catalog, seed: Rows, h: seq<Past>, db: Db, t: Tenant, id: string, after: Db, g: Generation)
    requires Conserved(seed, h, db) && WellRecorded(h, db)
    requires (t, id) in db.generations && db.generations[(t, id)].state == COMMITTED && g.state == DELETED
    requires (t, id) in db.written && Unwind(cat, db.rows, t, SortLedger(db.written[(t, id)])) == Some(after.rows)
    requires after.generations == db.generations[(t, id) := g] && after.written == db.written
    ensures Conserved(seed, h, after) && WellRecorded(h, after)
  {
    var p := FindPast(h, db, t, id);
    RecordedDelete(h, db, after, p, g);
    forall u, table ensures ConservedAt(seed, h, after, u, table) {
      DeleteConserves(cat, seed, h, db, p, after, u, table);
    }
  }

  lemma DeleteStep(cat: Catalog, seed: Rows, h: seq<Past>, db: Db, t: Tenant, id: string, now: int)
    requires Tracked(db) && Conserved(seed, h, db) && WellRecorded(h, db)
    ensures Conserved(seed, h, DeleteNext(cat, db, t, id, now).0)
    ensures WellRecorded(h, DeleteNext(cat, db, t, id, now).0)
  {
    var (after, reply) := DeleteNext(cat, db, t, id, now);
    if (t, id) in db.generations && db.generations[(t, id)].state == COMMITTED && reply.Deleted? {
      DeletedStep(cat, seed, h, db, t, id, after, reply.result);
    }
  }

  /**
   * Under either repository's rules, from a store without generations, after any sequence of commits,
   * replays, deletes and failed attempts, by any tenants and with fresh generation ids: each tenant
   * table is its seed rows followed by the rows of the generations still COMMITTED, in commit order.
   */
  lemma {:induction false} RunsConserve(cat: Catalog, db: Db, ops: seq<Op>)
    requires Tracked(db) && db.generations == map[] && FreshRun(cat, db, ops) && Planned(ops)
    ensures Conserved(db.rows, History(cat, db, ops), Run(cat, db, ops))
    ensures WellRecorded(History(cat, db, ops), Run(cat, db, ops))
  {
    if ops == [] {
      assert forall t, id :: ConservedAt(db.rows, [], db, t, id);
    } else {
      var n := |ops| - 1;
      RunsConserve(cat, db, ops[..n]);
      StepConserves(cat, db.rows, History(cat, db, ops[..n]), Run(cat, db, ops[..n]), ops[n]);
    }
  }

  lemma StepConserves(cat: Catalog, seed: Rows, h: seq<Past>, db: Db, op: Op)
    requires Tracked(db) && FreshOp(db, op) && PlannedOp(op)
    requires Conserved(seed, h, db) && WellRecorded(h, db)
    ensures Conserved(seed, Extend(cat, db, h, op), Next(cat, db, op).0)
    ensures WellRecorded(Extend(cat, db, h, op), Next(cat, db, op).0)
  {
    if op.Delete? {
      DeleteStep(cat, seed, h, db, op.tenant, op.generationId, op.now);
    } else {
      CommitWritesOrNot(cat, db, op.tenant, op.key, op.batch, op.now);
      if Writes(cat, db, op.tenant, op.key, op.batch) {
        CommitStep(cat, seed, h, db, op.tenant, op.key, op.batch, op.now);
      }
    }
  }

  /**
   * In any such run a delete that succeeds has removed its own block of rows from each table and
   * nothing else, although written keys need not be unique: one match is always its own row.
   */
  lemma DeleteTakesItsOwnRows(cat: Catalog, db: Db, ops: seq<Op>, t: Tenant, id: string, now: int) returns (p: Past)
    requires Tracked(db) && db.generations == map[] && FreshRun(cat, db, ops) && Planned(ops)
    requires (t, id) in Run(cat, db, ops).generations && Run(cat, db, ops).generations[(t, id)].state == COMMITTED
    requires DeleteNext(cat, Run(cat, db, ops), t, id, now).1.Deleted?
    ensures p in History(cat, db, ops) && p.tenant == t && p.generationId == id
    ensures forall table :: BlockRemoved(
      Run(cat, db, ops).rows, DeleteNext(cat, Run(cat, db, ops), t, id, now).0.rows, t, p.ins, table)
  {
    RunsConserve(cat, db, ops);
    var h, mid := History(cat, db, ops), Run(cat, db, ops);
    var i := FindPast(h, mid, t, id);
    p := h[i];
    var after := DeleteNext(cat, mid, t, id, now).0;
    forall table ensures BlockRemoved(mid.rows, after.rows, t, p.ins, table) {
      assert ConservedAt(db.rows, h, mid, t, table);
      DeleteCutsBlock(cat, db.rows, h, mid, i, after.rows, table);
    }
  }
}
