// persistence/sql_repository.py: bounded retry around one database transaction.
module SqlRepository {
  import opened Values
  import opened Store
  import opened Interleaving

  /** Repeating a commit that went through finds it and writes nothing; one that is refused leaves no trace. */
  lemma CommitTwice(cat: Catalog, db: Db, t: Tenant, key: string, b: Batch, now: int, later: int)
    requires Tracked(db) && Bound(db, t, key) && b.header.generationId != ""
    ensures var (after, reply) := CommitNext(cat, db, t, key, b, now);
      && (reply.Refused? ==> after == db)
      && (reply.Committed? ==>
            Bound(after, t, key) && CommitNext(cat, after, t, key, b, later) == (after, Committed(reply.result, true)))
      && (reply.Refused? || reply.Committed?)
  {
    FoundWhenBound(db, t, key);
    CommitWritesOrNot(cat, db, t, key, b, now);
  }

  /** Repeating a delete that went through answers the same and changes nothing. */
  lemma DeleteTwice(cat: Catalog, db: Db, t: Tenant, generationId: string, now: int, later: int)
    requires Tracked(db)
    ensures var (after, reply) := DeleteNext(cat, db, t, generationId, now);
      && (reply.Deleted? || reply.Missing? || reply == Refused(DeleteConflict))
      && (!reply.Deleted? ==> after == db)
      && (reply.Deleted? ==> DeleteNext(cat, after, t, generationId, later) == (after, reply))
  {
  }

  /** Where a transient error strikes an attempt, if it does: before the database commits, or after. */
  datatype Strike = Clean | Before | After

  /** The strike ends the attempt with a transient error: an acknowledgement is lost only where there is one. */
  predicate Struck(strike: Strike, acknowledged: bool) {
    strike == Before || (strike == After && acknowledged)
  }

  function Pow2(n: nat): (p: real)
    ensures p >= 1.0
  {
    if n == 0 then 1.0 else 2.0 * Pow2(n - 1)
  }

  /** All who have rows in the database. */
  function Tenants(rows: Rows): set<Tenant> {
    set place | place in rows :: place.0
  }

  predicate InUse(existing: seq<Row>, row: Row, key: seq<string>) {
    CNull !in Tuple(row, key) && exists item | item in existing :: Tuple(item, key) == Tuple(row, key)
  }

  /** A unique index spans the rows of all tenants. */
  predicate Duplicate(rows: Rows, id: TableId, row: Row, key: seq<string>) {
    exists u | u in Tenants(rows) :: InUse(At(rows, u, id), row, key)
  }

  /** A foreign key that no row of any tenant meets. */
  predicate Dangling(rows: Rows, row: Row, fk: ForeignKey) {
    && CNull !in Tuple(row, fk.columns)
    && forall u | u in Tenants(rows) :: forall target | target in At(rows, u, fk.target) ::
         Tuple(target, fk.targetColumns) != Tuple(row, fk.columns)
  }

  /** A reference to the deleted row that has lost its target. */
  predicate Stranded(after: Rows, id: TableId, row: Row, fk: ForeignKey, candidate: Row) {
    fk.target == id && Refers(fk, candidate, row) && Dangling(after, candidate, fk)
  }

  predicate Strands(after: Rows, u: Tenant, source: TableId, id: TableId, row: Row, fk: ForeignKey) {
    exists candidate | candidate in At(after, u, source) :: Stranded(after, id, row, fk, candidate)
  }

  lemma DanglingExactly(cat: Catalog, rows: Rows, t: Tenant, row: Row, fk: ForeignKey)
    requires cat.rules.InDatabase?
    ensures Dangling(rows, row, fk) <==> !Satisfied(cat, rows, t, row, fk)
  {
    if Satisfied(cat, rows, t, row, fk) && CNull !in Tuple(row, fk.columns) {
      var u :| Shares(cat, t, u) && Meets(rows, u, row, fk);
      assert u in Tenants(rows);
    }
    if !Dangling(rows, row, fk) && CNull !in Tuple(row, fk.columns) {
      var u :| u in Tenants(rows) && exists target | target in At(rows, u, fk.target) ::
        Tuple(target, fk.targetColumns) == Tuple(row, fk.columns);
      assert Meets(rows, u, row, fk) && Shares(cat, t, u);
    }
  }

  lemma DuplicateExactly(cat: Catalog, def: TableDef, rows: Rows, t: Tenant, id: TableId, row: Row)
    requires cat.rules.InDatabase?
    ensures (exists key | key in def.uniqueKeys :: Duplicate(rows, id, row, key)) <==>
            Clashes(cat, def, rows, t, id, row)
  {
    if key :| key in def.uniqueKeys && Duplicate(rows, id, row, key) {
      var u :| u in Tenants(rows) && InUse(At(rows, u, id), row, key);
      assert Taken(At(rows, u, id), row, key);
      assert Shares(cat, t, u) && Conflicts(def, At(rows, u, id), row);
    }
    if Clashes(cat, def, rows, t, id, row) {
      var u :| Shares(cat, t, u) && Conflicts(def, At(rows, u, id), row);
      var key :| key in def.uniqueKeys && Taken(At(rows, u, id), row, key);
      assert u in Tenants(rows) && InUse(At(rows, u, id), row, key);
      assert Duplicate(rows, id, row, key);
    }
  }

  lemma StrandsExactly(cat: Catalog, after: Rows, t: Tenant, id: TableId, row: Row)
    requires cat.rules.InDatabase?
    ensures (exists source | source in cat.tables :: exists fk | fk in cat.tables[source].foreignKeys ::
               exists u | u in Tenants(after) :: Strands(after, u, source, id, row, fk))
            <==> LeavesOrphan(cat, after, t, id, row)
  {
    if source, fk, u :|
      source in cat.tables && fk in cat.tables[source].foreignKeys && u in Tenants(after)
      && Strands(after, u, source, id, row, fk)
    {
      var candidate :| candidate in At(after, u, source) && Stranded(after, id, row, fk, candidate);
      DanglingExactly(cat, after, u, candidate, fk);
      assert RealReference(cat, after, u, id, row, source, fk, candidate);
      assert Shares(cat, t, u) && OrphansOf(cat, after, u, id, row);
    }
    if LeavesOrphan(cat, after, t, id, row) {
      var u :| Shares(cat, t, u) && OrphansOf(cat, after, u, id, row);
      var source, fk, candidate :|
        RealReference(cat, after, u, id, row, source, fk, candidate) && !Satisfied(cat, after, u, candidate, fk);
      DanglingExactly(cat, after, u, candidate, fk);
      assert u in Tenants(after) && Stranded(after, id, row, fk, candidate);
      assert Strands(after, u, source, id, row, fk);
    }
  }

  /** Each call but the last was struck; the caller is told so if and only if the last was too, with none left. */
  ghost predicate Retried(strikes: seq<Strike>, calls: nat, acknowledged: bool, exhausted: bool) {
    && 1 <= calls <= |strikes| && (forall i | 0 <= i < calls - 1 :: Struck(strikes[i], acknowledged))
    && (exhausted <==> Struck(strikes[calls - 1], acknowledged)) && (exhausted ==> calls == |strikes|)
  }

  predicate AllBefore(strikes: seq<Strike>) {
    forall i | 0 <= i < |strikes| :: strikes[i] == Before
  }

  class SqlGenerationRepository {
    const tables: map<TableId, TableDef>
    const catalog := Catalog(tables, InDatabase)
    const attempts: nat
    const baseSeconds: real
    const capSeconds: real
    var db: Db

    ghost predicate Valid()
      reads this
    {
      Tracked(db) && 1 <= attempts <= 10 && 0.0 <= baseSeconds <= capSeconds
    }

    constructor (tables: map<TableId, TableDef>, attempts: nat, baseSeconds: real, capSeconds: real, db: Db)
      requires 1 <= attempts <= 10 && 0.0 <= baseSeconds <= capSeconds && Tracked(db)
      ensures Valid() && this.db == db && this.tables == tables && this.attempts == attempts
      ensures this.baseSeconds == baseSeconds && this.capSeconds == capSeconds
    {
      this.tables, this.attempts := tables, attempts;
      this.baseSeconds, this.capSeconds, this.db := baseSeconds, capSeconds, db;
    }

    /** One attempt: the body raises before the commit, or the acknowledgement is lost, or all is well. */
    method Attempt(t: Tenant, key: string, b: Batch, now: int, strike: Strike, ghost next: (Db, Reply))
        returns (transient: bool, reply: Reply)
      requires Valid() && next == CommitNext(catalog, db, t, key, b, now)
      modifies this
      ensures Valid()
      ensures db == (if strike == Before then old(db) else next.0)
      ensures strike != Before ==> reply == next.1
      ensures transient <==> Struck(strike, next.1.Committed?)
    {
      var existing := FindIdempotent(db, t, key);
      if strike == Before {
        return true, Missing;
      }
      if existing.Some? {
        if existing.value.header.requestDigest != b.header.requestDigest {
          return false, Refused(IdempotencyKeyReused);
        }
        return strike == After, Committed(existing.value, true);
      }
      var error, staged := Insert(t, b.ins);
      CommitOfNewKey(catalog, db, t, key, b, now);
      if error.Some? {
        return false, Refused(error.value);
      }
      if (t, b.header.generationId) in db.generations || (t, key) in db.idempotency {
        return false, Refused(DestinationConflict);
      }
      var result := Generation(b.header, COMMITTED, now, None);
      db := AfterCommit(db, t, key, b, now, staged);
      return strike == After, Committed(result, false);
    }

    /** The INSERT statements, with the database's own checks on each. */
    method Insert(t: Tenant, ins: seq<Insertion>) returns (error: Option<Error>, staged: Rows)
      ensures StageAll(catalog, db.rows, t, ins) == if error.Some? then Err(error.value) else Ok(staged)
    {
      staged := db.rows;
      error := None;
      for k := 0 to |ins|
        invariant StageAll(catalog, db.rows, t, ins[..k]) == Ok(staged)
        invariant error == None
      {
        assert ins[..k + 1][..k] == ins[..k];
        error := Rejects(t, staged, ins[k]);
        if error.Some? {
          StagePrefix(catalog, db.rows, t, ins, k + 1);
          return;
        }
        staged := Put(staged, t, ins[k]);
      }
      assert ins[..|ins|] == ins;
    }

    method Rejects(t: Tenant, staged: Rows, x: Insertion) returns (error: Option<Error>)
      ensures error == Refusal(catalog, staged, t, x)
    {
      if x.table !in tables {
        return Some(DestinationInvalid);
      }
      var def := tables[x.table];
      if !(def.required <= x.row.Keys)
         || (exists c | c in def.required :: Canon(x.row[c]) == CNull)
         || exists c | c in x.types :: c !in def.columns || def.columns[c] != x.types[c] {
        return Some(DestinationInvalid);
      }
      DuplicateExactly(catalog, def, staged, t, x.table, x.row);
      if exists key | key in def.uniqueKeys :: Duplicate(staged, x.table, x.row, key) {
        return Some(DestinationConflict);
      }
      // foreign keys are judged at the end of the statement, with the row in place
      var after := Put(staged, t, x);
      forall fk ensures Dangling(after, x.row, fk) <==> !Satisfied(catalog, after, t, x.row, fk) {
        DanglingExactly(catalog, after, t, x.row, fk);
      }
      if exists fk | fk in def.foreignKeys :: Dangling(after, x.row, fk) {
        return Some(DestinationConflict);
      }
      assert ForeignKeysMet(catalog, def, after, t, x.row);
      return None;
    }

    /**
     * `commit` under `_retry`, for every schedule of transient errors.  The database ends in its
     * former state or in the state of exactly one transaction; on exhaustion it is the former
     * state unless some attempt that would have committed lost only its acknowledgement.
     */
    method Commit(t: Tenant, key: string, b: Batch, now: int, strikes: seq<Strike>, random: seq<real>)
        returns (reply: Reply, calls: nat, slept: real)
      requires Valid() && Bound(db, t, key) && b.header.generationId != ""
      requires |strikes| == |random| == attempts && forall i | 0 <= i < attempts :: 0.0 <= random[i] < 1.0
      modifies this
      ensures Valid()
      ensures db == old(db) || db == CommitNext(catalog, old(db), t, key, b, now).0
      // success: the one commit is there, and is this call's own unless the key was bound before
      ensures reply.Committed? ==>
        && db == CommitNext(catalog, old(db), t, key, b, now).0
        && CommitNext(catalog, old(db), t, key, b, now).1.Committed?
        && reply.result == CommitNext(catalog, old(db), t, key, b, now).1.result
        && (t, key) in db.idempotency && db.idempotency[(t, key)] == reply.result.header.generationId
      ensures reply.Committed? && !reply.replayed ==>
                (t, key) !in old(db).idempotency && reply.result.header == b.header
      // a refusal by the database is final and leaves no trace
      ensures reply.Refused? && reply.error != DependencyUnavailable ==>
        db == old(db) && reply == CommitNext(catalog, old(db), t, key, b, now).1
      // exhaustion
      ensures reply == Refused(DependencyUnavailable) ==>
        && calls == attempts && (forall i | 0 <= i < attempts :: strikes[i] != Clean)
        && (db == old(db) <==>
            (forall i | 0 <= i < attempts :: strikes[i] == Before)
            || CommitNext(catalog, old(db), t, key, b, now).0 == old(db))
      ensures reply.Committed? || reply.Refused?
      // it gives up exactly when every attempt is struck, and stops at the first that is not
      ensures var committed := CommitNext(catalog, old(db), t, key, b, now).1.Committed?;
        && 1 <= calls <= attempts && (forall i | 0 <= i < calls - 1 :: Struck(strikes[i], committed))
        && (reply == Refused(DependencyUnavailable) <==> Struck(strikes[calls - 1], committed))
      // it is a replay exactly if the key was bound before, or an earlier attempt bound it unnoticed
      ensures reply.Committed? ==>
        (reply.replayed <==> (t, key) in old(db).idempotency || exists i :: 0 <= i < calls - 1 && strikes[i] == After)
      ensures slept == Waits(random, calls - 1) && WithinBackoff(slept, attempts - 1)
    {
      ghost var first := CommitNext(catalog, db, t, key, b, now);
      ghost var committed := first.1.Committed?;
      CommitTwice(catalog, db, t, key, b, now, now);
      StagingErrors(catalog, db.rows, t, b.ins);
      calls, slept := 0, 0.0;
      ghost var struck := false;
      for attempt := 0 to attempts
        invariant Valid() && calls == attempt
        invariant struck <==> exists i :: 0 <= i < attempt && strikes[i] == After
        invariant forall i | 0 <= i < attempt :: Struck(strikes[i], committed)
        invariant struck ==> first.1.Committed? && db == first.0
        invariant !struck ==> db == old(db)
        invariant attempt < attempts ==> slept == Waits(random, attempt)
        invariant attempt < attempts
      {
        ghost var next := CommitNext(catalog, db, t, key, b, now);
        var transient;
        transient, reply := Attempt(t, key, b, now, strikes[attempt], next);
        calls := calls + 1;
        if !transient {
          Rested(random, attempt);
          return;
        }
        struck := struck || strikes[attempt] == After;
        if attempt + 1 == attempts {
          reply := Refused(DependencyUnavailable);
          Rested(random, attempt);
          return;
        }
        slept := Backoff(attempt, slept, random);
      }
    }

    /** One DELETE statement, with the row count and the foreign keys that the database checks. */
    method EraseRow(t: Tenant, staged: Rows, w: WrittenRow) returns (erased: Option<Rows>)
      ensures erased == Erase(catalog, staged, t, w)
    {
      var table := At(staged, t, w.table);
      if exists c | c in w.key :: Canon(w.key[c]) == CNull {
        return None;
      }
      var found := Matches(table, w.key);
      if |found| != 1 {
        return None;
      }
      var row, after := table[found[0]], Without(staged, t, w.table, found[0]);
      StrandsExactly(catalog, after, t, w.table, row);
      if exists source | source in tables :: exists fk | fk in tables[source].foreignKeys ::
           exists u | u in Tenants(after) :: Strands(after, u, source, w.table, row, fk) {
        return None;
      }
      return Some(after);
    }

    /** The DELETE statements, in the order the ledger was selected. */
    method EraseAll(t: Tenant, todo: seq<WrittenRow>) returns (staged: Option<Rows>)
      ensures staged == Unwind(catalog, db.rows, t, todo)
    {
      staged := Some(db.rows);
      for k := 0 to |todo|
        invariant staged.Some?
        invariant Unwind(catalog, db.rows, t, todo) == Unwind(catalog, staged.value, t, todo[k..])
      {
        assert todo[k..][0] == todo[k] && todo[k..][1..] == todo[k + 1..];
        staged := EraseRow(t, staged.value, todo[k]);
        if staged.None? {
          return;
        }
      }
    }

    /** One `delete` transaction under a strike. */
    method AttemptDelete(t: Tenant, generationId: string, now: int, strike: Strike, ghost next: (Db, Reply))
        returns (transient: bool, reply: Reply)
      requires Valid() && next == DeleteNext(catalog, db, t, generationId, now)
      modifies this
      ensures Valid()
      ensures db == (if strike == Before then old(db) else next.0)
      ensures strike != Before ==> reply == next.1
      ensures transient <==> Struck(strike, !next.1.Refused?)
    {
      if strike == Before {
        return true, Missing;
      }
      var id := (t, generationId);
      if id !in db.generations {
        return strike == After, Missing;
      }
      if db.generations[id].state == DELETED {
        return strike == After, Deleted(db.generations[id]);
      }
      var staged := EraseAll(t, SortLedger(db.written[id]));
      if staged.None? {
        return false, Refused(DeleteConflict);
      }
      var result := db.generations[id].(state := DELETED, deletedAt := Some(now));
      db := db.(rows := staged.value, generations := db.generations[id := result]);
      return strike == After, Deleted(result);
    }

    /**
     * `delete` under `_retry`, for every schedule of transient errors: the rows are removed at most
     * once, and a delete that answers has the outcome of exactly one transaction.
     */
    method Delete(t: Tenant, generationId: string, now: int, strikes: seq<Strike>, random: seq<real>)
        returns (reply: Reply, calls: nat, slept: real)
      requires Valid()
      requires |strikes| == |random| == attempts && forall i | 0 <= i < attempts :: 0.0 <= random[i] < 1.0
      modifies this
      ensures Valid()
      ensures var first := DeleteNext(catalog, old(db), t, generationId, now);
        && Retried(strikes, calls, !first.1.Refused?, reply == Refused(DependencyUnavailable))
        && (reply != Refused(DependencyUnavailable) ==> (db, reply) == first)
        && (reply == Refused(DependencyUnavailable) ==> db == if AllBefore(strikes) then old(db) else first.0)
        && (first.1.Refused? ==> db == old(db))
      ensures reply.Deleted? || reply.Missing? || reply.Refused?
      ensures slept == Waits(random, calls - 1) && WithinBackoff(slept, attempts - 1)
    {
      ghost var first := DeleteNext(catalog, db, t, generationId, now);
      DeleteTwice(catalog, db, t, generationId, now, now);
      calls, slept := 0, 0.0;
      ghost var struck := false;
      for attempt := 0 to attempts
        invariant Valid() && calls == attempt < attempts
        invariant struck <==> !AllBefore(strikes[..attempt])
        invariant forall i | 0 <= i < attempt :: Struck(strikes[i], !first.1.Refused?)
        invariant db == if struck then first.0 else old(db)
        invariant struck ==> !first.1.Refused?
        invariant slept == Waits(random, attempt)
      {
        ghost var next := DeleteNext(catalog, db, t, generationId, now);
        assert next == first;
        var transient;
        transient, reply := AttemptDelete(t, generationId, now, strikes[attempt], next);
        calls := calls + 1;
        if !transient {
          Rested(random, attempt);
          return;
        }
        struck := struck || strikes[attempt] != Before;
        BeforeStep(strikes, attempt);
        if attempt + 1 == attempts {
          reply := Refused(DependencyUnavailable);
          Rested(random, attempt);
          return;
        }
        slept := Backoff(attempt, slept, random);
      }
    }

    static lemma BeforeStep(strikes: seq<Strike>, n: nat)
      requires n < |strikes|
      ensures AllBefore(strikes[..n + 1]) <==> AllBefore(strikes[..n]) && strikes[n] == Before
      ensures n + 1 == |strikes| ==> strikes[..n + 1] == strikes
    {
      assert strikes[..n + 1] == strikes[..n] + [strikes[n]];
    }

    /** Total sleep after so many transient failures. */
    ghost predicate WithinBackoff(slept: real, failures: nat) {
      slept <= failures as real * capSeconds && slept <= baseSeconds * (Pow2(failures) - 1.0)
    }

    /** The longest wait after an attempt: it doubles each time, up to the cap. */
    ghost function Longest(attempt: nat): (maximum: real)
      ensures maximum == capSeconds || maximum == baseSeconds * Pow2(attempt)
      ensures maximum <= capSeconds && maximum <= baseSeconds * Pow2(attempt)
    {
      if capSeconds < baseSeconds * Pow2(attempt) then capSeconds else baseSeconds * Pow2(attempt)
    }

    /** One jittered wait after each of the first so many attempts. */
    ghost function Waits(random: seq<real>, failures: nat): real
      requires failures <= |random|
    {
      if failures == 0 then 0.0 else Waits(random, failures - 1) + Longest(failures - 1) * random[failures - 1]
    }

    /** `sleeper(min(cap, base * 2**attempt) * random_value())` */
    method Backoff(attempt: nat, slept0: real, random: seq<real>) returns (slept: real)
      requires Valid() && attempt < |random| && 0.0 <= random[attempt] < 1.0 && slept0 == Waits(random, attempt)
      ensures slept == Waits(random, attempt + 1)
    {
      var doubled := baseSeconds * Pow2(attempt);
      var maximum := if capSeconds < doubled then capSeconds else doubled;
      slept := slept0 + maximum * random[attempt];
    }

    lemma LongestIsWait(failures: nat)
      requires 0.0 <= baseSeconds <= capSeconds
      ensures 0.0 <= Longest(failures)
    {
      Product(baseSeconds, Pow2(failures));
    }

    lemma WaitAdded(wait: real, random: seq<real>, failures: nat)
      requires failures < |random| && wait == Longest(failures) * random[failures]
      ensures Waits(random, failures) + wait == Waits(random, failures + 1)
    {
    }

    lemma LastWait(random: seq<real>, failures: nat) returns (wait: real)
      requires 0.0 <= baseSeconds <= capSeconds && failures < |random| && 0.0 <= random[failures] < 1.0
      ensures Waits(random, failures) + wait == Waits(random, failures + 1) && wait <= Longest(failures)
    {
      LongestIsWait(failures);
      wait := Jitter(Longest(failures), random[failures]);
      WaitAdded(wait, random, failures);
    }

    lemma WaitBounded(before: real, wait: real, failures: nat)
      requires WithinBackoff(before, failures) && wait <= Longest(failures)
      ensures WithinBackoff(before + wait, failures + 1)
    {
      OneMoreWait(before, wait, failures, capSeconds, baseSeconds);
    }

    /** Total sleep stays within the cap for each wait, and within the doubling. */
    lemma {:induction false} WaitsWithin(random: seq<real>, failures: nat)
      requires 0.0 <= baseSeconds <= capSeconds && failures <= |random|
      requires forall i | 0 <= i < |random| :: 0.0 <= random[i] < 1.0
      ensures WithinBackoff(Waits(random, failures), failures)
    {
      if failures == 0 {
      } else {
        WaitsWithin(random, failures - 1);
        var wait := LastWait(random, failures - 1);
        WaitBounded(Waits(random, failures - 1), wait, failures - 1);
      }
    }

    static lemma OneMoreWait(slept: real, wait: real, failures: nat, cap: real, base: real)
      requires slept <= failures as real * cap && slept <= base * (Pow2(failures) - 1.0)
      requires wait <= cap && wait <= base * Pow2(failures)
      ensures slept + wait <= (failures + 1) as real * cap
      ensures slept + wait <= base * (Pow2(failures + 1) - 1.0)
    {
      assert (failures + 1) as real * cap == failures as real * cap + cap;
      Doubled(base, Pow2(failures));
      assert Pow2(failures + 1) == 2.0 * Pow2(failures);
    }

    lemma Rested(random: seq<real>, failures: nat)
      requires Valid() && failures < attempts == |random| && forall i | 0 <= i < |random| :: 0.0 <= random[i] < 1.0
      ensures WithinBackoff(Waits(random, failures), attempts - 1)
    {
      WaitsWithin(random, failures);
      BackoffGrows(Waits(random, failures), failures, attempts - 1);
    }

    lemma BackoffGrows(slept: real, a: nat, n: nat)
      requires a <= n && 0.0 <= baseSeconds <= capSeconds && WithinBackoff(slept, a)
      ensures WithinBackoff(slept, n)
      decreases n - a
    {
      if a < n {
        Product(baseSeconds, Pow2(a));
        OneMoreWait(slept, 0.0, a, capSeconds, baseSeconds);
        BackoffGrows(slept, a + 1, n);
      }
    }

    static lemma Doubled(b: real, p: real)
      ensures b * (2.0 * p - 1.0) == b * (p - 1.0) + b * p
    {
    }

    static lemma Product(a: real, b: real)
      requires 0.0 <= a && 0.0 <= b
      ensures 0.0 <= a * b
    {
    }

    static lemma Jitter(maximum: real, random: real) returns (wait: real)
      requires 0.0 <= maximum && 0.0 <= random < 1.0
      ensures wait == maximum * random && wait <= maximum
    {
      wait := maximum * random;
      Product(maximum, 1.0 - random);
      assert maximum * (1.0 - random) == maximum - maximum * random;
    }
  }
}
