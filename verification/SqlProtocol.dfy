// persistence/sql_repository.py under concurrency: any number of `commit` calls against one
// database, each retried after transient errors, serialised per key by an advisory lock.
module SqlProtocol {
  import opened Values
  import opened Store
  import opened Interleaving
  import opened Conservation

  datatype Phase =
    | Outside                   // between transactions
    | Holding                   // the advisory lock is held
    | Absent                    // the lock is held and the key was not found
    | Done(reply: Reply)

  datatype Session = Session(tenant: Tenant, key: string, batch: Batch, phase: Phase, left: nat)

  /** `writers` records, in order, the sessions whose transaction reached the database commit. */
  datatype Cluster = Cluster(db: Db, locks: map<int, nat>, sessions: map<nat, Session>, writers: seq<nat>)

  /** The signed 64-bit advisory key of (tenant, idempotency key).  Collisions are allowed. */
  type AdvisoryKey = (Tenant, string) -> int

  datatype Event =
    | Open(s: nat, tenant: Tenant, key: string, batch: Batch, attempts: nat)
    | Lock(s: nat)
    | Find(s: nat)
    | Write(s: nat, now: int, acknowledged: bool)
    | Transient(s: nat)
    | Remove(tenant: Tenant, generationId: string, now: int)

  function LockOf(h: AdvisoryKey, x: Session): int {
    h(x.tenant, x.key)
  }

  ghost predicate UnusedId(s: Cluster, t: Tenant, id: string) {
    && id != "" && (t, id) !in s.db.generations
    && forall c | c in s.sessions :: s.sessions[c].tenant != t || s.sessions[c].batch.header.generationId != id
  }

  ghost predicate Enabled(h: AdvisoryKey, s: Cluster, e: Event) {
    match e
    case Open(c, t, _, b, n) => c !in s.sessions && 1 <= n && UnusedId(s, t, b.header.generationId) && RanksFall(b.ins)
    case Lock(c) => c in s.sessions && s.sessions[c].phase.Outside? && LockOf(h, s.sessions[c]) !in s.locks
    case Find(c) => c in s.sessions && s.sessions[c].phase.Holding?
    case Write(c, _, _) => c in s.sessions && s.sessions[c].phase.Absent?
    case Transient(c) => c in s.sessions && !s.sessions[c].phase.Done?
    case Remove(_, _, _) => true
  }

  /** A transient error: the attempt is over, and the next one begins unless none is left. */
  function Retried(x: Session): Session {
    if x.left <= 1 then x.(phase := Done(Refused(DependencyUnavailable)), left := 0)
    else x.(phase := Outside, left := x.left - 1)
  }

  /** The end of a transaction releases its lock. */
  function Release(h: AdvisoryKey, s: Cluster, c: nat, x: Session): Cluster
    requires c in s.sessions
  {
    s.(locks := if s.sessions[c].phase.Outside? then s.locks else s.locks - {LockOf(h, s.sessions[c])},
       sessions := s.sessions[c := x])
  }

  /** What the INSERTs and the database commit come to: destination rows first, then the metadata. */
  ghost function Inserted(cat: Catalog, db: Db, x: Session, now: int): Result<Db, Error>
    requires Tracked(db)
  {
    match StageAll(cat, db.rows, x.tenant, x.batch.ins)
    case Err(e) => Err(e)
    case Ok(rows) =>
      if (x.tenant, x.batch.header.generationId) in db.generations || (x.tenant, x.key) in db.idempotency
      then Err(DestinationConflict)
      else Ok(AfterCommit(db, x.tenant, x.key, x.batch, now, rows))
  }

  function Locked(h: AdvisoryKey, s: Cluster, c: nat): Cluster
    requires c in s.sessions
  {
    var x := s.sessions[c];
    s.(locks := s.locks[LockOf(h, x) := c], sessions := s.sessions[c := x.(phase := Holding)])
  }

  function Looked(h: AdvisoryKey, s: Cluster, c: nat): Cluster
    requires c in s.sessions
  {
    var x := s.sessions[c];
    var existing := FindIdempotent(s.db, x.tenant, x.key);
    if existing.None? then s.(sessions := s.sessions[c := x.(phase := Absent)])
    else if existing.value.header.requestDigest != x.batch.header.requestDigest then
      Release(h, s, c, x.(phase := Done(Refused(IdempotencyKeyReused))))
    else Release(h, s, c, x.(phase := Done(Committed(existing.value, true))))
  }

  /** A successful write: the acknowledgement may still be lost on its way. */
  function Wrote(h: AdvisoryKey, s: Cluster, c: nat, now: int, acknowledged: bool, after: Db): Cluster
    requires c in s.sessions
  {
    var x := s.sessions[c];
    var result := Generation(x.batch.header, COMMITTED, now, None);
    var y := if acknowledged then x.(phase := Done(Committed(result, false))) else Retried(x);
    Release(h, s, c, y).(db := after, writers := s.writers + [c])
  }

  function Failed(h: AdvisoryKey, s: Cluster, c: nat, error: Error): Cluster
    requires c in s.sessions
  {
    Release(h, s, c, s.sessions[c].(phase := Done(Refused(error))))
  }

  ghost function Step(cat: Catalog, h: AdvisoryKey, s: Cluster, e: Event): Cluster
    requires Tracked(s.db) && Enabled(h, s, e)
    ensures Tracked(Step(cat, h, s, e).db)
  {
    match e
    case Open(c, t, key, b, n) => s.(sessions := s.sessions[c := Session(t, key, b, Outside, n)])
    case Lock(c) => Locked(h, s, c)
    case Find(c) => Looked(h, s, c)
    case Write(c, now, acknowledged) =>
      var after := Inserted(cat, s.db, s.sessions[c], now);
      if after.Err? then Failed(h, s, c, after.error) else Wrote(h, s, c, now, acknowledged, after.value)
    case Transient(c) => Release(h, s, c, Retried(s.sessions[c]))
    case Remove(t, id, now) => s.(db := DeleteNext(cat, s.db, t, id, now).0)
  }

  // ---- the invariant ------------------------------------------------------------------------

  ghost predicate InTransaction(x: Session) {
    x.phase.Holding? || x.phase.Absent?
  }

  /** Exactly the sessions inside a transaction hold locks, and what a lock holder did not find is not there. */
  ghost predicate Locking(h: AdvisoryKey, s: Cluster, c: nat)
    requires c in s.sessions
  {
    var x := s.sessions[c];
    && (InTransaction(x) ==> LockOf(h, x) in s.locks && s.locks[LockOf(h, x)] == c)
    && (x.phase.Absent? ==> (x.tenant, x.key) !in s.db.idempotency)
  }

  /** A session's whole commit is in the database. */
  ghost predicate Complete(db: Db, x: Session) {
    var id := (x.tenant, x.batch.header.generationId);
    && id in db.generations && db.generations[id].header == x.batch.header
    && id in db.written && db.written[id] == LedgerOf(x.batch.ins)
    && (x.tenant, x.key) in db.idempotency && db.idempotency[(x.tenant, x.key)] == x.batch.header.generationId
  }

  /** A session has written completely, or left no generation behind. */
  ghost predicate AllOrNothing(s: Cluster, c: nat)
    requires c in s.sessions
  {
    var x := s.sessions[c];
    if c in s.writers then Complete(s.db, x) else (x.tenant, x.batch.header.generationId) !in s.db.generations
  }

  ghost predicate Truthful(s: Cluster, c: nat)
    requires c in s.sessions
  {
    var x := s.sessions[c];
    x.phase.Done? ==>
      match x.phase.reply
      case Committed(result, replayed) =>
        && (x.tenant, x.key) in s.db.idempotency && (x.tenant, x.key) in s.db.digests
        && s.db.idempotency[(x.tenant, x.key)] == result.header.generationId
        && s.db.digests[(x.tenant, x.key)] == x.batch.header.requestDigest
        && (!replayed ==> c in s.writers && result.header == x.batch.header)
      case Refused(error) =>
        error == IdempotencyKeyReused ==>
          && (x.tenant, x.key) in s.db.idempotency && (x.tenant, x.key) in s.db.digests
          && s.db.digests[(x.tenant, x.key)] != x.batch.header.requestDigest
      case _ => false
  }

  ghost predicate DistinctIds(s: Cluster) {
    forall a, b | a in s.sessions && b in s.sessions && a != b ::
      s.sessions[a].tenant != s.sessions[b].tenant
      || s.sessions[a].batch.header.generationId != s.sessions[b].batch.header.generationId
  }

  ghost predicate Inv(h: AdvisoryKey, s: Cluster) {
    && Tracked(s.db)
    && (forall t, key :: Bound(s.db, t, key))
    && DistinctIds(s)
    && (forall c | c in s.sessions :: s.sessions[c].batch.header.generationId != "")
    && (forall c | c in s.sessions :: Locking(h, s, c))
    && (forall c | c in s.sessions :: AllOrNothing(s, c))
    && (forall c | c in s.sessions :: Truthful(s, c))
    && (forall i | 0 <= i < |s.writers| :: s.writers[i] in s.sessions)
    && NoDup(s.writers)
  }

  // ---- one step -----------------------------------------------------------------------------

  /** Only `c` changes, the database does not: everything said about the others still holds. */
  lemma QuietKeeps(h: AdvisoryKey, s: Cluster, after: Cluster, c: nat)
    requires Inv(h, s) && c in s.sessions
    requires after.db == s.db && after.writers == s.writers && c in after.sessions
    requires after.sessions == s.sessions[c := after.sessions[c]]
    requires after.sessions[c].tenant == s.sessions[c].tenant && after.sessions[c].key == s.sessions[c].key
    requires after.sessions[c].batch == s.sessions[c].batch
    requires Locking(h, after, c) && Truthful(after, c)
    requires forall l | l in s.locks && s.locks[l] != c :: l in after.locks && after.locks[l] == s.locks[l]
    ensures Inv(h, after)
  {
    forall d | d in after.sessions ensures Locking(h, after, d) && AllOrNothing(after, d) && Truthful(after, d) {
      assert Locking(h, s, d) && AllOrNothing(s, d) && Truthful(s, d);
    }
  }

  lemma FindKeeps(h: AdvisoryKey, s: Cluster, c: nat)
    requires Inv(h, s) && c in s.sessions && s.sessions[c].phase.Holding?
    ensures Inv(h, Looked(h, s, c))
  {
    var x := s.sessions[c];
    assert Bound(s.db, x.tenant, x.key) && Locking(h, s, c);
    FoundWhenBound(s.db, x.tenant, x.key);
    QuietKeeps(h, s, Looked(h, s, c), c);
  }

  lemma OpenKeeps(h: AdvisoryKey, s: Cluster, after: Cluster, c: nat)
    requires Inv(h, s) && c !in s.sessions && c in after.sessions && after.sessions[c].phase.Outside?
    requires after == s.(sessions := s.sessions[c := after.sessions[c]])
    requires UnusedId(s, after.sessions[c].tenant, after.sessions[c].batch.header.generationId)
    ensures Inv(h, after)
  {
    assert c !in s.writers;
    forall d | d in after.sessions ensures Locking(h, after, d) && AllOrNothing(after, d) && Truthful(after, d) {
      if d != c { assert Locking(h, s, d) && AllOrNothing(s, d) && Truthful(s, d); }
    }
  }

  lemma LockKeeps(h: AdvisoryKey, s: Cluster, c: nat)
    requires Inv(h, s) && c in s.sessions && s.sessions[c].phase.Outside? && LockOf(h, s.sessions[c]) !in s.locks
    ensures Inv(h, Locked(h, s, c))
  {
    QuietKeeps(h, s, Locked(h, s, c), c);
  }

  lemma TransientKeeps(h: AdvisoryKey, s: Cluster, c: nat)
    requires Inv(h, s) && c in s.sessions && !s.sessions[c].phase.Done?
    ensures Inv(h, Release(h, s, c, Retried(s.sessions[c])))
  {
    assert Locking(h, s, c);
    QuietKeeps(h, s, Release(h, s, c, Retried(s.sessions[c])), c);
  }

  lemma RemoveKeeps(cat: Catalog, h: AdvisoryKey, s: Cluster, t: Tenant, id: string, now: int)
    requires Inv(h, s)
    ensures Inv(h, s.(db := DeleteNext(cat, s.db, t, id, now).0))
  {
    var after := s.(db := DeleteNext(cat, s.db, t, id, now).0);
    DeleteKeepsLedgers(cat, s.db, t, id, now);
    forall u, key ensures Bound(after.db, u, key) {
      KeptKeysStayBound(s.db, after.db, u, key);
    }
    forall d | d in after.sessions ensures Locking(h, after, d) && AllOrNothing(after, d) && Truthful(after, d) {
      assert Locking(h, s, d) && AllOrNothing(s, d) && Truthful(s, d);
    }
  }

  lemma DeleteKeepsLedgers(cat: Catalog, db: Db, t: Tenant, id: string, now: int)
    requires Tracked(db)
    ensures var after := DeleteNext(cat, db, t, id, now).0;
      && Keeps(db, after) && after.generations.Keys == db.generations.Keys
      && after.idempotency == db.idempotency && after.digests == db.digests && after.written == db.written
  {
    DeleteMarks(cat, db, t, id, now);
  }

  /** The lock keeps a found-absent key absent: the unique constraints on the metadata never fire. */
  lemma MetadataNeverConflicts(h: AdvisoryKey, s: Cluster, c: nat)
    requires Inv(h, s) && c in s.sessions && s.sessions[c].phase.Absent?
    ensures (s.sessions[c].tenant, s.sessions[c].key) !in s.db.idempotency
    ensures (s.sessions[c].tenant, s.sessions[c].batch.header.generationId) !in s.db.generations
    ensures c !in s.writers
  {
    assert Locking(h, s, c) && AllOrNothing(s, c);
  }

  lemma RefusedWriteKeeps(h: AdvisoryKey, s: Cluster, c: nat, error: Error)
    requires Inv(h, s) && c in s.sessions && s.sessions[c].phase.Absent? && error != IdempotencyKeyReused
    ensures Inv(h, Failed(h, s, c, error))
  {
    assert Locking(h, s, c);
    QuietKeeps(h, s, Failed(h, s, c, error), c);
  }

  lemma CommitStaysBound(db: Db, x: Session, now: int, rows: Rows)
    requires Tracked(db) && (forall t, key :: Bound(db, t, key)) && x.batch.header.generationId != ""
    requires (x.tenant, x.batch.header.generationId) !in db.generations
    ensures forall t, key :: Bound(AfterCommit(db, x.tenant, x.key, x.batch, now, rows), t, key)
  {
    forall t, key ensures Bound(AfterCommit(db, x.tenant, x.key, x.batch, now, rows), t, key) {
      assert Bound(db, t, key);
    }
  }

  lemma WriteKeeps(h: AdvisoryKey, s: Cluster, c: nat, now: int, acknowledged: bool, rows: Rows)
    requires Inv(h, s) && c in s.sessions && s.sessions[c].phase.Absent?
    ensures var x := s.sessions[c];
      Inv(h, Wrote(h, s, c, now, acknowledged, AfterCommit(s.db, x.tenant, x.key, x.batch, now, rows)))
  {
    var x := s.sessions[c];
    var after := Wrote(h, s, c, now, acknowledged, AfterCommit(s.db, x.tenant, x.key, x.batch, now, rows));
    MetadataNeverConflicts(h, s, c);
    assert Locking(h, s, c);
    CommitStaysBound(s.db, x, now, rows);
    forall d | d in s.sessions
      ensures Locking(h, after, d) && AllOrNothing(after, d) && Truthful(after, d)
    {
      if d == c {
        WriterComplete(h, s, c, now, acknowledged, rows);
      } else {
        WriteSparesOther(h, s, c, now, acknowledged, rows, d);
      }
    }
    WriterJoins(h, s, after, c);
  }

  /** The rest of the invariant only speaks of identities and of the list of writers. */
  lemma WriterJoins(h: AdvisoryKey, s: Cluster, after: Cluster, c: nat)
    requires Inv(h, s) && c in s.sessions && c !in s.writers && after.writers == s.writers + [c]
    requires Tracked(after.db) && forall t, key :: Bound(after.db, t, key)
    requires c in after.sessions && after.sessions == s.sessions[c := after.sessions[c]]
    requires after.sessions[c].tenant == s.sessions[c].tenant && after.sessions[c].batch == s.sessions[c].batch
    requires forall d | d in after.sessions :: Locking(h, after, d) && AllOrNothing(after, d) && Truthful(after, d)
    ensures Inv(h, after)
  {
  }

  lemma WriterComplete(h: AdvisoryKey, s: Cluster, c: nat, now: int, acknowledged: bool, rows: Rows)
    requires Tracked(s.db) && c in s.sessions && s.sessions[c].phase.Absent?
    ensures var x := s.sessions[c];
      var after := Wrote(h, s, c, now, acknowledged, AfterCommit(s.db, x.tenant, x.key, x.batch, now, rows));
      Locking(h, after, c) && AllOrNothing(after, c) && Truthful(after, c)
  {
  }

  lemma WriteSparesOther(
    h: AdvisoryKey, s: Cluster, c: nat, now: int, acknowledged: bool, rows: Rows, d: nat)
    requires Inv(h, s) && c in s.sessions && s.sessions[c].phase.Absent? && d in s.sessions && d != c
    ensures var x := s.sessions[c];
      var after := Wrote(h, s, c, now, acknowledged, AfterCommit(s.db, x.tenant, x.key, x.batch, now, rows));
      Locking(h, after, d) && AllOrNothing(after, d) && Truthful(after, d)
  {
    var x, y := s.sessions[c], s.sessions[d];
    assert Locking(h, s, c);
    assert Locking(h, s, d) && AllOrNothing(s, d) && Truthful(s, d);
    if InTransaction(y) {
      assert LockOf(h, y) != LockOf(h, x);
      assert (x.tenant, x.key) != (y.tenant, y.key);
    }
  }

  lemma StepKeeps(cat: Catalog, h: AdvisoryKey, s: Cluster, e: Event)
    requires Inv(h, s) && Enabled(h, s, e)
    ensures Inv(h, Step(cat, h, s, e))
  {
    match e
    case Open(c, _, _, _, _) => OpenKeeps(h, s, Step(cat, h, s, e), c);
    case Lock(c) => LockKeeps(h, s, c);
    case Find(c) => FindKeeps(h, s, c);
    case Write(c, now, acknowledged) =>
      StagingErrors(cat, s.db.rows, s.sessions[c].tenant, s.sessions[c].batch.ins);
      match Inserted(cat, s.db, s.sessions[c], now) {
        case Err(error) => RefusedWriteKeeps(h, s, c, error);
        case Ok(_) =>
          var staged := StageAll(cat, s.db.rows, s.sessions[c].tenant, s.sessions[c].batch.ins).value;
          WriteKeeps(h, s, c, now, acknowledged, staged);
      }
    case Transient(c) => TransientKeeps(h, s, c);
    case Remove(t, id, now) => RemoveKeeps(cat, h, s, t, id, now);
  }

  // ---- whole runs ---------------------------------------------------------------------------

  ghost predicate IsTrace(cat: Catalog, h: AdvisoryKey, states: seq<Cluster>, events: seq<Event>) {
    && cat.rules.InDatabase? && |states| == |events| + 1
    && (forall i | 0 <= i < |states| :: Tracked(states[i].db))
    && (forall i | 0 <= i < |events| ::
          Enabled(h, states[i], events[i]) && states[i + 1] == Step(cat, h, states[i], events[i]))
  }

  ghost predicate Fresh(s: Cluster) {
    s.sessions == map[] && s.locks == map[] && s.writers == [] && s.db == Db(s.db.rows, map[], map[], map[], map[])
  }

  lemma {:induction false} TraceInv(cat: Catalog, h: AdvisoryKey, states: seq<Cluster>, events: seq<Event>, i: nat)
    requires IsTrace(cat, h, states, events) && Fresh(states[0]) && i < |states|
    ensures Inv(h, states[i])
  {
    if i == 0 {
    } else {
      TraceInv(cat, h, states, events, i - 1);
      StepKeeps(cat, h, states[i - 1], events[i - 1]);
    }
  }

  /**
   * Under any interleaving of sessions, faults before or after the database commit, and deletes:
   * a session writes at most once however often it is retried, and either all of its commit is
   * there or none of it; at most one session ever writes for a key; a success names the key's one
   * generation; a non-replayed success is the writer's own; a key is said to be reused only if
   * another request has it.
   */
  lemma ExactlyOnce(cat: Catalog, h: AdvisoryKey, states: seq<Cluster>, events: seq<Event>, i: nat, c: nat)
    requires IsTrace(cat, h, states, events) && Fresh(states[0]) && i < |states| && c in states[i].sessions
    ensures var s := states[i]; var x := s.sessions[c];
      && NoDup(s.writers)
      && (c in s.writers ==> Complete(s.db, x))
      && (c !in s.writers ==> (x.tenant, x.batch.header.generationId) !in s.db.generations)
      && (forall d | d in s.sessions && c in s.writers && d in s.writers
            && s.sessions[d].tenant == x.tenant && s.sessions[d].key == x.key :: d == c)
      && (x.phase.Done? && x.phase.reply.Committed? ==>
            && (x.tenant, x.key) in s.db.idempotency
            && s.db.idempotency[(x.tenant, x.key)] == x.phase.reply.result.header.generationId
            && (!x.phase.reply.replayed ==> c in s.writers && x.phase.reply.result.header == x.batch.header))
      && (x.phase == Done(Refused(IdempotencyKeyReused)) ==>
            && (x.tenant, x.key) in s.db.digests
            && s.db.digests[(x.tenant, x.key)] != x.batch.header.requestDigest)
  {
    TraceInv(cat, h, states, events, i);
    var s := states[i];
    assert AllOrNothing(s, c) && Truthful(s, c);
    forall d | d in s.sessions && d in s.writers && c in s.writers
        && s.sessions[d].tenant == s.sessions[c].tenant && s.sessions[d].key == s.sessions[c].key
      ensures d == c
    {
      assert AllOrNothing(s, d);
    }
  }

  // ---- attempts and acknowledgements ----------------------------------------------------------

  /** The event ends an attempt of session c with a transient error: before the database commit, or after. */
  ghost predicate StrikesAt(cat: Catalog, s: Cluster, e: Event, c: nat)
    requires Tracked(s.db)
  {
    || e == Transient(c)
    || (e.Write? && e.s == c && !e.acknowledged && c in s.sessions && Inserted(cat, s.db, s.sessions[c], e.now).Ok?)
  }

  /** How many attempts of session c have failed so far. */
  ghost function Strikes(cat: Catalog, states: seq<Cluster>, events: seq<Event>, i: nat, c: nat): nat
    requires i <= |events| <= |states| && forall k | 0 <= k < |states| :: Tracked(states[k].db)
  {
    if i == 0 then 0
    else Strikes(cat, states, events, i - 1, c) + (if StrikesAt(cat, states[i - 1], events[i - 1], c) then 1 else 0)
  }

  /** Attempts are spent one by one, and the call gives up exactly when none is left. */
  ghost predicate Spending(x: Session, attempts: nat, strikes: nat) {
    && x.left + strikes == attempts
    && (x.phase == Done(Refused(DependencyUnavailable)) <==> x.left == 0)
  }

  lemma StepSpends(cat: Catalog, h: AdvisoryKey, s: Cluster, e: Event, c: nat, attempts: nat, strikes: nat)
    requires Tracked(s.db) && Enabled(h, s, e) && c in s.sessions && Spending(s.sessions[c], attempts, strikes)
    requires s.sessions[c].phase.Done? ==> s.sessions[c].phase.reply.Committed? || s.sessions[c].phase.reply.Refused?
    ensures c in Step(cat, h, s, e).sessions
    ensures Spending(Step(cat, h, s, e).sessions[c], attempts, strikes + if StrikesAt(cat, s, e, c) then 1 else 0)
  {
    if e.Write? && e.s in s.sessions {
      StagingErrors(cat, s.db.rows, s.sessions[e.s].tenant, s.sessions[e.s].batch.ins);
    }
  }

  lemma OpenSpends(cat: Catalog, h: AdvisoryKey, s: Cluster, e: Event)
    requires Tracked(s.db) && Enabled(h, s, e) && e.Open?
    ensures e.s in Step(cat, h, s, e).sessions && Spending(Step(cat, h, s, e).sessions[e.s], e.attempts, 0)
  {
  }

  /** Before it opens, a session has no events. */
  lemma {:induction false} NoStrikesBefore(
    cat: Catalog, h: AdvisoryKey, states: seq<Cluster>, events: seq<Event>, i: nat, c: nat)
    requires IsTrace(cat, h, states, events) && i <= |events| && c !in states[i].sessions
    ensures Strikes(cat, states, events, i, c) == 0
  {
    if i == 0 {
    } else {
      SessionsStay(cat, h, states[i - 1], events[i - 1]);
      NoStrikesBefore(cat, h, states, events, i - 1, c);
    }
  }

  lemma SessionsStay(cat: Catalog, h: AdvisoryKey, s: Cluster, e: Event)
    requires Tracked(s.db) && Enabled(h, s, e)
    ensures s.sessions.Keys <= Step(cat, h, s, e).sessions.Keys
  {
  }

  ghost predicate SpendingAt(cat: Catalog, states: seq<Cluster>, events: seq<Event>, i: nat, c: nat, n: nat)
    requires i <= |events| < |states| && forall k | 0 <= k < |states| :: Tracked(states[k].db)
  {
    c in states[i].sessions && Spending(states[i].sessions[c], n, Strikes(cat, states, events, i, c))
  }

  lemma SpendsFirst(cat: Catalog, h: AdvisoryKey, states: seq<Cluster>, events: seq<Event>, k: nat)
    requires IsTrace(cat, h, states, events) && k < |events| && events[k].Open?
    ensures SpendingAt(cat, states, events, k + 1, events[k].s, events[k].attempts)
  {
    NoStrikesBefore(cat, h, states, events, k, events[k].s);
    OpenSpends(cat, h, states[k], events[k]);
  }

  lemma SpendsOn(
    cat: Catalog, h: AdvisoryKey, states: seq<Cluster>, events: seq<Event>, i: nat, c: nat, n: nat)
    requires IsTrace(cat, h, states, events) && Fresh(states[0]) && 0 < i <= |events|
    requires SpendingAt(cat, states, events, i - 1, c, n)
    ensures SpendingAt(cat, states, events, i, c, n)
  {
    TraceInv(cat, h, states, events, i - 1);
    assert Truthful(states[i - 1], c);
    StepSpends(cat, h, states[i - 1], events[i - 1], c, n, Strikes(cat, states, events, i - 1, c));
  }

  lemma {:induction false} SpendsSince(
    cat: Catalog, h: AdvisoryKey, states: seq<Cluster>, events: seq<Event>, k: nat, i: nat, c: nat, n: nat)
    requires IsTrace(cat, h, states, events) && Fresh(states[0]) && k <= i <= |events|
    requires SpendingAt(cat, states, events, k, c, n)
    ensures SpendingAt(cat, states, events, i, c, n)
    decreases i - k
  {
    if i == k {
    } else {
      SpendsSince(cat, h, states, events, k, i - 1, c, n);
      SpendsOn(cat, h, states, events, i, c, n);
    }
  }

  /**
   * A session that was opened with a number of attempts reports DEPENDENCY_UNAVAILABLE exactly when
   * that many have failed, neither sooner nor later.
   */
  lemma GivesUpExactly(cat: Catalog, h: AdvisoryKey, states: seq<Cluster>, events: seq<Event>, k: nat, i: nat)
    requires IsTrace(cat, h, states, events) && Fresh(states[0]) && k < i <= |events| && events[k].Open?
    ensures var c, n := events[k].s, events[k].attempts;
      && c in states[i].sessions && Strikes(cat, states, events, i, c) <= n
      && (states[i].sessions[c].phase == Done(Refused(DependencyUnavailable)) <==>
            Strikes(cat, states, events, i, c) == n)
  {
    SpendsFirst(cat, h, states, events, k);
    SpendsSince(cat, h, states, events, k + 1, i, events[k].s, events[k].attempts);
  }

  /** Some write of session c has lost its acknowledgement by now. */
  ghost predicate Unacknowledged(events: seq<Event>, i: nat, c: nat) {
    exists k :: 0 <= k < i && k < |events| && events[k].Write? && events[k].s == c && !events[k].acknowledged
  }

  ghost predicate ToldOrLost(s: Cluster, events: seq<Event>, i: nat, c: nat)
    requires c in s.sessions
  {
    c in s.writers ==>
      || Unacknowledged(events, i, c)
      || (s.sessions[c].phase.Done? && s.sessions[c].phase.reply.Committed? && !s.sessions[c].phase.reply.replayed)
  }

  lemma StepTells(cat: Catalog, h: AdvisoryKey, s: Cluster, e: Event, events: seq<Event>, i: nat, c: nat)
    requires Tracked(s.db) && Enabled(h, s, e) && c in s.sessions && i < |events| && events[i] == e
    requires ToldOrLost(s, events, i, c)
    ensures c in Step(cat, h, s, e).sessions && ToldOrLost(Step(cat, h, s, e), events, i + 1, c)
  {
    if Unacknowledged(events, i, c) {
      var k :| 0 <= k < i && k < |events| && events[k].Write? && events[k].s == c && !events[k].acknowledged;
      assert Unacknowledged(events, i + 1, c);
    }
  }

  /** A writer hears of its own commit, as no replay, unless an acknowledgement was lost. */
  lemma {:induction false} WritersAreTold(
    cat: Catalog, h: AdvisoryKey, states: seq<Cluster>, events: seq<Event>, i: nat, c: nat)
    requires IsTrace(cat, h, states, events) && Fresh(states[0]) && i <= |events| && c in states[i].sessions
    ensures ToldOrLost(states[i], events, i, c)
  {
    if i == 0 {
    } else {
      TraceInv(cat, h, states, events, i - 1);
      if c in states[i - 1].sessions {
        WritersAreTold(cat, h, states, events, i - 1, c);
        StepTells(cat, h, states[i - 1], events[i - 1], events, i - 1, c);
      } else {
        assert c !in states[i - 1].writers;
        NewcomerHasNotWritten(cat, h, states[i - 1], events[i - 1], c);
      }
    }
  }

  lemma NewcomerHasNotWritten(cat: Catalog, h: AdvisoryKey, s: Cluster, e: Event, c: nat)
    requires Tracked(s.db) && Enabled(h, s, e) && c !in s.sessions && c !in s.writers
    ensures c !in Step(cat, h, s, e).writers
  {
  }

  /** Why a session was refused: another request has its key, its attempts are spent, or its rows are not taken. */
  ghost predicate Reason(cat: Catalog, s: Cluster, e: Event, c: nat, error: Error)
    requires Tracked(s.db)
  {
    c in s.sessions &&
    var x := s.sessions[c];
    var existing := FindIdempotent(s.db, x.tenant, x.key);
    match error
    case IdempotencyKeyReused =>
      e == Find(c) && existing.Some? && existing.value.header.requestDigest != x.batch.header.requestDigest
    case DependencyUnavailable => StrikesAt(cat, s, e, c)
    case _ => e.Write? && e.s == c && Inserted(cat, s.db, x, e.now) == Err(error)
  }

  lemma StepReasons(cat: Catalog, h: AdvisoryKey, s: Cluster, e: Event, c: nat, error: Error)
    requires Tracked(s.db) && Enabled(h, s, e) && c in Step(cat, h, s, e).sessions
    requires Step(cat, h, s, e).sessions[c].phase == Done(Refused(error))
    ensures (c in s.sessions && s.sessions[c].phase == Done(Refused(error))) || Reason(cat, s, e, c, error)
  {
    if e.Write? && e.s in s.sessions {
      StagingErrors(cat, s.db.rows, s.sessions[e.s].tenant, s.sessions[e.s].batch.ins);
    }
  }

  /** Every refusal has its reason at some earlier event. */
  lemma {:induction false} RefusalsHaveReasons(
    cat: Catalog, h: AdvisoryKey, states: seq<Cluster>, events: seq<Event>, i: nat, c: nat, error: Error)
      returns (k: nat)
    requires IsTrace(cat, h, states, events) && Fresh(states[0]) && i <= |events|
    requires c in states[i].sessions && states[i].sessions[c].phase == Done(Refused(error))
    ensures k < i && Reason(cat, states[k], events[k], c, error)
  {
    k := i - 1;
    StepReasons(cat, h, states[k], events[k], c, error);
    if !Reason(cat, states[k], events[k], c, error) {
      k := RefusalsHaveReasons(cat, h, states, events, i - 1, c, error);
    }
  }

  // ---- locks are given back -------------------------------------------------------------------

  /** Every lock is held by a session inside a transaction, for its own key. */
  ghost predicate LocksHeld(h: AdvisoryKey, s: Cluster) {
    forall l | l in s.locks :: LockHeld(h, s, l)
  }

  ghost predicate LockHeld(h: AdvisoryKey, s: Cluster, l: int)
    requires l in s.locks
  {
    s.locks[l] in s.sessions && InTransaction(s.sessions[s.locks[l]]) && LockOf(h, s.sessions[s.locks[l]]) == l
  }

  lemma ReleaseFrees(h: AdvisoryKey, s: Cluster, c: nat, x: Session)
    requires LocksHeld(h, s) && c in s.sessions && !s.sessions[c].phase.Done?
    ensures LocksHeld(h, Release(h, s, c, x))
  {
    var after := Release(h, s, c, x);
    forall l | l in after.locks ensures LockHeld(h, after, l) {
      assert LockHeld(h, s, l);
    }
  }

  lemma StepFrees(cat: Catalog, h: AdvisoryKey, s: Cluster, e: Event)
    requires Tracked(s.db) && Enabled(h, s, e) && LocksHeld(h, s)
    ensures LocksHeld(h, Step(cat, h, s, e))
  {
    var after := Step(cat, h, s, e);
    match e
    case Open(c, _, _, _, _) =>
      forall l | l in after.locks ensures LockHeld(h, after, l) { assert LockHeld(h, s, l); }
    case Lock(c) =>
      forall l | l in after.locks ensures LockHeld(h, after, l) {
        if l in s.locks { assert LockHeld(h, s, l); }
      }
    case Find(c) => LookedFrees(h, s, c);
    case Write(c, now, acknowledged) => WriteFrees(cat, h, s, c, now, acknowledged);
    case Transient(c) => ReleaseFrees(h, s, c, Retried(s.sessions[c]));
    case Remove(_, _, _) =>
      forall l | l in after.locks ensures LockHeld(h, after, l) { assert LockHeld(h, s, l); }
  }

  lemma LookedFrees(h: AdvisoryKey, s: Cluster, c: nat)
    requires LocksHeld(h, s) && c in s.sessions && s.sessions[c].phase.Holding?
    ensures LocksHeld(h, Looked(h, s, c))
  {
    var after := Looked(h, s, c);
    if after.sessions[c].phase.Absent? {
      forall l | l in after.locks ensures LockHeld(h, after, l) { assert LockHeld(h, s, l); }
    } else {
      ReleaseFrees(h, s, c, after.sessions[c]);
    }
  }

  lemma WriteFrees(cat: Catalog, h: AdvisoryKey, s: Cluster, c: nat, now: int, acknowledged: bool)
    requires Tracked(s.db) && LocksHeld(h, s) && c in s.sessions && s.sessions[c].phase.Absent?
    ensures LocksHeld(h, Step(cat, h, s, Write(c, now, acknowledged)))
  {
    var after := Step(cat, h, s, Write(c, now, acknowledged));
    ReleaseFrees(h, s, c, after.sessions[c]);
    var released := Release(h, s, c, after.sessions[c]);
    assert after.locks == released.locks && after.sessions == released.sessions;
    forall l | l in after.locks ensures LockHeld(h, after, l) { assert LockHeld(h, released, l); }
  }

  ghost predicate Inside(h: AdvisoryKey, s: Cluster, l: int) {
    exists d :: d in s.sessions && InTransaction(s.sessions[d]) && LockOf(h, s.sessions[d]) == l
  }

  /** A session outside its transaction can always take its lock, unless another one is inside for the same lock key. */
  lemma {:induction false} NoLockOutlives(
    cat: Catalog, h: AdvisoryKey, states: seq<Cluster>, events: seq<Event>, i: nat)
    requires IsTrace(cat, h, states, events) && Fresh(states[0]) && i <= |events|
    ensures LocksHeld(h, states[i])
    ensures forall c | c in states[i].sessions && states[i].sessions[c].phase.Outside? ::
      Enabled(h, states[i], Lock(c)) || Inside(h, states[i], LockOf(h, states[i].sessions[c]))
  {
    if i == 0 {
    } else {
      NoLockOutlives(cat, h, states, events, i - 1);
      StepFrees(cat, h, states[i - 1], events[i - 1]);
    }
    forall c | c in states[i].sessions && states[i].sessions[c].phase.Outside? && !Enabled(h, states[i], Lock(c))
      ensures Inside(h, states[i], LockOf(h, states[i].sessions[c]))
    {
      assert LockHeld(h, states[i], LockOf(h, states[i].sessions[c]));
    }
  }

  // ---- the application rows --------------------------------------------------------------------

  /** What a writer has committed. */
  function PastOf(x: Session): Past {
    Past(x.tenant, x.batch.header.generationId, x.batch.ins)
  }

  /** The commits of all writers so far, in the order of their database commits. */
  function History(s: Cluster): (past: seq<Past>)
    requires forall i | 0 <= i < |s.writers| :: s.writers[i] in s.sessions
    ensures |past| == |s.writers|
  {
    seq(|s.writers|, i requires 0 <= i < |s.writers| => PastOf(s.sessions[s.writers[i]]))
  }

  /** A step keeps every session's tenant and batch. */
  ghost predicate SameSessions(s: Cluster, after: Cluster) {
    forall c | c in s.sessions :: c in after.sessions && PastOf(after.sessions[c]) == PastOf(s.sessions[c])
  }

  lemma HistoryUnmoved(h: AdvisoryKey, s: Cluster, after: Cluster)
    requires Inv(h, s) && Inv(h, after) && after.writers == s.writers && SameSessions(s, after)
    ensures History(after) == History(s)
  {
  }

  lemma WriteConserves(
    cat: Catalog, h: AdvisoryKey, s: Cluster, c: nat, now: int, acknowledged: bool, seed: Rows)
    requires Inv(h, s) && c in s.sessions && s.sessions[c].phase.Absent? && RanksFall(s.sessions[c].batch.ins)
    requires Inserted(cat, s.db, s.sessions[c], now).Ok?
    requires Conserved(seed, History(s), s.db) && WellRecorded(History(s), s.db)
    ensures var after := Wrote(h, s, c, now, acknowledged, Inserted(cat, s.db, s.sessions[c], now).value);
      && (forall i | 0 <= i < |after.writers| :: after.writers[i] in after.sessions)
      && Conserved(seed, History(after), after.db) && WellRecorded(History(after), after.db)
  {
    var x := s.sessions[c];
    var after := Wrote(h, s, c, now, acknowledged, Inserted(cat, s.db, x, now).value);
    MetadataNeverConflicts(h, s, c);
    InsertedIsCommit(cat, s.db, x, now);
    CommitStep(cat, seed, History(s), s.db, x.tenant, x.key, x.batch, now);
    assert History(after) == History(s) + [PastOf(x)];
  }

  /** Inside the lock, a write is the commit of a new key. */
  lemma InsertedIsCommit(cat: Catalog, db: Db, x: Session, now: int)
    requires Tracked(db) && Inserted(cat, db, x, now).Ok?
    ensures Writes(cat, db, x.tenant, x.key, x.batch)
    ensures Inserted(cat, db, x, now).value == CommitNext(cat, db, x.tenant, x.key, x.batch, now).0
  {
    CommitWritesOrNot(cat, db, x.tenant, x.key, x.batch, now);
  }

  lemma StepConserves(cat: Catalog, h: AdvisoryKey, s: Cluster, e: Event, seed: Rows)
    requires Inv(h, s) && Enabled(h, s, e) && Inv(h, Step(cat, h, s, e)) && AllPlanned(s)
    requires Conserved(seed, History(s), s.db) && WellRecorded(History(s), s.db)
    ensures var after := Step(cat, h, s, e);
      Conserved(seed, History(after), after.db) && WellRecorded(History(after), after.db)
  {
    var after := Step(cat, h, s, e);
    if e.Write? && Inserted(cat, s.db, s.sessions[e.s], e.now).Ok? {
      WriteConserves(cat, h, s, e.s, e.now, e.acknowledged, seed);
    } else {
      QuietStep(cat, h, s, e);
      HistoryUnmoved(h, s, after);
      if e.Remove? { DeleteStep(cat, seed, History(s), s.db, e.tenant, e.generationId, e.now); }
    }
  }

  lemma QuietStep(cat: Catalog, h: AdvisoryKey, s: Cluster, e: Event)
    requires Tracked(s.db) && Enabled(h, s, e)
    requires e.Write? ==> Inserted(cat, s.db, s.sessions[e.s], e.now).Err?
    ensures var after := Step(cat, h, s, e);
      && after.writers == s.writers && SameSessions(s, after)
      && after.db == if e.Remove? then DeleteNext(cat, s.db, e.tenant, e.generationId, e.now).0 else s.db
  {
    match e
    case Open(c, _, _, _, _) =>
    case Lock(c) => LockedIsQuiet(h, s, c);
    case Find(c) => LookedIsQuiet(h, s, c);
    case Write(c, now, _) =>
      var error := Inserted(cat, s.db, s.sessions[c], now).error;
      ReleaseIsQuiet(h, s, c, Failed(h, s, c, error).sessions[c]);
    case Transient(c) => ReleaseIsQuiet(h, s, c, Retried(s.sessions[c]));
    case Remove(_, _, _) =>
  }

  ghost predicate Quiet(s: Cluster, after: Cluster) {
    after.writers == s.writers && SameSessions(s, after) && after.db == s.db
  }

  lemma LockedIsQuiet(h: AdvisoryKey, s: Cluster, c: nat)
    requires c in s.sessions
    ensures Quiet(s, Locked(h, s, c))
  {
  }

  lemma ReleaseIsQuiet(h: AdvisoryKey, s: Cluster, c: nat, y: Session)
    requires c in s.sessions && PastOf(y) == PastOf(s.sessions[c])
    ensures Quiet(s, Release(h, s, c, y))
  {
  }

  lemma LookedIsQuiet(h: AdvisoryKey, s: Cluster, c: nat)
    requires c in s.sessions
    ensures Quiet(s, Looked(h, s, c))
  {
  }

  ghost predicate AllPlanned(s: Cluster) {
    forall c | c in s.sessions :: RanksFall(s.sessions[c].batch.ins)
  }

  lemma PlansStay(cat: Catalog, h: AdvisoryKey, s: Cluster, e: Event)
    requires Tracked(s.db) && Enabled(h, s, e) && AllPlanned(s)
    ensures AllPlanned(Step(cat, h, s, e))
  {
  }

  /** The tables are accounted for by the writers, and every session follows a plan. */
  ghost predicate Accounted(h: AdvisoryKey, seed: Rows, s: Cluster) {
    && Inv(h, s) && AllPlanned(s)
    && Conserved(seed, History(s), s.db) && WellRecorded(History(s), s.db)
  }

  lemma StepAccounts(cat: Catalog, h: AdvisoryKey, s: Cluster, e: Event, seed: Rows)
    requires Accounted(h, seed, s) && Enabled(h, s, e)
    ensures Accounted(h, seed, Step(cat, h, s, e))
  {
    StepKeeps(cat, h, s, e);
    PlansStay(cat, h, s, e);
    StepConserves(cat, h, s, e, seed);
  }

  lemma {:induction false} TraceAccounts(
    cat: Catalog, h: AdvisoryKey, states: seq<Cluster>, events: seq<Event>, i: nat, seed: Rows)
    requires IsTrace(cat, h, states, events) && i < |states| && Accounted(h, seed, states[0])
    ensures Accounted(h, seed, states[i])
  {
    if i == 0 {
    } else {
      TraceAccounts(cat, h, states, events, i - 1, seed);
      StepAccounts(cat, h, states[i - 1], events[i - 1], seed);
    }
  }

  lemma FreshIsAccounted(h: AdvisoryKey, s: Cluster)
    requires Fresh(s)
    ensures Accounted(h, s.db.rows, s)
  {
    assert forall t, id :: ConservedAt(s.db.rows, [], s.db, t, id);
  }

  /**
   * Under any interleaving of retried sessions, faults and deletes: what each tenant sees of an
   * application table is its seed rows followed by the rows of exactly its writers whose generation
   * is not deleted, in the order of their database commits.  Together that is the whole table: no row
   * of a session that did not write is ever there.
   */
  lemma TablesAreWriters(
    cat: Catalog, h: AdvisoryKey, states: seq<Cluster>, events: seq<Event>, i: nat, id: TableId)
    requires IsTrace(cat, h, states, events) && Fresh(states[0]) && i < |states|
    ensures forall k | 0 <= k < |states[i].writers| :: states[i].writers[k] in states[i].sessions
    ensures forall t {:trigger At(states[i].db.rows, t, id)} ::
      At(states[i].db.rows, t, id) ==
      At(states[0].db.rows, t, id) + LiveRows(states[i].db.generations, History(states[i]), t, id)
  {
    FreshIsAccounted(h, states[0]);
    TraceAccounts(cat, h, states, events, i, states[0].db.rows);
    forall t
      ensures At(states[i].db.rows, t, id) ==
              At(states[0].db.rows, t, id) + LiveRows(states[i].db.generations, History(states[i]), t, id)
    {
      assert ConservedAt(states[0].db.rows, History(states[i]), states[i].db, t, id);
    }
  }

  /** The lock and the fresh ids suffice: no session is ever refused by the metadata's unique constraints. */
  lemma NeverRefusedByMetadata(cat: Catalog, h: AdvisoryKey, states: seq<Cluster>, events: seq<Event>, i: nat)
    requires IsTrace(cat, h, states, events) && Fresh(states[0]) && i < |events| && events[i].Write?
    ensures var x := states[i].sessions[events[i].s];
      Inserted(cat, states[i].db, x, events[i].now).Err? <==>
        StageAll(cat, states[i].db.rows, x.tenant, x.batch.ins).Err?
  {
    TraceInv(cat, h, states, events, i);
    MetadataNeverConflicts(h, states[i], events[i].s);
  }

  /**
   * A call whose last attempt loses only its acknowledgement reports DEPENDENCY_UNAVAILABLE although
   * its generation is committed with all its rows, for any batch that the database takes: an exhausted
   * call does not always leave the database untouched.
   */
  lemma ExhaustedYetCommitted(cat: Catalog, h: AdvisoryKey, rows: Rows, t: Tenant, key: string, b: Batch)
    requires cat.rules.InDatabase? && StageAll(cat, rows, t, b.ins).Ok?
    requires RanksFall(b.ins) && b.header.generationId != ""
    ensures exists states: seq<Cluster>, events: seq<Event> ::
      && IsTrace(cat, h, states, events) && Fresh(states[0]) && states[0].db.rows == rows
      && var last := states[|states| - 1];
      && 0 in last.sessions && last.sessions[0].batch == b
      && last.sessions[0].phase == Done(Refused(DependencyUnavailable))
      && Complete(last.db, last.sessions[0]) && last.db.rows == StageAll(cat, rows, t, b.ins).value
  {
    var start := Cluster(Db(rows, map[], map[], map[], map[]), map[], map[], []);
    var states, events := LoneSession(cat, h, start, t, key, b);
    var after := LoneWrite(cat, h, states[|events|], t, key, b);
    TraceGrows(cat, h, states, events, Write(0, 0, false), after);
    assert IsTrace(cat, h, states + [after], events + [Write(0, 0, false)]);
  }

  lemma TraceGrows(
    cat: Catalog, h: AdvisoryKey, states: seq<Cluster>, events: seq<Event>, e: Event, after: Cluster)
    requires IsTrace(cat, h, states, events)
    requires Enabled(h, states[|events|], e) && after == Step(cat, h, states[|events|], e)
    ensures IsTrace(cat, h, states + [after], events + [e])
  {
  }

  /** One session alone opens, takes its lock and does not find its key. */
  lemma LoneSession(cat: Catalog, h: AdvisoryKey, s0: Cluster, t: Tenant, key: string, b: Batch)
      returns (states: seq<Cluster>, events: seq<Event>)
    requires cat.rules.InDatabase? && Fresh(s0) && RanksFall(b.ins) && b.header.generationId != ""
    ensures IsTrace(cat, h, states, events) && |events| == 3 && states[0] == s0
    ensures var last := states[3];
      last.db == s0.db && 0 in last.sessions && last.sessions[0] == Session(t, key, b, Absent, 1)
  {
    var s1 := Step(cat, h, s0, Open(0, t, key, b, 1));
    TraceGrows(cat, h, [s0], [], Open(0, t, key, b, 1), s1);
    var s2 := Step(cat, h, s1, Lock(0));
    TraceGrows(cat, h, [s0] + [s1], [] + [Open(0, t, key, b, 1)], Lock(0), s2);
    var s3 := Step(cat, h, s2, Find(0));
    states, events := [s0] + [s1] + [s2] + [s3], [] + [Open(0, t, key, b, 1)] + [Lock(0)] + [Find(0)];
    TraceGrows(cat, h, [s0] + [s1] + [s2], [] + [Open(0, t, key, b, 1)] + [Lock(0)], Find(0), s3);
  }

  /** Its only write goes through, and the acknowledgement is lost. */
  lemma LoneWrite(cat: Catalog, h: AdvisoryKey, s: Cluster, t: Tenant, key: string, b: Batch) returns (after: Cluster)
    requires s.db == Db(s.db.rows, map[], map[], map[], map[]) && StageAll(cat, s.db.rows, t, b.ins).Ok?
    requires 0 in s.sessions && s.sessions[0] == Session(t, key, b, Absent, 1)
    ensures Tracked(s.db) && Enabled(h, s, Write(0, 0, false)) && after == Step(cat, h, s, Write(0, 0, false))
    ensures 0 in after.sessions && after.sessions[0].batch == b
    ensures after.sessions[0].phase == Done(Refused(DependencyUnavailable))
    ensures Complete(after.db, after.sessions[0]) && after.db.rows == StageAll(cat, s.db.rows, t, b.ins).value
  {
    after := Step(cat, h, s, Write(0, 0, false));
    assert after.db == AfterCommit(s.db, t, key, b, 0, StageAll(cat, s.db.rows, t, b.ins).value);
  }
}
