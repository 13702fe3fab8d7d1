// service.py under concurrency: any number of create calls, each split into its find, generate
// and commit steps, interleaved with each other and with deletes.
module Interleaving {
  import opened Values
  import opened Store

  /** A create call: between its find and its commit, or answered. */
  datatype Call =
    | Generating(tenant: Tenant, key: string, digest: string)
    | Answered(tenant: Tenant, key: string, digest: string, reply: Reply)

  datatype System = System(db: Db, calls: map<nat, Call>)

  datatype Event =
    | Begin(call: nat, tenant: Tenant, key: string, digest: string)
    | Finish(call: nat, batch: Batch, now: int)
    | Fail(call: nat, error: Error)
    | Remove(tenant: Tenant, generationId: string, now: int)

  /** Call numbers and generation ids are not reused; a commit carries its own call's request. */
  ghost predicate Enabled(s: System, e: Event) {
    match e
    case Begin(c, _, _, _) => c !in s.calls
    case Finish(c, b, _) =>
      && c in s.calls && s.calls[c].Generating?
      && b.header.requestDigest == s.calls[c].digest
      && b.header.generationId != ""
      && (s.calls[c].tenant, b.header.generationId) !in s.db.generations
    case Fail(c, error) => c in s.calls && s.calls[c].Generating? && error != IdempotencyKeyReused
    case Remove(_, _, _) => true
  }

  /** `create_generation` up to the repository lookup. */
  function FirstLook(db: Db, t: Tenant, key: string, digest: string): Option<Reply> {
    var existing := FindIdempotent(db, t, key);
    if existing.None? then None
    else if existing.value.header.requestDigest != digest then Some(Refused(IdempotencyKeyReused))
    else Some(Committed(existing.value, true))
  }

  ghost function Step(cat: Catalog, s: System, e: Event): (r: System)
    requires Tracked(s.db) && Enabled(s, e)
    ensures Tracked(r.db)
  {
    match e
    case Begin(c, t, key, digest) =>
      var look := FirstLook(s.db, t, key, digest);
      s.(calls := s.calls[c :=
        if look.None? then Generating(t, key, digest) else Answered(t, key, digest, look.value)])
    case Finish(c, b, now) =>
      var call := s.calls[c];
      var (db, reply) := CommitNext(cat, s.db, call.tenant, call.key, b, now);
      System(db, s.calls[c := Answered(call.tenant, call.key, call.digest, reply)])
    case Fail(c, error) =>
      var call := s.calls[c];
      s.(calls := s.calls[c := Answered(call.tenant, call.key, call.digest, Refused(error))])
    case Remove(t, id, now) =>
      s.(db := DeleteNext(cat, s.db, t, id, now).0)
  }

  // ---- the invariant -------------------------------------------------------------------

  /** A taken key names a stored generation with the recorded digest. */
  ghost predicate Bound(db: Db, t: Tenant, key: string) {
    (t, key) in db.idempotency ==>
      var id := db.idempotency[(t, key)];
      && id != "" && (t, id) in db.generations && (t, key) in db.digests
      && db.generations[(t, id)].header.requestDigest == db.digests[(t, key)]
      && db.generations[(t, id)].header.generationId == id
  }

  /** What an answer says about the key it was given for. */
  ghost predicate Honest(db: Db, c: Call) {
    c.Answered? ==>
      match c.reply
      case Committed(result, _) =>
        && (c.tenant, c.key) in db.idempotency && (c.tenant, c.key) in db.digests
        && db.idempotency[(c.tenant, c.key)] == result.header.generationId
        && db.digests[(c.tenant, c.key)] == c.digest
      case Refused(error) =>
        error == IdempotencyKeyReused ==>
          && (c.tenant, c.key) in db.idempotency && (c.tenant, c.key) in db.digests
          && db.digests[(c.tenant, c.key)] != c.digest
      case _ => false
  }

  ghost predicate Wrote(c: Call) {
    c.Answered? && c.reply.Committed? && !c.reply.replayed
  }

  ghost predicate WroteFor(s: System, call: nat, t: Tenant, key: string) {
    call in s.calls && Wrote(s.calls[call]) && s.calls[call].tenant == t && s.calls[call].key == key
  }

  ghost predicate HasWriter(s: System, t: Tenant, key: string) {
    exists call :: WroteFor(s, call, t, key)
  }

  ghost predicate Inv(s: System) {
    && Tracked(s.db)
    && (forall t, key :: Bound(s.db, t, key))
    && (forall c | c in s.calls :: Honest(s.db, s.calls[c]))
    && (forall a, b, t, key :: WroteFor(s, a, t, key) && WroteFor(s, b, t, key) ==> a == b)
    && (forall t, key {:trigger HasWriter(s, t, key)} :: (t, key) in s.db.idempotency ==> HasWriter(s, t, key))
  }

  /** Keys once bound stay bound to the same generation and digest. */
  ghost predicate Keeps(a: Db, b: Db) {
    && (forall k | k in a.idempotency :: k in b.idempotency && b.idempotency[k] == a.idempotency[k])
    && (forall k | k in a.digests && k in a.idempotency :: k in b.digests && b.digests[k] == a.digests[k])
    && (forall k | k in a.generations :: k in b.generations && b.generations[k].header == a.generations[k].header)
  }

  lemma FoundWhenBound(db: Db, t: Tenant, key: string)
    requires Bound(db, t, key)
    ensures (t, key) in db.idempotency <==> FindIdempotent(db, t, key).Some?
    ensures (t, key) in db.idempotency ==>
      FindIdempotent(db, t, key).value == db.generations[(t, db.idempotency[(t, key)])]
  {
  }

  /** A step that binds no key and adds no writer leaves each key its one writer. */
  lemma WritersUntouched(s: System, after: System)
    requires Inv(s) && after.db.idempotency == s.db.idempotency
    requires forall c, t, key :: WroteFor(after, c, t, key) <==> WroteFor(s, c, t, key)
    ensures forall a, b, t, key :: WroteFor(after, a, t, key) && WroteFor(after, b, t, key) ==> a == b
    ensures forall t, key {:trigger HasWriter(after, t, key)} ::
      (t, key) in after.db.idempotency ==> HasWriter(after, t, key)
  {
    forall t, key | (t, key) in after.db.idempotency ensures HasWriter(after, t, key) {
      assert HasWriter(s, t, key);
      var a :| WroteFor(s, a, t, key);
      assert WroteFor(after, a, t, key);
    }
  }

  lemma BeginKeeps(cat: Catalog, s: System, e: Event)
    requires Inv(s) && Enabled(s, e) && e.Begin?
    ensures Inv(Step(cat, s, e))
  {
    var after := Step(cat, s, e);
    FoundWhenBound(s.db, e.tenant, e.key);
    assert Honest(after.db, after.calls[e.call]);
    WritersUntouched(s, after);
  }

  lemma FailKeeps(cat: Catalog, s: System, e: Event)
    requires Inv(s) && Enabled(s, e) && e.Fail?
    ensures Inv(Step(cat, s, e))
  {
    var after := Step(cat, s, e);
    WritersUntouched(s, after);
  }

  lemma DeleteKeepsKeys(cat: Catalog, db: Db, t: Tenant, id: string, now: int)
    requires Tracked(db)
    ensures var after := DeleteNext(cat, db, t, id, now).0;
      && Keeps(db, after) && after.generations.Keys == db.generations.Keys
      && after.idempotency == db.idempotency && after.digests == db.digests
  {
    DeleteMarks(cat, db, t, id, now);
  }

  lemma KeptKeysStayBound(a: Db, b: Db, t: Tenant, key: string)
    requires Bound(a, t, key) && Keeps(a, b) && b.idempotency == a.idempotency && b.digests == a.digests
    ensures Bound(b, t, key)
  {
  }

  lemma RemoveKeeps(cat: Catalog, s: System, e: Event)
    requires Inv(s) && e.Remove?
    ensures Inv(Step(cat, s, e)) && Keeps(s.db, Step(cat, s, e).db)
  {
    var after := Step(cat, s, e);
    DeleteKeepsKeys(cat, s.db, e.tenant, e.generationId, e.now);
    forall t, key ensures Bound(after.db, t, key) {
      KeptKeysStayBound(s.db, after.db, t, key);
    }
    forall c | c in after.calls ensures Honest(after.db, after.calls[c]) {
      assert Honest(s.db, s.calls[c]);
    }
    WritersUntouched(s, after);
  }

  /** A commit that finds its key taken, or is refused, answers and changes nothing else. */
  lemma AnsweredWithoutWriting(cat: Catalog, s: System, e: Event)
    requires Inv(s) && Enabled(s, e) && e.Finish?
    requires !Wrote(Step(cat, s, e).calls[e.call])
    ensures Inv(Step(cat, s, e)) && Step(cat, s, e).db == s.db
  {
    var after, call := Step(cat, s, e), s.calls[e.call];
    assert Bound(s.db, call.tenant, call.key);
    FoundWhenBound(s.db, call.tenant, call.key);
    StagingErrors(cat, s.db.rows, call.tenant, e.batch.ins);
    assert Honest(after.db, after.calls[e.call]);
    WritersUntouched(s, after);
  }

  lemma {:induction false} StagingErrors(cat: Catalog, rows: Rows, t: Tenant, ins: seq<Insertion>)
    ensures StageAll(cat, rows, t, ins).Err? ==>
      StageAll(cat, rows, t, ins).error in {DestinationInvalid, DestinationConflict}
  {
    if ins == [] {
    } else {
      StagingErrors(cat, rows, t, ins[..|ins| - 1]);
    }
  }

  lemma WriteKeepsBound(s: System, t: Tenant, key: string, b: Batch, g: Generation, after: Db)
    requires Inv(s) && (t, b.header.generationId) !in s.db.generations && b.header.generationId != ""
    requires g.header == b.header
    requires after.generations == s.db.generations[(t, b.header.generationId) := g]
    requires after.idempotency == s.db.idempotency[(t, key) := b.header.generationId]
    requires after.digests == s.db.digests[(t, key) := b.header.requestDigest]
    ensures forall u, k :: Bound(after, u, k)
    ensures (t, key) !in s.db.idempotency ==> Keeps(s.db, after)
  {
    forall u, k ensures Bound(after, u, k) {
      assert Bound(s.db, u, k);
    }
  }

  lemma WriteKeeps(cat: Catalog, s: System, e: Event)
    requires Inv(s) && Enabled(s, e) && e.Finish?
    requires Wrote(Step(cat, s, e).calls[e.call])
    ensures Inv(Step(cat, s, e)) && Keeps(s.db, Step(cat, s, e).db)
  {
    var after, call := Step(cat, s, e), s.calls[e.call];
    assert Bound(s.db, call.tenant, call.key);
    FoundWhenBound(s.db, call.tenant, call.key);
    var g := after.calls[e.call].reply.result;
    WriteKeepsBound(s, call.tenant, call.key, e.batch, g, after.db);
    forall c | c in after.calls ensures Honest(after.db, after.calls[c]) {
      if c != e.call { assert Honest(s.db, s.calls[c]); }
    }
    WriterAdded(s, after, e.call, call.tenant, call.key);
  }

  /** Until now nobody wrote for the key; now exactly this call has. */
  lemma WriterAdded(s: System, after: System, c: nat, t: Tenant, key: string)
    requires Inv(s) && c in s.calls && !Wrote(s.calls[c]) && (t, key) !in s.db.idempotency
    requires c in after.calls && Wrote(after.calls[c]) && after.calls[c].tenant == t && after.calls[c].key == key
    requires after.calls == s.calls[c := after.calls[c]]
    requires after.db.idempotency.Keys == s.db.idempotency.Keys + {(t, key)}
    ensures forall a, b, u, k :: WroteFor(after, a, u, k) && WroteFor(after, b, u, k) ==> a == b
    ensures forall u, k {:trigger HasWriter(after, u, k)} :: (u, k) in after.db.idempotency ==> HasWriter(after, u, k)
  {
    forall a, u, k ensures WroteFor(after, a, u, k) <==> WroteFor(s, a, u, k) || (a == c && u == t && k == key) {
    }
    forall a ensures !WroteFor(s, a, t, key) {
      if a in s.calls { assert Honest(s.db, s.calls[a]); }
    }
    forall u, k | (u, k) in after.db.idempotency ensures HasWriter(after, u, k) {
      if (u, k) == (t, key) {
        assert WroteFor(after, c, u, k);
      } else {
        assert HasWriter(s, u, k);
        var a :| WroteFor(s, a, u, k);
        assert WroteFor(after, a, u, k);
      }
    }
  }

  lemma StepKeeps(cat: Catalog, s: System, e: Event)
    requires Inv(s) && Enabled(s, e)
    ensures Inv(Step(cat, s, e)) && Keeps(s.db, Step(cat, s, e).db)
  {
    match e
    case Begin(_, _, _, _) => BeginKeeps(cat, s, e);
    case Fail(_, _) => FailKeeps(cat, s, e);
    case Remove(_, _, _) => RemoveKeeps(cat, s, e);
    case Finish(c, _, _) =>
      if Wrote(Step(cat, s, e).calls[c]) { WriteKeeps(cat, s, e); } else { AnsweredWithoutWriting(cat, s, e); }
  }

  // ---- whole interleavings ------------------------------------------------------------------

  /** The states of an interleaving, one more than its events. */
  ghost predicate IsTrace(cat: Catalog, states: seq<System>, events: seq<Event>) {
    && |states| == |events| + 1
    && (forall i | 0 <= i < |states| :: Tracked(states[i].db))
    && (forall i | 0 <= i < |events| ::
          Enabled(states[i], events[i]) && states[i + 1] == Step(cat, states[i], events[i]))
  }

  /** No generations, keys or calls yet; seed rows are arbitrary. */
  ghost predicate Fresh(s: System) {
    s.calls == map[] && s.db == Db(s.db.rows, map[], map[], map[], map[])
  }

  lemma {:induction false} TraceInv(cat: Catalog, states: seq<System>, events: seq<Event>, i: nat)
    requires IsTrace(cat, states, events) && Fresh(states[0]) && i < |states|
    ensures Inv(states[i])
  {
    if i == 0 {
    } else {
      TraceInv(cat, states, events, i - 1);
      StepKeeps(cat, states[i - 1], events[i - 1]);
    }
  }

  /** Whatever is bound at one moment is bound to the same id and digest at every later one. */
  lemma {:induction false} KeysNeverRebind(cat: Catalog, states: seq<System>, events: seq<Event>, i: nat, j: nat)
    requires IsTrace(cat, states, events) && Fresh(states[0]) && i <= j < |states|
    ensures Keeps(states[i].db, states[j].db)
    decreases j
  {
    if i < j {
      KeysNeverRebind(cat, states, events, i, j - 1);
      TraceInv(cat, states, events, j - 1);
      StepKeeps(cat, states[j - 1], events[j - 1]);
    }
  }

  /**
   * In every interleaving: a key is bound exactly when one call has a non-replayed success for it,
   * and then only one has; every success for the key, replayed or not, carries that one's
   * generation id and its request digest.
   */
  lemma ExactlyOneWriter(cat: Catalog, states: seq<System>, events: seq<Event>, i: nat, t: Tenant, key: string)
    requires IsTrace(cat, states, events) && Fresh(states[0]) && i < |states|
    ensures (t, key) in states[i].db.idempotency <==> exists a :: WroteFor(states[i], a, t, key)
    ensures forall a, b :: WroteFor(states[i], a, t, key) && WroteFor(states[i], b, t, key) ==> a == b
    ensures forall a, c | WroteFor(states[i], a, t, key) && c in states[i].calls
        && states[i].calls[c].Answered? && states[i].calls[c].tenant == t && states[i].calls[c].key == key
        && states[i].calls[c].reply.Committed? ::
      && states[i].calls[c].reply.result.header.generationId == states[i].calls[a].reply.result.header.generationId
      && states[i].calls[c].digest == states[i].calls[a].digest
  {
    TraceInv(cat, states, events, i);
    var s := states[i];
    if (t, key) in s.db.idempotency { assert HasWriter(s, t, key); }
    forall a | WroteFor(s, a, t, key) ensures (t, key) in s.db.idempotency {
      assert Honest(s.db, s.calls[a]);
    }
    forall c | c in s.calls ensures Honest(s.db, s.calls[c]) {
    }
  }

  /** The event asks for the key with the digest: a find, or the commit of a call already generating. */
  ghost predicate Asks(s: System, e: Event, t: Tenant, key: string, digest: string) {
    match e
    case Begin(_, u, k, d) => u == t && k == key && d == digest
    case Finish(c, _, _) => c in s.calls && s.calls[c] == Generating(t, key, digest)
    case _ => false
  }

  /**
   * Once a key is bound, asking with the recorded digest returns the bound generation, possibly
   * DELETED by now, and asking with any other digest is refused.  Neither writes.
   */
  lemma BoundKeyAnswers(
    cat: Catalog, states: seq<System>, events: seq<Event>, i: nat, t: Tenant, key: string, digest: string)
    requires IsTrace(cat, states, events) && Fresh(states[0]) && i < |events|
    requires (t, key) in states[i].db.idempotency && Asks(states[i], events[i], t, key, digest)
    ensures var db := states[i].db;
      && (t, db.idempotency[(t, key)]) in db.generations && (t, key) in db.digests
      && states[i + 1].db == db
      && states[i + 1].calls[events[i].call] == Answered(t, key, digest,
           if digest == db.digests[(t, key)]
           then Committed(db.generations[(t, db.idempotency[(t, key)])], true)
           else Refused(IdempotencyKeyReused))
  {
    TraceInv(cat, states, events, i);
    assert Bound(states[i].db, t, key);
    FoundWhenBound(states[i].db, t, key);
  }

  /** Why a call was refused: another request has its key, its generation failed, or its rows were not taken. */
  ghost predicate Reason(cat: Catalog, s: System, e: Event, c: nat, error: Error)
    requires Tracked(s.db)
  {
    match e
    case Begin(d, t, key, digest) =>
      var existing := FindIdempotent(s.db, t, key);
      && d == c && error == IdempotencyKeyReused
      && existing.Some? && existing.value.header.requestDigest != digest
    case Fail(d, failure) => d == c && error == failure
    case Finish(d, b, now) =>
      && d == c && c in s.calls
      && CommitNext(cat, s.db, s.calls[c].tenant, s.calls[c].key, b, now) == (s.db, Refused(error))
    case Remove(_, _, _) => false
  }

  lemma StepReasons(cat: Catalog, s: System, e: Event, c: nat, error: Error)
    requires Tracked(s.db) && Enabled(s, e) && c in Step(cat, s, e).calls && Step(cat, s, e).calls[c].Answered?
    requires Step(cat, s, e).calls[c].reply == Refused(error)
    ensures (c in s.calls && s.calls[c] == Step(cat, s, e).calls[c]) || Reason(cat, s, e, c, error)
  {
    if e.Finish? && e.call == c {
      CommitWritesOrNot(cat, s.db, s.calls[c].tenant, s.calls[c].key, e.batch, e.now);
    }
  }

  /** Every refusal goes back to an event that is its reason, and that changed nothing in the store. */
  lemma {:induction false} RefusalsHaveReasons(
    cat: Catalog, states: seq<System>, events: seq<Event>, i: nat, c: nat, error: Error) returns (k: nat)
    requires IsTrace(cat, states, events) && Fresh(states[0]) && i <= |events|
    requires c in states[i].calls && states[i].calls[c].Answered? && states[i].calls[c].reply == Refused(error)
    ensures k < i && Reason(cat, states[k], events[k], c, error) && states[k + 1].db == states[k].db
  {
    k := i - 1;
    StepReasons(cat, states[k], events[k], c, error);
    if !Reason(cat, states[k], events[k], c, error) {
      k := RefusalsHaveReasons(cat, states, events, i - 1, c, error);
    }
  }
}
