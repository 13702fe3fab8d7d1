// What a create call answers, and what it leaves in the store.
module Answers {
  import opened Values
  import opened Contracts
  import opened Store
  import opened W = Writes
  import opened D = Dataset
  import opened Provider
  import opened EndToEnd
  import opened Committed
  import opened Service

  /** The whole call: look up, generate, commit. */
  ghost function Created(
    cat: Catalog, db: Db, t: Tenant, key: string, request: Request, p: Provision, generationId: string,
    elapsed: int, limit: int, now: int): (Db, Reply)
    requires Tracked(db) && ContractOk(request.contract)
  {
    CreateNext(cat, db, t, key, request.digest, Prepared(request, p, generationId, elapsed, limit), now)
  }

  ghost predicate NewKey(db: Db, t: Tenant, key: string) {
    FindIdempotent(db, t, key) == None
  }

  /** A key that is taken is answered from the store: its generation for the same request, a refusal for another. */
  lemma KnownKeyIsAnswered(
    cat: Catalog, db: Db, t: Tenant, key: string, request: Request, p: Provision, generationId: string,
    elapsed: int, limit: int, now: int, existing: Generation)
    requires Tracked(db) && ContractOk(request.contract) && FindIdempotent(db, t, key) == Some(existing)
    ensures Created(cat, db, t, key, request, p, generationId, elapsed, limit, now) ==
      (db, if existing.header.requestDigest == request.digest
           then Committed(existing, true) else Refused(IdempotencyKeyReused))
  {
  }

  /** A dataset that breaks the contract, or its byte bound, is never committed, however quickly it came. */
  lemma FailedGenerationIsRefused(
    cat: Catalog, db: Db, t: Tenant, key: string, request: Request, p: Provision, generationId: string,
    elapsed: int, limit: int, now: int)
    requires Tracked(db) && ContractOk(request.contract) && NewKey(db, t, key)
    ensures Populated(BaseRecords(request.contract, p.draw), request.contract.relations)
    ensures var records := Pass(BaseRecords(request.contract, p.draw), request.contract.relations);
      var answer := Created(cat, db, t, key, request, p, generationId, elapsed, limit, now);
      && (!Accepts(request.contract, records, p.formats) ==> answer == (db, Refused(ContractInvalid)))
      && (Accepts(request.contract, records, p.formats) && p.encodedSize(records) > request.contract.maxBytes ==>
            answer == (db, Refused(OutputLimitExceeded)))
  {
    BasePopulated(request.contract, p.draw);
  }

  /** A generation that took too long is refused, and leaves the store as it was. */
  lemma OverdueIsRefused(
    cat: Catalog, db: Db, t: Tenant, key: string, request: Request, p: Provision, generationId: string,
    elapsed: int, limit: int, now: int)
    requires Tracked(db) && ContractOk(request.contract) && NewKey(db, t, key) && elapsed > limit
    ensures var (after, reply) := Created(cat, db, t, key, request, p, generationId, elapsed, limit, now);
      && after == db && reply.Refused?
      && (Usable(request.contract, p) ==> reply.error == DependencyUnavailable)
  {
  }

  /** What a usable request asks to be written: the pass's records, with their digests, sizes and counts. */
  ghost predicate WriteOf(request: Request, p: Provision, generationId: string, w: GenerationWrite)
    requires ContractOk(request.contract)
  {
    && WriteOk(w) && w.request == request && w.generationId == generationId && w.provider == p.name
    && Populated(BaseRecords(request.contract, p.draw), request.contract.relations)
    && w.dataset.records == Pass(BaseRecords(request.contract, p.draw), request.contract.relations)
    && w.dataset.recordCount == TotalCount(request.contract.records)
    && w.dataset.byteCount == p.encodedSize(w.dataset.records) <= request.contract.maxBytes
    && w.dataset.dataDigest == p.dataDigest(w.dataset.records)
  }

  /**
   * A usable request that came in time is answered by the store's commit of exactly the generated
   * rows: if the store takes them, they are appended to their tables and the result says so; if not,
   * nothing changes.
   */
  lemma TimelyIsCommitted(
    cat: Catalog, db: Db, t: Tenant, key: string, request: Request, p: Provision, generationId: string,
    elapsed: int, limit: int, now: int) returns (w: GenerationWrite)
    requires Tracked(db) && ContractOk(request.contract) && NewKey(db, t, key) && elapsed <= limit
    requires Usable(request.contract, p)
    ensures WriteOf(request, p, generationId, w)
    ensures var (after, reply) := Created(cat, db, t, key, request, p, generationId, elapsed, limit, now);
      && (reply.Committed? <==> Store.Writes(cat, db, t, key, BatchOf(w)))
      && (!reply.Committed? ==> after == db && reply.Refused?)
      && (reply.Committed? && OwnTables(request.contract) ==>
            && !reply.replayed && ResultOf(w, reply.result, now)
            && Appended(request.contract, w.dataset.records, db.rows, after.rows, t))
  {
    w := Written(request, p, generationId);
    CreatedIsCommit(cat, db, t, key, request, p, generationId, elapsed, limit, now, w);
    CommitAnswers(cat, db, t, key, w, now);
  }

  lemma Written(request: Request, p: Provision, generationId: string) returns (w: GenerationWrite)
    requires ContractOk(request.contract) && Usable(request.contract, p)
    ensures WriteOf(request, p, generationId, w) && w == WriteFor(request, p, generationId)
  {
    BasePopulated(request.contract, p.draw);
    w := WriteFor(request, p, generationId);
  }

  lemma CreatedIsCommit(
    cat: Catalog, db: Db, t: Tenant, key: string, request: Request, p: Provision, generationId: string,
    elapsed: int, limit: int, now: int, w: GenerationWrite)
    requires Tracked(db) && ContractOk(request.contract) && NewKey(db, t, key) && elapsed <= limit
    requires Usable(request.contract, p) && w == WriteFor(request, p, generationId)
    ensures WriteOk(w)
    ensures Created(cat, db, t, key, request, p, generationId, elapsed, limit, now) ==
            CommitNext(cat, db, t, key, BatchOf(w), now)
  {
  }

  lemma CommitAnswers(cat: Catalog, db: Db, t: Tenant, key: string, w: GenerationWrite, now: int)
    requires Tracked(db) && WriteOk(w) && NewKey(db, t, key)
    ensures var (after, reply) := CommitNext(cat, db, t, key, BatchOf(w), now);
      && (reply.Committed? <==> Store.Writes(cat, db, t, key, BatchOf(w)))
      && (!reply.Committed? ==> after == db && reply.Refused?)
      && (reply.Committed? && OwnTables(w.request.contract) ==>
            && !reply.replayed && ResultOf(w, reply.result, now)
            && Appended(w.request.contract, w.dataset.records, db.rows, after.rows, t))
  {
    CommitWritesOrNot(cat, db, t, key, BatchOf(w), now);
    if Store.Writes(cat, db, t, key, BatchOf(w)) && OwnTables(w.request.contract) {
      CommitWritesDataset(cat, db, t, key, w, now);
    }
  }
}
