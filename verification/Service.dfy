// service.py: one create or delete call on the repository, from lookup to commit.
module Service {
  import opened Values
  import opened Contracts
  import opened Store
  import opened W = Writes
  import opened D = Dataset
  import opened Provider
  import opened InMemory
  import Interleaving

  /** What the provider is given and what it computes outside the model. */
  datatype Provision = Provision(
    draw: Draw, formats: Formats, encodedSize: Records -> nat, dataDigest: Records -> string, name: string)

  /** `provider.generate`: base rows, the relation pass, and the dataset check. */
  ghost function Generated(c: Contract, p: Provision): Records
    requires ContractOk(c)
  {
    BasePopulated(c, p.draw);
    Pass(BaseRecords(c, p.draw), c.relations)
  }

  ghost predicate Usable(c: Contract, p: Provision)
    requires ContractOk(c)
  {
    Accepts(c, Generated(c, p), p.formats) && p.encodedSize(Generated(c, p)) <= c.maxBytes
  }

  ghost function WriteFor(request: Request, p: Provision, generationId: string): (w: GenerationWrite)
    requires ContractOk(request.contract) && Usable(request.contract, p)
    ensures WriteOk(w)
  {
    var c, records := request.contract, Generated(request.contract, p);
    AcceptedFits(c, records, p.formats);
    GenerationWrite(
      generationId, request,
      W.Dataset(records, TotalNat(c), p.encodedSize(records), p.dataDigest(records)), p.name)
  }

  ghost function TotalNat(c: Contract): nat
    requires ContractOk(c)
  {
    TotalNonNegative(c.records);
    TotalCount(c.records)
  }

  lemma {:induction false} TotalNonNegative(specs: seq<RecordSpec>)
    requires forall r | r in specs :: RecordOk(r)
    ensures TotalCount(specs) >= 0
  {
    if specs == [] {
    } else {
      assert specs[|specs| - 1] in specs;
      TotalNonNegative(specs[..|specs| - 1]);
    }
  }

  /** Generation without the store: the batch to commit, or why there is none. */
  ghost function Prepared(request: Request, p: Provision, generationId: string, elapsed: int, limit: int)
    : Result<Batch, Error>
    requires ContractOk(request.contract)
  {
    if !Usable(request.contract, p) then Err(GenerationError(request.contract, p))
    else if elapsed > limit then Err(DependencyUnavailable)
    else Ok(BatchOf(WriteFor(request, p, generationId)))
  }

  ghost function GenerationError(c: Contract, p: Provision): Error
    requires ContractOk(c)
  {
    if Accepts(c, Generated(c, p), p.formats) then OutputLimitExceeded else ContractInvalid
  }

  /** What one create call does to the store: only the commit changes anything. */
  ghost function CreateNext(
    cat: Catalog, db: Db, t: Tenant, key: string, digest: string, prepared: Result<Batch, Error>, now: int): (Db, Reply)
    requires Tracked(db)
  {
    var first := Interleaving.FirstLook(db, t, key, digest);
    if first.Some? then (db, first.value)
    else match prepared
      case Err(error) => (db, Refused(error))
      case Ok(b) => CommitNext(cat, db, t, key, b, now)
  }

  class SyntheticDataService {
    const repository: InMemoryGenerationRepository

    constructor (repository: InMemoryGenerationRepository)
      ensures this.repository == repository
    {
      this.repository := repository;
    }

    /** `create_generation`.  `elapsed` is the time the generation took, `limit` what the request allows. */
    method CreateGeneration(
      tenant: Tenant, key: string, request: Request, p: Provision, generationId: string,
      elapsed: int, limit: int, now: int)
        returns (reply: Reply)
      requires repository.Valid() && ContractOk(request.contract)
      modifies repository
      ensures repository.Valid()
      ensures (repository.View(), reply) ==
              CreateNext(repository.catalog, old(repository.View()), tenant, key, request.digest,
                Prepared(request, p, generationId, elapsed, limit), now)
    {
      var existing := repository.Find(tenant, key);
      if existing.Some? {
        if existing.value.header.requestDigest != request.digest {
          return Refused(IdempotencyKeyReused);
        }
        return Committed(existing.value, true);
      }
      var generated := GenerateDataset(request.contract, p);
      if generated.Err? {
        return Refused(generated.error);
      }
      if elapsed > limit {
        return Refused(DependencyUnavailable);
      }
      var write := GenerationWrite(generationId, request, generated.value, p.name);
      assert write == WriteFor(request, p, generationId);
      reply := repository.Commit(tenant, key, write, now);
    }

    method GenerateDataset(c: Contract, p: Provision) returns (r: Result<W.Dataset, Error>)
      requires ContractOk(c)
      ensures r.Ok? <==> Usable(c, p)
      ensures r.Ok? ==> r.value == W.Dataset(
        Generated(c, p), TotalNat(c), p.encodedSize(Generated(c, p)), p.dataDigest(Generated(c, p)))
      ensures r.Err? ==> r.error == GenerationError(c, p)
    {
      var ok, records := Generate(c, p.draw);
      r := ValidateGeneratedDataset(c, records, p.formats, p.encodedSize(records), p.dataDigest(records));
    }

    /** `delete_generation`; Missing stands for GENERATION_NOT_FOUND. */
    method DeleteGeneration(tenant: Tenant, generationId: string, now: int) returns (reply: Reply)
      requires repository.Valid()
      modifies repository
      ensures repository.Valid()
      ensures (repository.View(), reply) ==
              DeleteNext(repository.catalog, old(repository.View()), tenant, generationId, now)
    {
      reply := repository.Delete(tenant, generationId, now);
    }
  }
}
