// The theorems about runs, read off any repository object that the program can reach.
module Objects {
  import opened Store
  import opened Integrity
  import opened Isolation
  import opened Conservation
  import opened InMemory

  /** No commit since the last seeding reused a generation id. */
  ghost predicate FreshIds(repository: InMemoryGenerationRepository)
    requires repository.Valid()
    reads repository
  {
    FreshRun(repository.catalog, repository.origin, repository.log)
  }

  /** Its tables are the seed rows followed by the rows of the generations still COMMITTED, in commit order. */
  lemma ObjectConserves(repository: InMemoryGenerationRepository, t: Tenant, id: TableId)
    requires repository.Valid() && repository.origin.generations == map[] && FreshIds(repository)
    ensures At(repository.rows, t, id) ==
      At(repository.origin.rows, t, id) +
      LiveRows(repository.generations, History(repository.catalog, repository.origin, repository.log), t, id)
  {
    RunsConserve(repository.catalog, repository.origin, repository.log);
    assert ConservedAt(repository.origin.rows, History(repository.catalog, repository.origin, repository.log),
      repository.View(), t, id);
  }

  /** Its rows keep every declared key and reference, if the seed rows did. */
  lemma ObjectConsistent(repository: InMemoryGenerationRepository, t: Tenant)
    requires repository.Valid() && Consistent(repository.catalog, repository.origin.rows, t)
    ensures Consistent(repository.catalog, repository.rows, t)
  {
    RunsKeepConsistent(repository.catalog, repository.origin, repository.log, t);
  }

  /** A tenant sees in it what its own calls alone would have left. */
  lemma ObjectIsolates(repository: InMemoryGenerationRepository, t: Tenant)
    requires repository.Valid()
    ensures Agree(repository.View(), Run(repository.catalog, repository.origin, Own(repository.log, t)), t)
  {
    TenantsDoNotInterfere(repository.catalog, repository.origin, repository.log, t);
  }
}
