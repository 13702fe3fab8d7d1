# Verification of the synthetic data generation service

A Dafny 4.11 model of the service's core, with proofs: the transactional generation store and its
undo, the destination planner and the contract validator it must agree with, the SQL commit and
delete protocol under faults and concurrency, the migration runner, and the deterministic generator
with the check of its output. `dafny verify dfyconfig.toml` verifies the whole project.

## How the model is laid out

| file | what it models |
|---|---|
| `Values.dfy` | scalars, Python's equality of them (True, 1 and 1.0 are one value), rows, sequence facts |
| `Kahn.dfy` | a ready-queue topological sort on any graph: invariant, completeness, cycles |
| `Contracts.dfy` | the generation contract and `validate_graph_and_bounds`, loop by loop |
| `Planning.dfy`, `PlanOrder.dfy` | `plan_destinations`, loop by loop; what the plan guarantees, and which plan it is |
| `Store.dfy` | one commit and one delete as functions on the five maps, under the rules of the in-memory store or of the database; the written-key ledger; runs |
| `Judgements.dfy` | what taking a row, staging a batch and erasing an entry mean, column by column |
| `Integrity.dfy`, `Conservation.dfy`, `Undo.dfy` | theorems about all runs, under either rules |
| `Isolation.dfy` | tenants of the in-memory store do not notice each other |
| `Lifo.dfy`, `LaterDeletes.dfy` | deleting several generations in reverse; deleting one much later |
| `ChangedRows.dfy`, `NullReferences.dfy` | what a changed row, and what a null reference, does to a delete |
| `Writes.dfy` | from a validated dataset to the insertions of a commit |
| `InMemory.dfy`, `Objects.dfy` | `InMemoryGenerationRepository` as a class, proved equal to `Store.dfy`; the theorems on runs as theorems on its objects |
| `Interleaving.dfy` | `create_generation` split into find, generate and commit steps, any number of callers |
| `RulesCompared.dfy`, `SelfRelations.dfy` | where the two repositories agree and where they part |
| `TenantKeys.dfy` | what tenants can notice of each other over the shared tables of the database |
| `SqlRepository.dfy` | `SqlGenerationRepository`: transactions under bounded retry, as a class |
| `SqlProtocol.dfy` | concurrent retried commits under the advisory lock, as a step system |
| `Migration.dfy` | `apply_migrations` as a class, and runs of images with different migration lists |
| `Dataset.dfy` | `validate_generated_dataset`, loop by loop, against a declarative meaning |
| `Provider.dfy` | the generator's in-place relation pass, and exactly when it works |
| `Defaults.dfy`, `Acceptance.dfy` | default and sequence values to the character; exactly when generated data is accepted |
| `EndToEnd.dfy`, `Committed.dfy` | from an accepted dataset through the commit to the delete; what exactly a commit writes and answers |
| `Example.dfy` | one contract, catalog and dataset that meet all hypotheses of the end-to-end theorems |
| `Service.dfy`, `Answers.dfy` | `create_generation` and `delete_generation` over the in-memory repository; what a create call answers in each case |

Classes follow the objects that the code updates in place; each of their methods is proved to
compute a function (`CommitNext`, `DeleteNext`, `PlanOf`, `GraphFault`, `Apply`, ...), and the
theorems are about those functions.

A `Catalog` holds the destination tables and says whose rules apply. The in-memory store keeps each
tenant's rows to themselves; a row is checked against the rows before it and is protected by anything
that refers to it. The database has one table for all tenants: a row policy shows each tenant its own
rows (so that is what `At(rows, t, id)` holds, and what a DELETE searches), but unique keys and foreign
keys are checked against everyone's. There a foreign key is checked when the row is in, a null refers
to nothing and is refused in a required column, a deleted row is protected by references that would
dangle, and metadata constraints can refuse a write. Theorems that do not name the rules hold under
both.

`InMemoryGenerationRepository` keeps a ghost log. Its invariant says that its state is
`Run(catalog, origin, log)` and that every logged commit follows a plan; `Objects.dfy` reads the
conservation, integrity and isolation theorems off any such object.

## Where the code and its documentation differ

- `documentation/reference/api-and-lifecycle.md:15-16` says that a POST that ultimately fails leaves
  neither rows nor evidence. When the last attempt loses only its acknowledgement, the call reports
  DEPENDENCY_UNAVAILABLE and the generation is fully there. `SqlProtocol.ExhaustedYetCommitted` gives
  the schedule; `SqlRepository.SqlGenerationRepository.Commit` says exactly when it happens.
- `documentation/workflows/recover-and-delete.md:9-11` says that a changed row makes a delete fail.
  Only the written key columns are compared: `ChangedRows.ChangedRowErased` says exactly when the
  changed row is deleted, `ChangedRows.ChangedKeyConflicts` when the change itself stops the delete.
- The in-memory store does not judge quite as the database does, and `RulesCompared.dfy` lists every
  difference. Only the database refuses a null in a required column, and a key that another tenant
  holds; only the in-memory store refuses a row whose foreign key is met by itself alone, or by another
  tenant's row (`RulesCompared.RefusalsCompared`, `RulesCompared.CommitsCompared`). The generator writes
  rows of the third kind for every relation of a record type to itself
  (`SelfRelations.GeneratedInPlace`, `SelfRelations.SelfRelationPartsTheStores`). Only the in-memory
  store refuses to delete a row that a null refers to
  (`src/juntai_synthetic_data/persistence/in_memory.py:267-269`) or that refers to itself; only the
  database refuses one that another tenant's row refers to (`RulesCompared.DeletesCompared`,
  `RulesCompared.SqlEraseExactly`, `Undo.UndoClearExactly`, `NullReferences.NullTargetBlocksUndo`).
- Over shared tables tenants do meet: `TenantKeys.CopyRefused` gives the case, and
  `TenantKeys.KeyedTenantsDoNotInterfere` the keys under which they never do.
- `check` of an image without the synchronous migration refuses the very database that `apply` calls
  current (`Migration.CheckPredictsApply`, `Migration.CheckInSupportedStates`), and only `apply` looks
  at leftover worker tables (`Migration.CurrentCheckMeansCurrentApply`).

## Assumptions a theorem states where it needs them

- Generation ids are fresh (they come from UUIDs): a commit under an existing id would overwrite it.
- Undo and end-to-end theorems name their hypotheses on the catalog: the written key covers a declared
  unique key and, in memory only, foreign keys target declared unique keys and referenced columns are
  filled from non-nullable fields.
- Destination tables in the database are under a row policy by tenant, as those of
  `scripts/real_kes_acceptance.py:149-201` are.
- Migration lists have strictly increasing ids, which `load_migrations` enforces.
- Nothing is assumed of digests: idempotency is equality of the given digest strings.

## Model

| member | source | states |
|---|---|---|
| Kahn.DryIsComplete | src/juntai_synthetic_data/contracts/models.py:187-201 | whenever a ready-queue loop runs dry, in whatever order it took children, it has visited every node if and only if the graph has no cycle, and then its visits put every parent before its children |
| Kahn.TurnKeepsInv | src/juntai_synthetic_data/contracts/models.py:193-199 | one turn of the loop, for any order of the children, keeps: pending is the unvisited parents, ready is exactly the settled unvisited nodes, nothing twice |
| Kahn.BackwardWalk | src/juntai_synthetic_data/contracts/models.py:200-201 | a set of nodes each having a parent inside the set contains a cycle: walking backwards must repeat |
| Contracts.ValidateGraphAndBounds | src/juntai_synthetic_data/contracts/models.py:163-202 | the validator, loop by loop, reports the first fault in the code's order, and reports a cycle exactly when the relations between different record types have one |
| Contracts.ContractAcceptedExactly | src/juntai_synthetic_data/contracts/models.py:163-202 | the validator accepts if and only if record types are distinct, their counts add up to at most max_records, every relation has existing types and fields of one type, a unique target and, if required, a source that is never null, and no relations go round |
| Contracts.ReportedExactly | src/juntai_synthetic_data/contracts/models.py:163-202 | what it reports otherwise: repeated names, too many rows, the first wrong relation with its own first fault, or a round of relations |
| Contracts.TotalIsSum | src/juntai_synthetic_data/contracts/models.py:167-168 | the count that is bounded is additive over record types, each giving its own |
| Contracts.CountVisited | src/juntai_synthetic_data/contracts/models.py:187-200 | the visited count reaches the number of record types if and only if the relation graph is acyclic |
| Contracts.SortNames | src/juntai_synthetic_data/contracts/models.py:196 | the children are taken sorted, each once: the result is sorted, has no repetition and has exactly the given elements |
| Planning.PlanDestinations | src/juntai_synthetic_data/destinations/planning.py:16-40 | the planner's loops compute the plan function; no plan stands for the ValueError |
| Planning.PlanSound | src/juntai_synthetic_data/destinations/planning.py:27-40 | a plan exists if and only if the relations have no cycle, and it is then a permutation of the record types in parent-first order |
| Planning.ValidatorAndPlannerAgree | src/juntai_synthetic_data/destinations/planning.py:27-39 | a contract the validator accepts is always planned, one it rejects as cyclic never is, although the two loops break ties differently |
| Planning.PlanShape | src/juntai_synthetic_data/destinations/planning.py:38-40 | the insert order lists every record type once, topologically; the delete order is its reverse |
| PlanOrder.PlanIsFifo | src/juntai_synthetic_data/destinations/planning.py:27-37 | the insert order is the only parents-first listing in which record types freed sooner stand first, and those freed together stand in contract order |
| PlanOrder.PlanOfUnrelated | src/juntai_synthetic_data/destinations/planning.py:27-37 | without relations between different types it is the contract's own order |
| Planning.ParentsFirst | src/juntai_synthetic_data/destinations/planning.py:29-37 | for every relation between different types the parent is inserted strictly earlier |
| Planning.ParentsDeletedLast | src/juntai_synthetic_data/destinations/planning.py:40 | and deleted strictly later |
| Store.DeleteOrderReversesInsertion | src/juntai_synthetic_data/persistence/in_memory.py:281-284 | any sort of the written ledger by `(delete_rank, -insert_ordinal)` is exactly the reverse of insertion; the same key is the SQL ORDER BY |
| Store.StagedRows | src/juntai_synthetic_data/persistence/in_memory.py:161-204 | a successful staging appends to each table of the tenant its rows in insertion order, and changes no other table or tenant |
| Judgements.TakenExactly | src/juntai_synthetic_data/persistence/in_memory.py:91-143 | under either rules, a row is taken if and only if its table is known, required columns are written (in the database without nulls), column types are those declared, each foreign key without nulls has a target with equal values, and no unique key without nulls is held; a wrong shape is DESTINATION_INVALID, the rest DESTINATION_CONFLICT |
| Judgements.StagedExactly | src/juntai_synthetic_data/persistence/in_memory.py:161-204 | a batch is staged whole, its rows at the ends of the tenant's tables, or stops at its first insertion that the rows before it do not take, with that one's error |
| Judgements.StagedShapes | src/juntai_synthetic_data/persistence/in_memory.py:115-127 | every row of a staged batch has only declared columns, each with its declared type |
| Judgements.ErasedExactly | src/juntai_synthetic_data/persistence/in_memory.py:285-305 | under either rules, an entry whose key exactly one row of the tenant's table carries is erased, that row alone, unless what protects it stands in the way: in memory any row that refers to it, in the database a null in the key or a reference that would dangle |
| Judgements.NotErased | src/juntai_synthetic_data/persistence/in_memory.py:286-296 | an entry whose key no row or several rows carry is not erased |
| Judgements.FoundExactly | src/juntai_synthetic_data/persistence/in_memory.py:82-85 | a key is found exactly when it is bound to a generation id, not the empty one, that is there |
| Judgements.KnownKeyExactly | src/juntai_synthetic_data/persistence/in_memory.py:152-160 | a found key is replayed for the recorded request digest and reused for another; the record is the key's own in memory, the generation's in the database |
| Judgements.TakenMetadataConflicts | src/juntai_synthetic_data/persistence/sql_repository.py:183-289 | in the database a batch that stages is refused with DESTINATION_CONFLICT, whole, exactly when its generation id is taken or its key is bound, even to nothing that can be found |
| Values.CanonIsSame | src/juntai_synthetic_data/persistence/in_memory.py:96-103 | two scalars are equal exactly as Python's `==` has it: nulls, equal texts, or equal numbers, with True as 1 |
| Writes.KeyIsKey | src/juntai_synthetic_data/persistence/in_memory.py:189-192 | the ledger key, built from generated fields, is the database row cut down to the key columns |
| Writes.InsertionRanksFall | src/juntai_synthetic_data/persistence/in_memory.py:164-204 | insertions follow the plan: delete ranks never rise along them |
| InMemory.InMemoryGenerationRepository.Commit | src/juntai_synthetic_data/persistence/in_memory.py:145-253 | the whole new state and the reply of a commit, replay, conflict or refusal are those of the commit function; the state stays that of a run |
| InMemory.InMemoryGenerationRepository.Delete | src/juntai_synthetic_data/persistence/in_memory.py:273-311 | the same for a delete: missing, already deleted, conflict, deleted |
| InMemory.InMemoryGenerationRepository.EnforceDatabaseWrite | src/juntai_synthetic_data/persistence/in_memory.py:105-143 | together with the unique-key test, refuses exactly the rows that the refusal function refuses, with its error |
| InMemory.InMemoryGenerationRepository.Conflicting | src/juntai_synthetic_data/persistence/in_memory.py:92-103 | true if and only if some declared unique key of the row, without a null in it, is taken |
| InMemory.InMemoryGenerationRepository.Referenced | src/juntai_synthetic_data/persistence/in_memory.py:255-271 | true if and only if some row of some catalogued table refers to the row, null equal to null |
| InMemory.InMemoryGenerationRepository.Find | src/juntai_synthetic_data/persistence/in_memory.py:82-85 | the generation bound to the idempotency key, if any |
| InMemory.InMemoryGenerationRepository.SeedRows | src/juntai_synthetic_data/persistence/in_memory.py:68-76 | seeding replaces one table and starts a new run |
| InMemory.InMemoryGenerationRepository.UnwindLedger | src/juntai_synthetic_data/persistence/in_memory.py:285-305 | the delete loop erases exactly one match per ledger entry, or stops at the first entry that has none, several, or a live reference |
| Integrity.RunsKeepConsistent | src/juntai_synthetic_data/persistence/in_memory.py:91-305 | from consistent seed rows, no run of commits and deletes by any tenants reaches a state that breaks a declared unique key, in the database across all tenants, or leaves a non-null foreign key without a target |
| Integrity.EraseKeepsConsistent | src/juntai_synthetic_data/persistence/in_memory.py:286-305 | under either rules, a single erase by any tenant keeps every declared key and every reference of every tenant: in the database it is enough to look for orphans of the deleted row |
| Isolation.TenantsDoNotInterfere | src/juntai_synthetic_data/persistence/in_memory.py:145-311 | after any run of the in-memory store, everything a tenant can see, its replies included, is as if only its own operations had happened |
| TenantKeys.RefusalAmongOthers | src/juntai_synthetic_data/persistence/sql_repository.py:207-284 | in the database other tenants' rows change the judgement of a new row in exactly two ways: one of them holds a key of it, or is all that meets a foreign key of it |
| TenantKeys.CopyRefused | src/juntai_synthetic_data/persistence/sql_repository.py:207-284 | what one tenant has written, a row with a declared key without nulls included, another tenant is refused with DESTINATION_CONFLICT; in memory the first write makes no difference to the second |
| TenantKeys.KeyedTenantsDoNotInterfere | src/juntai_synthetic_data/persistence/sql_repository.py:169-393 | when every unique key and every foreign key takes the tenant column along, and every row carries its tenant, everything a tenant can see over any run of the database, its replies included, is as if only its own operations had happened |
| Conservation.RunsConserve | src/juntai_synthetic_data/persistence/in_memory.py:161-311 | after any run with fresh ids, every tenant table is its seed rows followed by the rows of the generations still COMMITTED, in commit order |
| Conservation.DeleteTakesItsOwnRows | src/juntai_synthetic_data/persistence/in_memory.py:286-305 | in any such run a successful delete has removed its own generation's block of rows from each table and nothing else, although written keys need not be unique |
| Undo.DeleteUndoesCommit | src/juntai_synthetic_data/persistence/in_memory.py:145-311 | under either rules, a fresh commit deleted at once succeeds if and only if the undo is clear at every inserted row (no earlier row with its key, nothing that protects it), and then every table of every tenant is as before; otherwise nothing changes |
| Undo.UndoAlwaysClear | src/juntai_synthetic_data/persistence/in_memory.py:145-311 | that condition always holds when references held before, written keys cover a filled unique key and, in memory, foreign keys target declared keys and referenced columns are filled |
| Undo.UndoClearExactly | src/juntai_synthetic_data/persistence/in_memory.py:255-311 | over references that held before and keys that identify: the database can always undo a commit, the in-memory store if and only if no new row is referred to by nulls |
| NullReferences.NullTargetBlocksUndo | src/juntai_synthetic_data/persistence/in_memory.py:267-269 | a contract, dataset and seed row that meet every declared key and reference: the write commits, and its delete is refused in memory and carried out in the database |
| Lifo.LastInFirstOut | src/juntai_synthetic_data/persistence/in_memory.py:145-311 | any number of commits by any tenants, each of removable rows: deleting their generations in reverse succeeds every time and restores every table |
| LaterDeletes.LaterDeleteExactly | src/juntai_synthetic_data/persistence/in_memory.py:273-311 | in any run from consistent seed rows under either rules, with any commits and deletes in between: the delete of a committed generation of removable rows succeeds if and only if no row outside the generation refers to one of its rows; in memory this counts the tenant's own rows and nulls, in the database the rows of all tenants and real references |
| ChangedRows.ChangedRowErased | src/juntai_synthetic_data/persistence/in_memory.py:286-305 | when the row that the key test finds has been replaced, the erase succeeds if and only if the new row still carries the written key and nothing protects it; it then leaves what it would have left |
| ChangedRows.ChangedKeyConflicts | src/juntai_synthetic_data/persistence/in_memory.py:286-305 | so, if nothing protects the changed row, the delete conflicts if and only if some written key column changed its value |
| Objects.ObjectConserves | src/juntai_synthetic_data/persistence/in_memory.py:57-311 | in every valid repository object, whose seedings and calls used fresh ids, each table is the seed rows followed by the rows of the generations still COMMITTED |
| Objects.ObjectConsistent | src/juntai_synthetic_data/persistence/in_memory.py:57-311 | every valid repository object seeded consistently keeps all declared keys and references |
| Objects.ObjectIsolates | src/juntai_synthetic_data/persistence/in_memory.py:57-311 | every valid repository object shows a tenant what that tenant's calls alone would have left |
| Interleaving.ExactlyOneWriter | src/juntai_synthetic_data/service.py:61-89 | in every interleaving a key is bound exactly when one call had a non-replayed success for it, only one ever has, and every success for the key carries its generation id and digest |
| Interleaving.KeysNeverRebind | src/juntai_synthetic_data/persistence/in_memory.py:152-160 | a bound key keeps its generation id and digest forever, deletes included |
| Interleaving.BoundKeyAnswers | src/juntai_synthetic_data/service.py:61-70 | asking for a bound key with its digest returns that generation, possibly DELETED; with any other digest is refused; neither writes |
| Interleaving.RefusalsHaveReasons | src/juntai_synthetic_data/service.py:61-89 | every refused call goes back to one event: a lookup that found the key with another digest, a generation that failed with that error, or a commit that the store refused with it; the store did not change there |
| Interleaving.StepKeeps | src/juntai_synthetic_data/service.py:61-89 | every find, commit, failure and delete step keeps the protocol's invariant |
| Service.SyntheticDataService.CreateGeneration | src/juntai_synthetic_data/service.py:53-89 | the effect of a whole call: only its commit changes the store, every earlier answer leaves it as it was |
| Answers.KnownKeyIsAnswered | src/juntai_synthetic_data/service.py:61-70 | a key that is taken is answered from the store, a replay for the same request digest and IDEMPOTENCY_KEY_REUSED for another, and nothing changes |
| Answers.FailedGenerationIsRefused | src/juntai_synthetic_data/service.py:74 | a dataset that breaks the contract is CONTRACT_INVALID, one over the byte bound OUTPUT_LIMIT_EXCEEDED, and nothing changes |
| Answers.OverdueIsRefused | src/juntai_synthetic_data/service.py:73-80 | a generation that took longer than the request allows is refused, as DEPENDENCY_UNAVAILABLE if it was usable, and nothing changes |
| Answers.TimelyIsCommitted | src/juntai_synthetic_data/service.py:74-91 | a usable request in time is answered by the commit of exactly the records of the relation pass: taken, they are appended to their tables and the result says so; refused, nothing changes |
| Committed.CommitWritesDataset | src/juntai_synthetic_data/persistence/in_memory.py:161-253 | a commit that writes leaves exactly the dataset: each record type's rows, field by column and in order, at the end of its own table, and nothing anywhere else; the columns have the fields' types; the result carries the ids, digests, seed, provider, counts and destinations of the request |
| Committed.LedgerNames | src/juntai_synthetic_data/persistence/in_memory.py:189-203 | the written ledger has an entry for each inserted row: its table, its place, the key fields' values by column, and as delete rank the place of its record type in the delete order |
| Service.SyntheticDataService.GenerateDataset | src/juntai_synthetic_data/providers/deterministic.py:111-142 | generation succeeds exactly when the relation pass's result is accepted and fits the byte bound, and returns that result |
| Service.SyntheticDataService.DeleteGeneration | src/juntai_synthetic_data/service.py:97-101 | the effect of a delete call |
| RulesCompared.SqlEraseExactly | src/juntai_synthetic_data/persistence/sql_repository.py:336-353 | over rows that keep the declared keys, one DELETE statement succeeds if and only if its key has no null and finds exactly one row, and no other row of any tenant refers to it without nulls |
| RulesCompared.ErasesCompared | src/juntai_synthetic_data/persistence/sql_repository.py:336-353 | entry by entry, in both directions: what memory erases the database erases, unless the key has a null or another tenant's row would be orphaned; what the database erases memory erases, unless anything of the tenant's own refers to the row, null or itself included |
| RulesCompared.DeletesCompared | src/juntai_synthetic_data/persistence/sql_repository.py:308-369 | whole deletes, in both directions: deleted in memory means deleted alike in the database unless some entry is barred there, deleted in the database means deleted alike in memory unless some entry is stopped there, and otherwise the replies agree |
| RulesCompared.RefusalsCompared | src/juntai_synthetic_data/persistence/sql_repository.py:215-284 | row by row, in both directions: what memory takes the database takes, unless a required column is null or another tenant holds a key; what the database takes memory takes, unless a foreign key is met only by the row itself or by another tenant's row; where both refuse, the errors agree or a required column is null |
| RulesCompared.CommitsCompared | src/juntai_synthetic_data/persistence/sql_repository.py:169-306 | whole commits, in both directions: committed in memory means committed alike in the database unless the key is new and a row is barred as above or the generation id is taken, with the error; committed in the database means committed alike in memory unless the key is new and a row leans as above; otherwise neither changes anything |
| SelfRelations.GeneratedInPlace | src/juntai_synthetic_data/providers/deterministic.py:129-141 | in a generated dataset of a layered contract every row of a relation of a record type to itself refers to itself |
| SelfRelations.SelfRelationPartsTheStores | src/juntai_synthetic_data/persistence/in_memory.py:120-143 | where such a relation is mapped to a foreign key, a dataset that refers to itself row by row and that the database takes is refused in memory, unless the source is null or the target value is in the table already |
| SqlRepository.DeleteTwice | src/juntai_synthetic_data/persistence/sql_repository.py:325-328 | repeating a delete that went through answers the same and changes nothing |
| SqlRepository.SqlGenerationRepository.Commit | src/juntai_synthetic_data/persistence/sql_repository.py:169-306 | under the database rules, for every schedule of transient errors before or after the database commit: rows, ledger and generation are written at most once; success means exactly one commit, and it is called a replay exactly when the key was bound before or an earlier attempt lost only its acknowledgement; on exhaustion the database is untouched exactly if no attempt lost only its acknowledgement; no attempt follows one that went well; attempts are bounded and the total sleep is the sum of the waits |
| SqlRepository.SqlGenerationRepository.Delete | src/juntai_synthetic_data/persistence/sql_repository.py:308-393 | the same for delete: rows are removed at most once, an answer is that of exactly one transaction, exhaustion comes exactly when every attempt is struck and says which of two states the database is in |
| SqlRepository.SqlGenerationRepository.Backoff | src/juntai_synthetic_data/persistence/sql_repository.py:85-86 | each wait is the random share of the smaller of the cap and base times 2^attempt, and is added to the sleep so far |
| SqlRepository.SqlGenerationRepository.WaitsWithin | src/juntai_synthetic_data/persistence/sql_repository.py:74-87 | after k failures the total sleep is at most k times the cap and at most base times (2^k - 1) |
| SqlRepository.SqlGenerationRepository.EraseRow | src/juntai_synthetic_data/persistence/sql_repository.py:336-353 | one DELETE statement with its row count, and with the foreign keys of all tenants' rows, equals the erase function |
| SqlRepository.CommitTwice | src/juntai_synthetic_data/persistence/sql_repository.py:187-194 | repeating a transaction that went through finds its own commit, answers it as a replay and writes nothing; one that is refused leaves no trace |
| SqlProtocol.ExactlyOnce | src/juntai_synthetic_data/persistence/sql_repository.py:74-306 | under any interleaving of retried sessions, faults and deletes: a session writes at most once, all of its generation, ledger and key or none of them; at most one session ever writes for a key; a success names the key's one generation; a key is reported as reused only if it belongs to another request |
| SqlProtocol.GivesUpExactly | src/juntai_synthetic_data/persistence/sql_repository.py:74-87 | a session reports DEPENDENCY_UNAVAILABLE exactly when as many of its attempts have failed as it was given |
| SqlProtocol.WritersAreTold | src/juntai_synthetic_data/persistence/sql_repository.py:169-306 | a session that wrote has been answered with its own commit, not as a replay, or some write of it lost its acknowledgement |
| SqlProtocol.RefusalsHaveReasons | src/juntai_synthetic_data/persistence/sql_repository.py:74-306 | every refusal goes back to an event with that reason: a lookup that found the key with another digest, a failed attempt, or rows that were not taken, with their error |
| SqlProtocol.NoLockOutlives | src/juntai_synthetic_data/persistence/sql_repository.py:175-306 | locks are given back with their transactions: a session outside one can always take its lock, unless another session is inside one for the same lock key |
| SqlProtocol.TablesAreWriters | src/juntai_synthetic_data/persistence/sql_repository.py:74-393 | and the application rows: at any moment each tenant's part of every table, and so the whole table, is its seed rows followed by the rows of exactly those sessions that wrote and are not deleted, in the order of their database commits |
| SqlProtocol.NeverRefusedByMetadata | src/juntai_synthetic_data/persistence/sql_repository.py:183-187 | the advisory lock and fresh ids suffice: the metadata's unique constraints never refuse a write, lock-key collisions allowed |
| SqlProtocol.StepKeeps | src/juntai_synthetic_data/persistence/sql_repository.py:175-306 | every open, lock, find, write, fault and delete step keeps the protocol's invariant |
| SqlProtocol.ExhaustedYetCommitted | src/juntai_synthetic_data/persistence/sql_repository.py:79-84 | for every catalog, seed rows and batch that the database takes: a schedule in which a call reports DEPENDENCY_UNAVAILABLE although its generation is committed with all its rows |
| Migration.MigrationTarget.ApplyMigrations | src/juntai_synthetic_data/migration.py:494-593 | apply computes the apply function with every error rolled back; check computes the check function and changes nothing |
| Migration.OnlyCarriedLedgers | src/juntai_synthetic_data/migration.py:518-525 | apply or check answers only a database whose every recorded migration the image carries with the same checksum |
| Migration.DriftIsRefused | src/juntai_synthetic_data/migration.py:518-525 | an entry that is unknown or has another checksum stops apply and check with a safety error and changes nothing |
| Migration.DriftedChecksum | src/juntai_synthetic_data/migration.py:523-525 | for the image's own ids this is a drifted checksum, whatever else the database holds |
| Migration.CheckExactly | src/juntai_synthetic_data/migration.py:518-547 | check answers if and only if the ledger is the image's own, the tables are those it promises and, when nothing is pending, the generation schema is complete; it reports what is recorded and what is not, in order |
| Migration.ApplyGuards | src/juntai_synthetic_data/migration.py:518-566 | apply refuses, before any script, ledgers that are not its own or not honoured, partial tables, untracked generation tables, and an untracked whole schema that may not be adopted |
| Migration.MigrationTarget.RunPending | src/juntai_synthetic_data/migration.py:557-575 | the loop over the pending migrations, adoption included, plays them in order or stops at the first that fails |
| Migration.ForwardOnly | src/juntai_synthetic_data/migration.py:557-593 | a successful apply, with any list in id order, extends the ledger by exactly the pending migrations; adopted followed by applied is the pending list; only the first can be adopted, onto an empty ledger, if authorised |
| Migration.SecondRunIsCurrent | src/juntai_synthetic_data/migration.py:576-593 | with any list in id order, applying again after a success changes nothing and reports current, with the ledger as it is read back |
| Migration.CurrentCheckMeansCurrentApply | src/juntai_synthetic_data/migration.py:537-547 | when check says current, apply agrees without changes if and only if no worker table is left behind a recorded synchronous migration |
| Migration.CheckPredictsApply | src/juntai_synthetic_data/migration.py:536-547 | where apply succeeds, check succeeds if and only if something is pending or the generation schema is complete, and it then lists what apply adopts and then applies; where check fails, apply reports current |
| Migration.CheckInSupportedStates | src/juntai_synthetic_data/migration.py:536-547 | an image with the first n shipped migrations on the state after k of them: apply succeeds, and check does if and only if k < n or n = 3, and then predicts apply |
| Migration.AppliesExactly | src/juntai_synthetic_data/migration.py:513-593 | over any database whose ledger records the first k shipped migrations, whatever its table groups and whatever worker constraints its jobs table carries: apply succeeds if and only if the schema is playable from there, and then ends with the full ledger and the final schema; it fails with a database error where a script runs into the schema, with a safety error elsewhere |
| Migration.UntrackedExactly | src/juntai_synthetic_data/migration.py:513-575 | an untracked database is upgraded if and only if there are no generation and worker tables and the legacy tables are absent, or complete in a created schema without left-over worker constraints on jobs; otherwise it is left alone |
| Migration.ImageAdvances | src/juntai_synthetic_data/migration.py:526-593 | an image with the first n shipped migrations takes an empty, an untracked 1.0.0 or any earlier tracked database to stage n: full ledger, and for n = 3 no legacy or worker tables and the generation schema complete |
| Migration.OlderImageRefuses | src/juntai_synthetic_data/migration.py:518-522 | an image older than the database refuses and changes nothing |
| Migration.ImagesConverge | src/juntai_synthetic_data/migration.py:513-593 | any order of lock-serialised runs by any mixture of images ends at the stage of the newest image |
| Migration.LedgerOnlyGrows | src/juntai_synthetic_data/migration.py:518-575 | over any such order the ledger is a prefix of the shipped entries, only grows and never changes a checksum |
| Migration.ExactlyOneApplies | src/juntai_synthetic_data/migration.py:587-593 | of any number of identical runs from an empty or untracked database, whichever prefix of the list the image carries, exactly the first applies; check before each agrees, or is refused as CheckInSupportedStates says |
| Dataset.ValidateGeneratedDataset | src/juntai_synthetic_data/dataset.py:63-136 | accepts if and only if record types, counts, field sets, value types, uniqueness of non-null unique fields, all relations and the byte bound hold declaratively; the record count is the sum of declared counts and within max_records; which error otherwise |
| Dataset.AcceptsExactly | src/juntai_synthetic_data/dataset.py:63-120 | accepted means: exactly the declared record types with their counts, rows with exactly the declared fields, values of the declared types, no repeats but nulls in unique fields, and for every source row of a relation a target row with an equal value, unless the relation is optional and the value null |
| Dataset.ValidExactly | src/juntai_synthetic_data/dataset.py:29-60 | which types take which value: True is no integer, an integer is a number, dates and datetimes are texts in their form |
| Dataset.CheckRows | src/juntai_synthetic_data/dataset.py:82-106 | the row loop with its sets of seen values accepts exactly well-typed rows without equal non-null values in unique fields |
| Dataset.CheckRelation | src/juntai_synthetic_data/dataset.py:107-120 | accepts exactly when every source value has an equal target value, an optional null excepted |
| Acceptance.PassEstablishesRelations | src/juntai_synthetic_data/providers/deterministic.py:129-141 | the in-place pass makes all relations of a contract hold for whatever values of the fields' types are drawn, if and only if a condition on relation order and row counts holds that is read off the contract; and then it does so for any values |
| Provider.LayeredIsSound | src/juntai_synthetic_data/providers/deterministic.py:129-141 | the condition holds when every field is filled by at most one relation, and not after another has copied it |
| Provider.OverwrittenSourceIsUnsound | src/juntai_synthetic_data/providers/deterministic.py:138-141 | it fails in any contract, for any row counts, in which two relations fill one field from two different fields that nothing fills |
| Provider.Generate | src/juntai_synthetic_data/providers/deterministic.py:111-142 | the nested loops compute the pass, and the required-relation error is unreachable because every record type has rows |
| Provider.RelateInPlace | src/juntai_synthetic_data/providers/deterministic.py:129-141 | one relation's loop fills row i with target i mod n; without targets a required relation fails and an optional one fills its rows with null |
| Provider.FillingIsBalanced | src/juntai_synthetic_data/providers/deterministic.py:138-141 | after a relation has filled a column of m rows from n distinct targets, each target stands in it m / n times, the first m mod n once more |
| Defaults.DefaultsDiffer | src/juntai_synthetic_data/providers/deterministic.py:72-90 | default strings, integers, numbers, dates and datetimes of two rows always differ, down to their rendering |
| Defaults.DatesStayInRange | src/juntai_synthetic_data/providers/deterministic.py:84-90 | for every digest and every legal row count, dates and datetimes stay between 2000 and 9999 |
| Defaults.DateAtCounts | src/juntai_synthetic_data/providers/deterministic.py:84-90 | the date n days after 2000-01-01 is n days after it by the rules of the Gregorian calendar, leap years included |
| Defaults.DefaultsCountUp | src/juntai_synthetic_data/providers/deterministic.py:72-87 | default values of row i read back: texts end in i, numbers and dates are i after the seed's own, truth values alternate |
| Defaults.DefaultTimeCounts | src/juntai_synthetic_data/providers/deterministic.py:88-91 | a default datetime reads back as the day and the second i seconds after the seed's own |
| Defaults.SequencesCount | src/juntai_synthetic_data/providers/deterministic.py:94 | a sequence begins at its start, 0 if it has none, and goes up by its step, 1 if it has none or 0 |
| Defaults.IsoDateReadsBack | src/juntai_synthetic_data/providers/deterministic.py:86 | a rendered date has ten characters and is read back from them |
| Defaults.ReadsBack | src/juntai_synthetic_data/providers/deterministic.py:76 | a zero-padded decimal of any width is read back |
| Defaults.UniqueByRecipe | src/juntai_synthetic_data/providers/deterministic.py:72-94 | a required unique field filled by default or by a sequence passes the uniqueness check if and only if it is not a defaulted boolean over three or more rows |
| Defaults.PassKeepsRecordsOk | src/juntai_synthetic_data/providers/deterministic.py:129-141 | the relation pass keeps types, nullability and uniqueness of all rows, relation by relation, when no optional target feeds a required source and no unique source outnumbers its target |
| Defaults.GeneratedIsAccepted | src/juntai_synthetic_data/providers/deterministic.py:111-142 | a contract of default and sequence fields with fitting, sound relations is generated into a dataset that the check accepts, whatever the seed |
| Acceptance.AcceptedExactly | src/juntai_synthetic_data/providers/deterministic.py:111-142 | a contract of default and sequence fields with sound relations is generated into accepted datasets, whichever allowed values are null, if and only if every field fits the column its values finally come from: nullable if that is, and if unique, with no more rows than values that arrive and no third defaulted boolean |
| Defaults.OutnumberedSourceRepeats | src/juntai_synthetic_data/providers/deterministic.py:138-141 | a unique source with more rows than its target repeats a value, so that bound is needed |
| EndToEnd.ReferencesAlwaysMet | src/juntai_synthetic_data/persistence/in_memory.py:128-204 | for any accepted dataset and under either rules, when the written tables' foreign keys are declared as relations, the foreign-key check inside the commit never fires; relations of a type to itself qualify in the database, when rows refer to themselves, as generated ones do |
| EndToEnd.AcceptedDatasetCommits | src/juntai_synthetic_data/persistence/in_memory.py:91-204 | an accepted dataset always commits when the tables have its columns and types, foreign keys are declared as relations, unique keys draw on unique fields and no existing row has a new row's key; in the database, when moreover required columns are filled from fields that are never null, and no row of any tenant has a new row's key |
| EndToEnd.AcceptedGoesInAndOut | src/juntai_synthetic_data/persistence/in_memory.py:145-311 | under the same conditions and those of the undo, an accepted dataset goes into a catalog that suits it and comes out again without a trace: both commit and delete succeed and every table is restored |
| EndToEnd.CreateThenDeleteRestores | src/juntai_synthetic_data/persistence/in_memory.py:145-311 | under either rules, any accepted dataset that a fresh commit takes can be deleted again at once with every table restored, under conditions on catalog and contract only; the database needs none on nulls or on what foreign keys target |
| EndToEnd.CreateThenDeleteRestoresInAnyRun | src/juntai_synthetic_data/persistence/in_memory.py:145-311 | the same in every state that any run reaches from consistent seed rows |
| Example.GoesInAndOut | src/juntai_synthetic_data/persistence/in_memory.py:145-311 | one contract, catalog and dataset meet all hypotheses at once, under either rules |

## Left out

- HTTP routes, authentication, policy, provider selection, runtime wiring and `get_generation`: plumbing around the modelled calls.
- SHA-256, canonical JSON, UUIDs and clocks: digests, sizes, ids and times are inputs.
- Choice, uniform, normal and uuid distributions, and which rows of a nullable field become null: values are an arbitrary function of field and row index.
- Floating-point rounding, NaN and infinities: numbers are `real`.
- ISO parsing: a parameter, assumed only to take what `isoformat` writes.
- Identifier patterns, length limits, metadata bounds, idempotency-key syntax and tenant syntax: single-branch checks.
- SQL text, identifier quoting, grants and row-level security; DESTINATION_FORBIDDEN is not modelled.
- Database errors beyond unique, foreign-key, not-null and type violations in the SQL repository.
- Types are compared as declared: an INSERT would also take an integer field into a number column.
- Destination tables without a row policy: there a DELETE would also search other tenants' rows.
- Deferrable foreign keys, MATCH FULL and ON DELETE actions: a database foreign key is checked at the end of each statement, and a null in it refers to nothing.
- Nested dictionaries and object identity of rows: rows are values, so `copy.deepcopy` needs no counterpart.
- Locking inside the in-memory repository: each call is one step.
- Contracts.CountVisited: `pending` is filled by a comprehension over the same edges instead of two nested loops.
- SqlProtocol.ExactlyOnce: the INSERT statements and the database commit of one attempt are one step, as the advisory lock and the transaction make them for callers of the same key.
- SqlRepository.SqlGenerationRepository.Commit: attempts share one timestamp, and other sessions do not run between attempts; interference is the subject of SqlProtocol.
- Generation ids: their freshness is a hypothesis of Conservation, LaterDeletes, Lifo, Interleaving and SqlProtocol, not a theorem.
- Conservation.RunsConserve: covers runs that start from a store without generations; seeding again in the middle of a run starts a new one.
- Migration: each script is a transition on three table groups; reading the manifest and DSN file, the server version check and the classifiers' catalog queries are not modelled.
- Migration.MigrationTarget.ApplyMigrations: takes lists with strictly increasing ids, the only ones that `load_migrations` returns; other lists could only come in through the `migrations` argument.
- Lifo.LastInFirstOut: each commit must write, under a new id, and nothing may be committed in between that stays.
- InMemory.InMemoryGenerationRepository.Commit: takes a dataset with the record types, counts and fields of its contract, which the dataset check establishes for every caller in the service.
