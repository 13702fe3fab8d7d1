// persistence/in_memory.py: the transactional repository as the code writes it.
module InMemory {
  import opened Values
  import opened Contracts
  import opened Planning
  import opened Store
  import opened Writes
  import opened Conservation

  /** One more insertion of a fixed sequence: refused for good, or put. */
  lemma StageTake(cat: Catalog, rows: Rows, t: Tenant, all: seq<Insertion>, k: nat)
    requires k < |all| && StageAll(cat, rows, t, all[..k]).Ok?
    ensures var staged := StageAll(cat, rows, t, all[..k]).value;
      match Refusal(cat, staged, t, all[k])
      case Some(e) => StageAll(cat, rows, t, all) == Err(e)
      case None => StageAll(cat, rows, t, all[..k + 1]) == Ok(Put(staged, t, all[k]))
  {
    assert all[..k + 1][..k] == all[..k];
    StagePrefix(cat, rows, t, all, k + 1);
  }

  class InMemoryGenerationRepository {
    const tables: map<TableId, TableDef>
    const catalog := Catalog(tables, InStore)
    var rows: Rows
    var generations: map<(Tenant, string), Generation>
    var idempotency: map<(Tenant, string), string>
    var requestDigests: map<(Tenant, string), string>
    var written: map<(Tenant, string), seq<WrittenRow>>

    /** The state at the last seeding, and everything asked since: every lemma about Run applies. */
    ghost var origin: Db
    ghost var log: seq<Op>

    ghost function View(): Db
      reads this
    {
      Db(rows, generations, idempotency, requestDigests, written)
    }

    ghost predicate Valid()
      reads this
    {
      Tracked(View()) && Tracked(origin) && View() == Run(catalog, origin, log) && Planned(log)
    }

    constructor (tables: map<TableId, TableDef>)
      ensures Valid() && this.tables == tables && log == []
      ensures View() == Db(map[], map[], map[], map[], map[])
    {
      this.tables := tables;
      rows := map[];
      generations, idempotency, requestDigests, written := map[], map[], map[], map[];
      origin, log := Db(map[], map[], map[], map[], map[]), [];
    }

    method SeedRows(tenant: Tenant, id: TableId, seeded: seq<Row>)
      requires Valid()
      modifies this
      ensures Valid() && log == [] && View() == old(View()).(rows := old(rows)[(tenant, id) := seeded])
    {
      rows := rows[(tenant, id) := seeded];
      origin, log := View(), [];
    }

    method TableRows(tenant: Tenant, id: TableId) returns (r: seq<Row>)
      ensures r == At(rows, tenant, id)
    {
      r := if (tenant, id) in rows then rows[(tenant, id)] else [];
    }

    method Find(tenant: Tenant, key: string) returns (r: Option<Generation>)
      ensures r == FindIdempotent(View(), tenant, key)
    {
      var generationId := if (tenant, key) in idempotency then idempotency[(tenant, key)] else "";
      if generationId == "" {
        return None;
      }
      r := Lookup(tenant, generationId);
    }

    method Lookup(tenant: Tenant, generationId: string) returns (r: Option<Generation>)
      ensures r == if (tenant, generationId) in generations then Some(generations[(tenant, generationId)]) else None
    {
      r := if (tenant, generationId) in generations then Some(generations[(tenant, generationId)]) else None;
    }

    static method Conflicting(table: TableDef, existing: seq<Row>, row: Row) returns (b: bool)
      ensures b <==> Conflicts(table, existing, row)
    {
      for i := 0 to |table.uniqueKeys|
        invariant forall k | 0 <= k < i :: !Taken(existing, row, table.uniqueKeys[k])
      {
        var key := table.uniqueKeys[i];
        var candidate := Tuple(row, key);
        if CNull in candidate {
          continue;
        }
        if exists item | item in existing :: Tuple(item, key) == candidate {
          assert Taken(existing, row, key);
          return true;
        }
      }
      return false;
    }

    method EnforceDatabaseWrite(
      tenant: Tenant, table: TableDef, row: Row, fieldTypes: map<string, FieldType>, staged: Rows)
        returns (error: Option<Error>)
      ensures error ==
        if !(table.required <= row.Keys) || !TypesMatch(table, fieldTypes) then Some(DestinationInvalid)
        else if !ForeignKeysMet(catalog, table, staged, tenant, row) then Some(DestinationConflict)
        else None
    {
      if !(table.required <= row.Keys) {
        return Some(DestinationInvalid);
      }
      var left := fieldTypes.Keys;
      while left != {}
        invariant left <= fieldTypes.Keys
        invariant forall c | c in fieldTypes && c !in left :: c in table.columns && table.columns[c] == fieldTypes[c]
        decreases left
      {
        var column :| column in left;
        if column !in table.columns || table.columns[column] != fieldTypes[column] {
          return Some(DestinationInvalid);
        }
        left := left - {column};
      }
      for i := 0 to |table.foreignKeys|
        invariant forall k | 0 <= k < i :: Satisfied(catalog, staged, tenant, row, table.foreignKeys[k])
      {
        var fk := table.foreignKeys[i];
        var candidate := Tuple(row, fk.columns);
        if CNull in candidate {
          continue;
        }
        var targets := At(staged, tenant, fk.target);
        if !exists target | target in targets :: Tuple(target, fk.targetColumns) == candidate {
          assert !Meets(staged, tenant, row, fk) && !Satisfied(catalog, staged, tenant, row, fk);
          return Some(DestinationConflict);
        }
        assert Meets(staged, tenant, row, fk) && Satisfied(catalog, staged, tenant, row, fk);
      }
      return None;
    }

    /** One row: checked against what is staged so far, then appended. */
    method StageRecord(
      tenant: Tenant, identity: TableId, table: TableDef, databaseRow: Row, types: map<string, FieldType>,
      staged0: Rows, ghost x: Insertion)
        returns (error: Option<Error>, staged: Rows)
      requires identity in catalog.tables && table == catalog.tables[identity]
      requires x.table == identity && x.row == databaseRow && x.types == types
      ensures error == Refusal(catalog, staged0, tenant, x)
      ensures error == None ==> staged == Put(staged0, tenant, x)
    {
      staged := staged0;
      error := EnforceDatabaseWrite(tenant, table, databaseRow, types, staged);
      if error.Some? {
        return;
      }
      var conflict := Conflicting(table, At(staged, tenant, identity), databaseRow);
      assert conflict <==> Clashes(catalog, table, staged, tenant, identity, databaseRow) by {
        assert forall u :: Shares(catalog, tenant, u) <==> u == tenant;
      }
      if conflict {
        error := Some(DestinationConflict);
        return;
      }
      staged := staged[(tenant, identity) := At(staged, tenant, identity) + [databaseRow]];
    }

    /** How far a commit has come: `k` insertions are staged and entered in the ledger. */
    ghost predicate Staged(
      tenant: Tenant, all: seq<Insertion>, k: nat, staged: Rows, ledger: seq<WrittenRow>)
      reads this
    {
      k <= |all| && StageAll(catalog, rows, tenant, all[..k]) == Ok(staged) && ledger == LedgerOf(all)[..k]
    }

    lemma StagedStep(tenant: Tenant, all: seq<Insertion>, k: nat, staged: Rows, ledger: seq<WrittenRow>)
      requires k < |all| && Staged(tenant, all, k, staged, ledger)
      ensures Refusal(catalog, staged, tenant, all[k]).Some? ==>
        StageAll(catalog, rows, tenant, all) == Err(Refusal(catalog, staged, tenant, all[k]).value)
      ensures Refusal(catalog, staged, tenant, all[k]).None? ==>
        Staged(tenant, all, k + 1, Put(staged, tenant, all[k]), ledger + [Entry(all, k)])
    {
      StageTake(catalog, rows, tenant, all, k);
      assert LedgerOf(all)[..k + 1] == LedgerOf(all)[..k] + [LedgerOf(all)[k]];
    }

    /** One generated row: staged, and entered in the written-key ledger. */
    method StageAndLog(
      tenant: Tenant, spec: RecordSpec, rank: nat, generated: Row, table: TableDef,
      staged0: Rows, ledger0: seq<WrittenRow>, ordinal: nat, ghost all: seq<Insertion>)
        returns (error: Option<Error>, staged: Rows, ledger: seq<WrittenRow>)
      requires Table(spec.destination) in catalog.tables && table == catalog.tables[Table(spec.destination)]
      requires ordinal < |all| && Staged(tenant, all, ordinal, staged0, ledger0)
      requires RowFits(spec, generated) && all[ordinal] == InsertionOf(spec, rank, generated)
      ensures error.Some? ==> StageAll(catalog, rows, tenant, all) == Err(error.value)
      ensures error.None? ==> Staged(tenant, all, ordinal + 1, staged, ledger)
    {
      ghost var x := all[ordinal];
      InsertionParts(x, spec, rank, generated);
      StagedStep(tenant, all, ordinal, staged0, ledger0);
      var destination := spec.destination;
      var databaseRow := DatabaseRow(destination, generated);
      error, staged :=
        StageRecord(tenant, Table(destination), table, databaseRow, ColumnTypes(spec), staged0, x);
      var key := KeyRow(destination, generated);
      ledger := ledger0 + [WrittenRow(spec.recordType, Table(destination), key, ordinal, rank)];
    }

    /** The rows of one record type. */
    method StageRecords(
      tenant: Tenant, spec: RecordSpec, rank: nat, records: seq<Row>,
      staged0: Rows, ledger0: seq<WrittenRow>, ordinal0: nat, ghost gs: seq<Group>, ghost i: nat)
        returns (error: Option<Error>, staged: Rows, ledger: seq<WrittenRow>, ordinal: nat)
      requires GroupsOk(gs) && i < |gs| && gs[i] == Group(spec, rank, records) && records != []
      requires GroupsOk(gs[..i]) && ordinal0 == |Flatten(gs[..i])|
      requires Staged(tenant, Flatten(gs), ordinal0, staged0, ledger0)
      ensures error.Some? ==> StageAll(catalog, rows, tenant, Flatten(gs)) == Err(error.value)
      ensures error.None? ==>
        ordinal == ordinal0 + |records| && Staged(tenant, Flatten(gs), ordinal, staged, ledger)
    {
      staged, ledger, ordinal := staged0, ledger0, ordinal0;
      ghost var all := Flatten(gs);
      var identity := Table(spec.destination);
      if identity !in catalog.tables {
        FlattenAt(gs, i, 0);
        StagedStep(tenant, all, ordinal, staged, ledger);
        error := Some(DestinationInvalid);
        return;
      }
      var table := catalog.tables[identity];
      for j := 0 to |records|
        invariant ordinal == ordinal0 + j && Staged(tenant, all, ordinal, staged, ledger)
      {
        var generated := records[j];
        FlattenAt(gs, i, j);
        error, staged, ledger := StageAndLog(tenant, spec, rank, generated, table, staged, ledger, ordinal, all);
        if error.Some? {
          return;
        }
        ordinal := ordinal + 1;
      }
      error := None;
    }

    /** The operation that took the state from `was` to here joins the log. */
    ghost method Note(was: Db, op: Op)
      requires Tracked(was) && Tracked(origin) && was == Run(catalog, origin, log) && Planned(log)
      requires View() == Next(catalog, was, op).0 && PlannedOp(op)
      modifies `log
      ensures Valid() && log == old(log) + [op]
    {
      assert (log + [op])[..|log|] == log;
      log := log + [op];
    }

    method Commit(tenant: Tenant, key: string, write: GenerationWrite, now: int) returns (reply: Reply)
      requires Valid() && WriteOk(write)
      modifies this
      ensures Valid() && origin == old(origin)
      ensures log == old(log) + [Store.Commit(tenant, key, BatchOf(write), now)]
      ensures (View(), reply) == CommitNext(catalog, old(View()), tenant, key, BatchOf(write), now)
    {
      BatchParts(write);
      reply := CommitLogged(
        tenant, key, HeaderOf(write), write.request.contract, write.dataset.records, now, BatchOf(write));
    }

    method CommitLogged(
      tenant: Tenant, key: string, header: Header, contract: Contract, records: Records, now: int,
      ghost batch: Batch) returns (reply: Reply)
      requires Valid() && ContractOk(contract) && RecordsFit(contract, records)
      requires batch == Batch(header, AllInsertions(contract, records))
      modifies this
      ensures Valid() && origin == old(origin)
      ensures log == old(log) + [Store.Commit(tenant, key, batch, now)]
      ensures (View(), reply) == CommitNext(catalog, old(View()), tenant, key, batch, now)
    {
      ghost var was := View();
      ghost var next := CommitNext(catalog, was, tenant, key, batch, now);
      reply := CommitWrite(tenant, key, header, contract, records, now, next);
      InsertionRanksFall(contract, records);
      NoteCommit(was, tenant, key, batch, now, next);
    }

    ghost method NoteCommit(was: Db, tenant: Tenant, key: string, batch: Batch, now: int, next: (Db, Reply))
      requires Tracked(was) && Tracked(origin) && was == Run(catalog, origin, log) && Planned(log)
      requires RanksFall(batch.ins) && next == CommitNext(catalog, was, tenant, key, batch, now) && View() == next.0
      modifies `log
      ensures Valid() && log == old(log) + [Store.Commit(tenant, key, batch, now)]
    {
      Note(was, Store.Commit(tenant, key, batch, now));
    }

    method CommitWrite(
      tenant: Tenant, key: string, header: Header, contract: Contract, records: Records, now: int,
      ghost next: (Db, Reply)) returns (reply: Reply)
      requires Tracked(View()) && ContractOk(contract) && RecordsFit(contract, records)
      requires next == CommitNext(catalog, View(), tenant, key, Batch(header, AllInsertions(contract, records)), now)
      modifies `rows, `generations, `idempotency, `requestDigests, `written
      ensures (View(), reply) == next
    {
      var existing := Find(tenant, key);
      if existing.Some? {
        var prior := requestDigests[(tenant, key)];
        if prior != header.requestDigest {
          return Refused(IdempotencyKeyReused);
        }
        return Committed(existing.value, true);
      }
      reply := CommitRows(tenant, key, header, contract, records, now, next);
    }

    /** The key is new: stage every row, then record. */
    method CommitRows(
      tenant: Tenant, key: string, header: Header, contract: Contract, records: Records, now: int,
      ghost next: (Db, Reply)) returns (reply: Reply)
      requires Tracked(View()) && ContractOk(contract) && RecordsFit(contract, records)
      requires FindIdempotent(View(), tenant, key) == None
      requires next == CommitNext(catalog, View(), tenant, key, Batch(header, AllInsertions(contract, records)), now)
      modifies `rows, `generations, `idempotency, `requestDigests, `written
      ensures (View(), reply) == next
    {
      ghost var batch := Batch(header, AllInsertions(contract, records));
      var error, staged, ledger := StageWrite(tenant, contract, records);
      CommitOfNewKey(catalog, View(), tenant, key, batch, now);
      if error.Some? {
        return Refused(error.value);
      }
      reply := Record(tenant, key, header, staged, ledger, now);
    }

    method Record(
      tenant: Tenant, key: string, header: Header, staged: Rows, ledger: seq<WrittenRow>, now: int)
        returns (reply: Reply)
      modifies `rows, `generations, `idempotency, `requestDigests, `written
      ensures reply == Committed(Generation(header, COMMITTED, now, None), false)
      ensures View() == Db(
        staged,
        old(generations)[(tenant, header.generationId) := reply.result],
        old(idempotency)[(tenant, key) := header.generationId],
        old(requestDigests)[(tenant, key) := header.requestDigest],
        old(written)[(tenant, header.generationId) := ledger])
    {
      var result := Generation(header, COMMITTED, now, None);
      rows := staged;
      generations := generations[(tenant, header.generationId) := result];
      idempotency := idempotency[(tenant, key) := header.generationId];
      requestDigests := requestDigests[(tenant, key) := header.requestDigest];
      written := written[(tenant, header.generationId) := ledger];
      return Committed(result, false);
    }

    /** The plan, and the rows of every record type in its order. */
    method StageWrite(tenant: Tenant, contract: Contract, records: Records)
        returns (error: Option<Error>, staged: Rows, ledger: seq<WrittenRow>)
      requires ContractOk(contract) && RecordsFit(contract, records)
      ensures error.Some? ==> StageAll(catalog, rows, tenant, AllInsertions(contract, records)) == Err(error.value)
      ensures error.None? ==>
        && StageAll(catalog, rows, tenant, AllInsertions(contract, records)) == Ok(staged)
        && ledger == LedgerOf(AllInsertions(contract, records))
    {
      GroupsReady(contract, records);
      var plan := PlanDestinations(contract);
      error, staged, ledger := StagePlan(
        tenant, plan.value.insertOrder, RecordMap(contract.records), records, AllGroups(contract, records));
    }

    method StagePlan(
      tenant: Tenant, order: seq<string>, specs: map<string, RecordSpec>, records: Records, ghost gs: seq<Group>)
        returns (error: Option<Error>, staged: Rows, ledger: seq<WrittenRow>)
      requires Visits(order, specs, records, gs)
      ensures error.Some? ==> StageAll(catalog, rows, tenant, Flatten(gs)) == Err(error.value)
      ensures error.None? ==>
        StageAll(catalog, rows, tenant, Flatten(gs)) == Ok(staged) && ledger == LedgerOf(Flatten(gs))
    {
      staged, ledger := rows, [];
      var ordinal := 0;
      error := None;
      ghost var all := Flatten(gs);
      for i := 0 to |order|
        invariant GroupsOk(gs[..i]) && ordinal == |Flatten(gs[..i])|
        invariant Staged(tenant, all, ordinal, staged, ledger)
        invariant error == None
      {
        var recordType := order[i];
        FlattenSpan(gs, i);
        // delete_rank: the position of the type in the reversed insert order
        var rank := |order| - 1 - i;
        error, staged, ledger, ordinal := StageRecords(
          tenant, specs[recordType], rank, records[recordType], staged, ledger, ordinal, gs, i);
        if error.Some? {
          return;
        }
      }
      assert gs[..|order|] == gs;
      assert all[..|all|] == all && LedgerOf(all)[..|all|] == LedgerOf(all);
    }

    method Referenced(tenant: Tenant, id: TableId, row: Row, staged: Rows) returns (b: bool)
      ensures b <==> HasReference(catalog, staged, tenant, id, row)
    {
      var left := catalog.tables.Keys;
      while left != {}
        invariant left <= catalog.tables.Keys
        invariant forall s | s in catalog.tables && s !in left :: !ReferredBy(catalog, staged, tenant, id, row, s)
        decreases left
      {
        var source :| source in left;
        var definition := catalog.tables[source];
        for i := 0 to |definition.foreignKeys|
          invariant forall k, candidate | 0 <= k < i && definition.foreignKeys[k].target == id
                      && candidate in At(staged, tenant, source) :: !Refers(definition.foreignKeys[k], candidate, row)
        {
          var fk := definition.foreignKeys[i];
          if fk.target != id {
            continue;
          }
          var target := Tuple(row, fk.targetColumns);
          var candidates := At(staged, tenant, source);
          for j := 0 to |candidates|
            invariant forall k | 0 <= k < j :: !Refers(fk, candidates[k], row)
          {
            if Tuple(candidates[j], fk.columns) == target {
              assert Refers(fk, candidates[j], row) && fk in catalog.tables[source].foreignKeys;
              assert ReferredBy(catalog, staged, tenant, id, row, source);
              return true;
            }
          }
        }
        left := left - {source};
      }
      return false;
    }

    method Delete(tenant: Tenant, generationId: string, now: int) returns (reply: Reply)
      requires Valid()
      modifies this
      ensures Valid() && origin == old(origin) && log == old(log) + [Store.Delete(tenant, generationId, now)]
      ensures (View(), reply) == DeleteNext(catalog, old(View()), tenant, generationId, now)
    {
      ghost var was := View();
      reply := DeleteRows(tenant, generationId, now);
      Note(was, Store.Delete(tenant, generationId, now));
    }

    method DeleteRows(tenant: Tenant, generationId: string, now: int) returns (reply: Reply)
      requires Tracked(View())
      modifies `rows, `generations
      ensures (View(), reply) == DeleteNext(catalog, old(View()), tenant, generationId, now)
    {
      var id := (tenant, generationId);
      if id !in generations {
        return Missing;
      }
      var result := generations[id];
      if result.state == DELETED {
        return Deleted(result);
      }
      var undone, staged := UnwindLedger(tenant, SortLedger(written[id]));
      if !undone {
        return Refused(DeleteConflict);
      }
      var deleted := result.(state := DELETED, deletedAt := Some(now));
      rows := staged;
      generations := generations[id := deleted];
      return Deleted(deleted);
    }

    /** The loop over the sorted ledger; false stands for DELETE_CONFLICT. */
    method UnwindLedger(tenant: Tenant, ledger: seq<WrittenRow>) returns (undone: bool, staged: Rows)
      ensures Unwind(catalog, rows, tenant, ledger) == if undone then Some(staged) else None
    {
      staged := rows;
      for i := 0 to |ledger|
        invariant Unwind(catalog, staged, tenant, ledger[i..]) == Unwind(catalog, rows, tenant, ledger)
      {
        var entry := ledger[i];
        assert ledger[i..][0] == entry && ledger[i..][1..] == ledger[i + 1..];
        var table := At(staged, tenant, entry.table);
        var matches := Matches(table, entry.key);
        if |matches| != 1 {
          return false, staged;
        }
        assert matches[0] in matches;
        var row := table[matches[0]];
        var referenced := Referenced(tenant, entry.table, row, staged);
        if referenced {
          return false, staged;
        }
        staged := staged[(tenant, entry.table) := table[..matches[0]] + table[matches[0] + 1..]];
      }
      return true, staged;
    }
  }
}
