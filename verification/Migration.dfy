// migration.py: ordered, forward-only schema migrations inside one lock-serialised transaction.
module Migration {
  import opened Values
  import opened Contracts

  /** How a group of tables looks to its classifier. */
  datatype Presence = NotThere | Partial | Complete

  /**
   * `created` says that the service's schema itself exists, `altered` that the jobs table carries the
   * constraints of the worker protocol, which no classifier looks at.
   */
  datatype Schema = Schema(created: bool, legacy: Presence, altered: bool, worker: Presence, generation: Presence)

  datatype Script = JobsScript | WorkerProtocolScript | SynchronousGenerationsScript

  datatype Migration = Migration(id: string, checksum: string, script: Script, adoptable: bool)

  datatype Entry = Entry(id: string, checksum: string)

  datatype Database = Database(schema: Schema, ledger: seq<Entry>)

  datatype Failure = Safety | DatabaseError

  datatype Status = Current | Pending | Applied

  datatype Report = Report(
    status: Status, applied: seq<string>, adopted: seq<string>, current: seq<string>, pending: seq<string>)

  const SYNCHRONOUS := "0003_synchronous_generations"

  const JOBS_CHECKSUM := "af29058d1ca61516415cc3b3f877987012c371fba5fdec0170bc83dc76c19822"
  const WORKER_CHECKSUM := "3e1938165b6ff0bcc9dcfc80288e74f32715474e259f82b346307724c0809779"
  const SYNCHRONOUS_CHECKSUM := "87c1133e49344322b92a885fc9c44089d0cadd1e0cce14f5b7170c6093370b11"

  const JOBS := Migration("0001_jobs", JOBS_CHECKSUM, JobsScript, true)
  const WORKER_PROTOCOL := Migration("0002_worker_protocol", WORKER_CHECKSUM, WorkerProtocolScript, false)
  const SYNCHRONOUS_GENERATIONS := Migration(SYNCHRONOUS, SYNCHRONOUS_CHECKSUM, SynchronousGenerationsScript, false)

  const SHIPPED := [JOBS, WORKER_PROTOCOL, SYNCHRONOUS_GENERATIONS]

  /** What a migration file does to the three table groups; None is an error raised by the database. */
  function Execute(script: Script, s: Schema): Option<Schema> {
    match script
    case JobsScript =>
      // the tables are created only if missing, but the policies unconditionally
      if s.legacy == NotThere then Some(s.(created := true, legacy := Complete, altered := false)) else None
    case WorkerProtocolScript =>
      // adds constraints to jobs, then creates the worker tables
      if s.created && s.legacy == Complete && !s.altered && s.worker == NotThere
      then Some(s.(altered := true, worker := Complete)) else None
    case SynchronousGenerationsScript =>
      // drops whatever is there of the jobs and worker tables, then creates the generation tables
      if s.created && s.generation == NotThere
      then Some(Schema(true, NotThere, false, NotThere, Complete)) else None
  }

  predicate Recorded(ledger: seq<Entry>, id: string) {
    exists e | e in ledger :: e.id == id
  }

  /** Strictly increasing ids, as `load_migrations` demands of the manifest. */
  ghost predicate Increasing(ms: seq<Migration>) {
    forall i, j | 0 <= i < j < |ms| :: ms[i].id != ms[j].id && LexLeq(ms[i].id, ms[j].id)
  }

  // the ledger is a table, read back by id

  function InsertById(l: seq<Entry>, e: Entry): (r: seq<Entry>)
    ensures multiset(r) == multiset(l) + multiset{e}
  {
    if l == [] then [e]
    else if LexLeq(l[0].id, e.id) then
      assert l == [l[0]] + l[1..];
      [l[0]] + InsertById(l[1..], e)
    else [e] + l
  }

  function ById(l: seq<Entry>): (r: seq<Entry>)
    ensures multiset(r) == multiset(l)
  {
    if l == [] then []
    else
      assert l == l[..|l| - 1] + [l[|l| - 1]];
      InsertById(ById(l[..|l| - 1]), l[|l| - 1])
  }

  ghost predicate InIdOrder(l: seq<Entry>) {
    forall i, j | 0 <= i < j < |l| :: LexLeq(l[i].id, l[j].id)
  }

  lemma {:induction false} LexTransitive(a: string, b: string, c: string)
    requires LexLeq(a, b) && LexLeq(b, c)
    ensures LexLeq(a, c)
  {
    if a != [] && a[0] == b[0] && b[0] == c[0] { LexTransitive(a[1..], b[1..], c[1..]); }
  }

  lemma {:induction false} InsertKeepsIdOrder(l: seq<Entry>, e: Entry)
    requires InIdOrder(l)
    ensures InIdOrder(InsertById(l, e))
  {
    if l == [] {
    } else if LexLeq(l[0].id, e.id) {
      InsertKeepsIdOrder(l[1..], e);
      var rest := InsertById(l[1..], e);
      forall x | x in rest ensures LexLeq(l[0].id, x.id) {
        assert x in multiset(rest);
        assert x == e || x in l[1..];
      }
    } else {
      LexTotal(l[0].id, e.id);
      forall x | x in l ensures LexLeq(e.id, x.id) {
        var i :| 0 <= i < |l| && l[i] == x;
        if i > 0 { LexTransitive(e.id, l[0].id, x.id); }
      }
    }
  }

  lemma {:induction false} ByIdOrdered(l: seq<Entry>)
    ensures InIdOrder(ById(l))
  {
    if l == [] {
    } else {
      ByIdOrdered(l[..|l| - 1]);
      InsertKeepsIdOrder(ById(l[..|l| - 1]), l[|l| - 1]);
    }
  }

  ghost predicate NoneAfter(l: seq<Entry>, id: string) {
    forall i | 0 <= i < |l| :: LexLeq(l[i].id, id)
  }

  lemma {:induction false} InsertAtEnd(l: seq<Entry>, e: Entry)
    requires NoneAfter(l, e.id)
    ensures InsertById(l, e) == l + [e]
  {
    if l == [] {
    } else {
      var rest := l[1..];
      assert NoneAfter(rest, e.id) by {
        assert forall i | 0 <= i < |rest| :: rest[i] == l[i + 1];
      }
      InsertAtEnd(rest, e);
      assert l + [e] == [l[0]] + (l[1..] + [e]);
    }
  }

  lemma OrderedBefore(l: seq<Entry>)
    requires l != [] && InIdOrder(l)
    ensures InIdOrder(l[..|l| - 1]) && NoneAfter(l[..|l| - 1], l[|l| - 1].id)
  {
  }

  /** What is in order already is read back as it stands. */
  lemma {:induction false} ByIdFixed(l: seq<Entry>)
    requires InIdOrder(l)
    ensures ById(l) == l
  {
    if l == [] {
    } else {
      var before, last := l[..|l| - 1], l[|l| - 1];
      OrderedBefore(l);
      ByIdFixed(before);
      assert ById(l) == InsertById(before, last);
      InsertAtEnd(before, last);
      assert l == before + [last];
    }
  }

  lemma ByIdHas(l: seq<Entry>)
    ensures forall e :: e in ById(l) <==> e in l
    ensures forall id :: Recorded(ById(l), id) <==> Recorded(l, id)
  {
    forall e ensures e in ById(l) <==> e in l {
      assert e in multiset(ById(l)) <==> e in multiset(l);
    }
  }

  function EntryOf(m: Migration): Entry {
    Entry(m.id, m.checksum)
  }

  function Entries(ms: seq<Migration>): (r: seq<Entry>)
    ensures |r| == |ms|
  {
    seq(|ms|, i requires 0 <= i < |ms| => EntryOf(ms[i]))
  }

  function Ids(ms: seq<Migration>): (r: seq<string>)
    ensures |r| == |ms|
  {
    seq(|ms|, i requires 0 <= i < |ms| => ms[i].id)
  }

  function LedgerIds(ledger: seq<Entry>): (r: seq<string>)
    ensures |r| == |ledger|
  {
    seq(|ledger|, i requires 0 <= i < |ledger| => ledger[i].id)
  }

  /** `tuple(item for item in ordered if item.migration_id not in ledger)` */
  function PendingOf(ordered: seq<Migration>, ledger: seq<Entry>): seq<Migration> {
    if ordered == [] then []
    else
      (if Recorded(ledger, ordered[0].id) then [] else [ordered[0]]) + PendingOf(ordered[1..], ledger)
  }

  /** Every recorded migration is known to this image, with the checksum it knows. */
  predicate LedgerKnown(ordered: seq<Migration>, ledger: seq<Entry>) {
    forall e | e in ledger :: exists m | m in ordered :: EntryOf(m) == e
  }

  /** The schema that a non-empty ledger promises. */
  predicate LedgerHonoured(db: Database) {
    db.ledger != [] ==>
      if Recorded(db.ledger, SYNCHRONOUS) then db.schema.generation == Complete && db.schema.legacy == NotThere
      else db.schema.legacy == Complete
  }

  /** The states that `apply` refuses to touch. */
  predicate Untouchable(db: Database) {
    || db.schema.legacy == Partial || db.schema.generation == Partial
    || (db.ledger == [] && db.schema.generation == Complete)
  }

  predicate Verified(db: Database) {
    if Recorded(db.ledger, SYNCHRONOUS)
    then db.schema.generation == Complete && db.schema.legacy == NotThere && db.schema.worker == NotThere
    else db.schema.legacy == Complete
  }

  /** The complete schema stands in for the first migration of an empty ledger. */
  predicate IsBaseline(i: nat, db: Database) {
    i == 0 && db.schema.legacy == Complete && db.ledger == []
  }

  datatype Played = Played(db: Database, applied: seq<string>, adopted: seq<string>)

  /** The loop over the pending migrations, from position i. */
  function Play(pending: seq<Migration>, i: nat, p: Played): Result<Played, Failure>
    requires i <= |pending|
    decreases |pending| - i
  {
    if i == |pending| then Ok(p)
    else
      var m := pending[i];
      if IsBaseline(i, p.db) then
        if !m.adoptable then Err(Safety)
        else Play(pending, i + 1,
                  p.(db := p.db.(ledger := p.db.ledger + [EntryOf(m)]), adopted := p.adopted + [m.id]))
      else
        match Execute(m.script, p.db.schema)
        case None => Err(DatabaseError)
        case Some(schema) =>
          Play(pending, i + 1,
               Played(Database(schema, p.db.ledger + [EntryOf(m)]), p.applied + [m.id], p.adopted))
  }

  function Check(ordered: seq<Migration>, db: Database): Result<Report, Failure> {
    var pending := PendingOf(ordered, db.ledger);
    if !LedgerKnown(ordered, db.ledger) || !LedgerHonoured(db) then Err(Safety)
    else if pending == [] && db.schema.generation != Complete then Err(Safety)
    else Ok(Report(if pending == [] then Current else Pending, [], [], LedgerIds(db.ledger), Ids(pending)))
  }

  function Apply(ordered: seq<Migration>, db: Database): Result<(Database, Report), Failure> {
    if !LedgerKnown(ordered, db.ledger) || !LedgerHonoured(db) || Untouchable(db) then Err(Safety)
    else
      match Play(PendingOf(ordered, db.ledger), 0, Played(db, [], []))
      case Err(e) => Err(e)
      case Ok(p) =>
        if !Verified(p.db) then Err(Safety)
        else
          var status := if p.applied + p.adopted == [] then Current else Applied;
          var report := Report(status, p.applied, p.adopted, LedgerIds(p.db.ledger), []);
          Ok((Database(p.db.schema, ById(p.db.ledger)), report))
  }

  /** One invocation: a failure rolls everything back. */
  function Invoke(ordered: seq<Migration>, db: Database): Database {
    match Apply(ordered, db)
    case Ok(r) => r.0
    case Err(_) => db
  }

  // ---- the code -------------------------------------------------------------------------------

  class MigrationTarget {
    var schema: Schema
    var ledger: seq<Entry>

    ghost function View(): Database
      reads this
    {
      Database(schema, ledger)
    }

    constructor (schema: Schema, ledger: seq<Entry>)
      ensures View() == Database(schema, ledger)
    {
      this.schema, this.ledger := schema, ledger;
    }

    /** The loop over the pending migrations, on the transaction's own view of the database. */
    method RunPending(pending: seq<Migration>)
        returns (
          failure: Option<Failure>, schema': Schema, ledger': seq<Entry>, applied: seq<string>, adopted: seq<string>)
      ensures Play(pending, 0, Played(View(), [], [])) ==
              if failure.Some? then Err(failure.value) else Ok(Played(Database(schema', ledger'), applied, adopted))
    {
      schema', ledger', applied, adopted := schema, ledger, [], [];
      failure := None;
      ghost var start := Played(View(), [], []);
      for index := 0 to |pending|
        invariant Play(pending, index, Played(Database(schema', ledger'), applied, adopted)) == Play(pending, 0, start)
        invariant failure == None
      {
        var migration := pending[index];
        var isBaseline := index == 0 && schema'.legacy == Complete && ledger' == [];
        if isBaseline {
          if !migration.adoptable {
            failure := Some(Safety);
            return;
          }
          adopted := adopted + [migration.id];
        } else {
          var next := Execute(migration.script, schema');
          if next.None? {
            failure := Some(DatabaseError);
            return;
          }
          schema' := next.value;
          applied := applied + [migration.id];
        }
        ledger' := ledger' + [EntryOf(migration)];
      }
    }

    /** `apply_migrations(..., check=check)`, its transaction rolled back on every error. */
    method ApplyMigrations(migrations: seq<Migration>, check: bool) returns (r: Result<Report, Failure>)
      requires Increasing(migrations)
      modifies this
      ensures var ordered := if migrations == [] then SHIPPED else migrations;
        if check then View() == old(View()) && r == Check(ordered, old(View()))
        else
          && View() == Invoke(ordered, old(View()))
          && r == match Apply(ordered, old(View())) case Ok(done) => Ok(done.1) case Err(e) => Err(e)
    {
      var ordered := if migrations == [] then SHIPPED else migrations;
      if exists e | e in ledger :: !exists m | m in ordered :: EntryOf(m) == e {
        return Err(Safety);
      }
      if ledger != [] {
        if Recorded(ledger, SYNCHRONOUS) {
          if schema.generation != Complete || schema.legacy != NotThere {
            return Err(Safety);
          }
        } else if schema.legacy != Complete {
          return Err(Safety);
        }
      }
      var pending := PendingOf(ordered, ledger);
      if check {
        if pending == [] && schema.generation != Complete {
          return Err(Safety);
        }
        return Ok(Report(if pending == [] then Current else Pending, [], [], LedgerIds(ledger), Ids(pending)));
      }
      if schema.legacy == Partial || schema.generation == Partial {
        return Err(Safety);
      }
      if ledger == [] && schema.generation == Complete {
        return Err(Safety);
      }
      var failure, schema', ledger', applied, adopted := RunPending(pending);
      if failure.Some? {
        return Err(failure.value);
      }
      if Recorded(ledger', SYNCHRONOUS) {
        if schema'.generation != Complete {
          return Err(Safety);
        }
        if schema'.legacy != NotThere || schema'.worker != NotThere {
          return Err(Safety);
        }
      } else if schema'.legacy != Complete {
        return Err(Safety);
      }
      schema, ledger := schema', ById(ledger');
      return Ok(Report(if applied + adopted == [] then Current else Applied, applied, adopted, LedgerIds(ledger'), []));
    }
  }

  // ---- any migration list ------------------------------------------------------------------------

  /** After the first pending migration nothing is adopted any more; the rest are applied in order. */
  lemma {:induction false} PlayRecords(pending: seq<Migration>, i: nat, p: Played)
    requires i <= |pending| && (i < |pending| ==> !IsBaseline(i, p.db))
    requires Play(pending, i, p).Ok?
    ensures var r := Play(pending, i, p).value;
      && r.db.ledger == p.db.ledger + Entries(pending[i..])
      && r.applied == p.applied + Ids(pending[i..])
      && r.adopted == p.adopted
    decreases |pending| - i
  {
    if i < |pending| {
      var m := pending[i];
      assert pending[i..] == [m] + pending[i + 1..];
      assert Entries(pending[i..]) == [EntryOf(m)] + Entries(pending[i + 1..]);
      assert Ids(pending[i..]) == [m.id] + Ids(pending[i + 1..]);
      PlayRecords(pending, i + 1, Played(
        Database(Execute(m.script, p.db.schema).value, p.db.ledger + [EntryOf(m)]), p.applied + [m.id], p.adopted));
    }
  }

  /**
   * A successful invocation with any ordered list only adds to the ledger, exactly the pending
   * migrations in order; those adopted, at most the first and only onto an empty ledger, followed by
   * those applied are the pending list.
   */
  lemma ForwardOnly(ordered: seq<Migration>, db: Database)
    requires Increasing(ordered) && Apply(ordered, db).Ok?
    ensures var (after, report) := Apply(ordered, db).value;
      var pending := PendingOf(ordered, db.ledger);
      && after.ledger == ById(db.ledger + Entries(pending))
      && report.current == LedgerIds(db.ledger) + Ids(pending)
      && report.adopted + report.applied == Ids(pending)
      && (report.adopted == [] ||
          (db.ledger == [] && pending != [] && report.adopted == [pending[0].id] && pending[0].adoptable))
      && (report.status == Current <==> pending == [])
  {
    var pending := PendingOf(ordered, db.ledger);
    PlayAll(pending, db);
    IdsOfEntries(db.ledger, pending);
  }

  lemma IdsOfEntries(ledger: seq<Entry>, ms: seq<Migration>)
    ensures LedgerIds(ledger + Entries(ms)) == LedgerIds(ledger) + Ids(ms)
  {
  }

  /** All the pending migrations, the first perhaps adopted. */
  lemma PlayAll(pending: seq<Migration>, db: Database)
    requires Play(pending, 0, Played(db, [], [])).Ok?
    ensures var p := Play(pending, 0, Played(db, [], [])).value;
      && p.db.ledger == db.ledger + Entries(pending) && p.adopted + p.applied == Ids(pending)
      && (p.adopted == [] ||
          (db.ledger == [] && pending != [] && p.adopted == [pending[0].id] && pending[0].adoptable))
      && (p.applied + p.adopted == [] <==> pending == [])
  {
    assert pending[0..] == pending && |Ids(pending)| == |pending|;
    if pending != [] && IsBaseline(0, db) {
      var m := pending[0];
      assert pending == [m] + pending[1..];
      assert Entries(pending) == [EntryOf(m)] + Entries(pending[1..]);
      assert Ids(pending) == [m.id] + Ids(pending[1..]);
      PlayRecords(pending, 1, Played(Database(db.schema, db.ledger + [EntryOf(m)]), [], [] + [m.id]));
    } else {
      PlayRecords(pending, 0, Played(db, [], []));
    }
  }

  lemma {:induction false} NothingPending(ordered: seq<Migration>, ledger: seq<Entry>)
    requires forall m | m in ordered :: Recorded(ledger, m.id)
    ensures PendingOf(ordered, ledger) == []
  {
    if ordered == [] {
    } else {
      NothingPending(ordered[1..], ledger);
    }
  }

  lemma {:induction false} PendingCovers(ordered: seq<Migration>, ledger: seq<Entry>)
    ensures forall m | m in PendingOf(ordered, ledger) :: m in ordered
    ensures forall m | m in ordered :: Recorded(ledger, m.id) || m in PendingOf(ordered, ledger)
  {
    if ordered == [] {
    } else {
      PendingCovers(ordered[1..], ledger);
    }
  }

  lemma {:induction false} PlayNeverPartial(pending: seq<Migration>, i: nat, p: Played)
    requires i <= |pending| && p.db.schema.legacy != Partial && p.db.schema.generation != Partial
    requires Play(pending, i, p).Ok?
    ensures Play(pending, i, p).value.db.schema.legacy != Partial
    ensures Play(pending, i, p).value.db.schema.generation != Partial
    decreases |pending| - i
  {
    if i < |pending| {
      var m := pending[i];
      var ledger := p.db.ledger + [EntryOf(m)];
      if IsBaseline(i, p.db) {
        PlayNeverPartial(pending, i + 1, p.(db := p.db.(ledger := ledger), adopted := p.adopted + [m.id]));
      } else {
        PlayNeverPartial(pending, i + 1,
          Played(Database(Execute(m.script, p.db.schema).value, ledger), p.applied + [m.id], p.adopted));
      }
    }
  }

  lemma AfterSuccess(ordered: seq<Migration>, db: Database)
    requires Increasing(ordered) && Apply(ordered, db).Ok?
    ensures var after := Apply(ordered, db).value.0;
      && PendingOf(ordered, after.ledger) == [] && LedgerKnown(ordered, after.ledger)
      && InIdOrder(after.ledger) && (ordered != [] ==> after.ledger != [])
  {
    var after, pending := Apply(ordered, db).value.0, PendingOf(ordered, db.ledger);
    ForwardOnly(ordered, db);
    ByIdOrdered(db.ledger + Entries(pending));
    NowRecorded(ordered, db.ledger);
    NowKnown(ordered, db.ledger);
    NothingPending(ordered, after.ledger);
    if ordered != [] {
      assert Recorded(after.ledger, ordered[0].id);
    }
  }

  lemma NowRecorded(ordered: seq<Migration>, ledger: seq<Entry>)
    ensures forall m | m in ordered :: Recorded(ById(ledger + Entries(PendingOf(ordered, ledger))), m.id)
  {
    PendingCovers(ordered, ledger);
    ByIdHas(ledger + Entries(PendingOf(ordered, ledger)));
    forall m | m in ordered ensures Recorded(ledger + Entries(PendingOf(ordered, ledger)), m.id) {
      RecordedNow(PendingOf(ordered, ledger), ledger, m);
    }
  }

  lemma NowKnown(ordered: seq<Migration>, ledger: seq<Entry>)
    requires LedgerKnown(ordered, ledger)
    ensures LedgerKnown(ordered, ById(ledger + Entries(PendingOf(ordered, ledger))))
  {
    var pending := PendingOf(ordered, ledger);
    PendingCovers(ordered, ledger);
    ByIdHas(ledger + Entries(pending));
    forall e | e in ledger + Entries(pending) ensures exists m | m in ordered :: EntryOf(m) == e {
      if e !in ledger {
        var i :| 0 <= i < |pending| && Entries(pending)[i] == e;
        assert pending[i] in ordered && EntryOf(pending[i]) == e;
      }
    }
  }

  lemma RecordedNow(pending: seq<Migration>, ledger: seq<Entry>, m: Migration)
    requires m in pending || Recorded(ledger, m.id)
    ensures Recorded(ledger + Entries(pending), m.id)
  {
    if m in pending {
      var i :| 0 <= i < |pending| && pending[i] == m;
      assert Entries(pending)[i] == EntryOf(m);
      assert EntryOf(m) in ledger + Entries(pending);
    } else {
      var e :| e in ledger && e.id == m.id;
      assert e in ledger + Entries(pending);
    }
  }

  /** Whatever the list, running it again right after a success changes nothing and reports `current`. */
  lemma SecondRunIsCurrent(ordered: seq<Migration>, db: Database)
    requires ordered != [] && Increasing(ordered) && Apply(ordered, db).Ok?
    ensures var after := Apply(ordered, db).value.0;
      Apply(ordered, after) == Ok((after, Report(Current, [], [], LedgerIds(after.ledger), [])))
  {
    var after, pending := Apply(ordered, db).value.0, PendingOf(ordered, db.ledger);
    AfterSuccess(ordered, db);
    PlayNeverPartial(pending, 0, Played(db, [], []));
    ByIdHas(Play(pending, 0, Played(db, [], [])).value.db.ledger);
    ByIdFixed(after.ledger);
  }

  /**
   * When `check` says current, a following apply says so too, without changes, exactly if no
   * worker table is left behind a recorded synchronous migration: only apply looks at those.
   */
  lemma CurrentCheckMeansCurrentApply(ordered: seq<Migration>, db: Database)
    requires ordered != [] && Increasing(ordered) && InIdOrder(db.ledger)
    requires Check(ordered, db).Ok? && Check(ordered, db).value.status == Current
    ensures (Recorded(db.ledger, SYNCHRONOUS) ==> db.schema.worker == NotThere) <==>
            Apply(ordered, db) == Ok((db, Report(Current, [], [], LedgerIds(db.ledger), [])))
    ensures !(Recorded(db.ledger, SYNCHRONOUS) ==> db.schema.worker == NotThere) ==> Apply(ordered, db) == Err(Safety)
  {
    PendingCovers(ordered, db.ledger);
    assert Recorded(db.ledger, ordered[0].id);
    assert db.ledger != [];
    ByIdFixed(db.ledger);
  }

  /**
   * Where apply succeeds, `check` succeeds if and only if something is pending or the generation
   * schema is there; and it then lists exactly what apply adopts and then applies.
   */
  lemma CheckPredictsApply(ordered: seq<Migration>, db: Database)
    requires Increasing(ordered) && Apply(ordered, db).Ok?
    ensures var (_, report) := Apply(ordered, db).value;
      && (Check(ordered, db).Ok? <==> PendingOf(ordered, db.ledger) != [] || db.schema.generation == Complete)
      && (Check(ordered, db).Ok? ==>
            && Check(ordered, db).value.pending == report.adopted + report.applied
            && Check(ordered, db).value.current + Check(ordered, db).value.pending == report.current
            && (Check(ordered, db).value.status == Current <==> report.status == Current))
      && (Check(ordered, db).Err? ==> report.status == Current)
  {
    ForwardOnly(ordered, db);
  }

  // ---- what is refused, and what is checked -------------------------------------------------------

  /** The image carries a migration with the entry's id and checksum. */
  ghost predicate Carried(ordered: seq<Migration>, e: Entry) {
    exists m :: m in ordered && m.id == e.id && m.checksum == e.checksum
  }

  /** Whoever gets an answer, from apply or from check, has every recorded migration, checksum and all. */
  lemma OnlyCarriedLedgers(ordered: seq<Migration>, db: Database)
    requires Apply(ordered, db).Ok? || Check(ordered, db).Ok?
    ensures forall e | e in db.ledger :: Carried(ordered, e)
  {
    forall e | e in db.ledger ensures Carried(ordered, e) {
      var m :| m in ordered && EntryOf(m) == e;
      assert m.id == e.id && m.checksum == e.checksum;
    }
  }

  /** An entry that is unknown to the image, or whose checksum has drifted, stops both, and changes nothing. */
  lemma DriftIsRefused(ordered: seq<Migration>, db: Database, e: Entry)
    requires e in db.ledger && forall m | m in ordered :: m.id != e.id || m.checksum != e.checksum
    ensures Apply(ordered, db) == Err(Safety) && Check(ordered, db) == Err(Safety) && Invoke(ordered, db) == db
  {
    assert forall m | m in ordered :: EntryOf(m) != e;
    assert !LedgerKnown(ordered, db.ledger);
  }

  /** So for a list without repeated ids, drift is an entry with a known id and another checksum. */
  lemma DriftedChecksum(ordered: seq<Migration>, db: Database, m: Migration, e: Entry)
    requires Increasing(ordered) && m in ordered && e in db.ledger && e.id == m.id && e.checksum != m.checksum
    ensures Apply(ordered, db) == Err(Safety) && Check(ordered, db) == Err(Safety) && Invoke(ordered, db) == db
  {
    forall other | other in ordered ensures other.id != e.id || other.checksum != e.checksum {
      var i :| 0 <= i < |ordered| && ordered[i] == m;
      var j :| 0 <= j < |ordered| && ordered[j] == other;
      assert i < j ==> ordered[i].id != ordered[j].id;
      assert j < i ==> ordered[j].id != ordered[i].id;
    }
    DriftIsRefused(ordered, db, e);
  }

  /** The table groups are not those that a non-empty ledger promises. */
  ghost predicate Dishonoured(db: Database) {
    && db.ledger != []
    && if exists e :: e in db.ledger && e.id == SYNCHRONOUS
       then db.schema.generation != Complete || db.schema.legacy != NotThere
       else db.schema.legacy != Complete
  }

  /** The migrations of the image that the ledger does not record, in order. */
  ghost predicate Unrecorded(ordered: seq<Migration>, ledger: seq<Entry>, pending: seq<string>) {
    && (forall id :: id in pending <==> Wanted(ordered, ledger, id))
    && Ascending(pending)
  }

  ghost predicate Wanted(ordered: seq<Migration>, ledger: seq<Entry>, id: string) {
    (exists m :: m in ordered && m.id == id) && !exists e :: e in ledger && e.id == id
  }

  ghost predicate Ascending(ids: seq<string>) {
    forall i, j | 0 <= i < j < |ids| :: ids[i] != ids[j] && LexLeq(ids[i], ids[j])
  }

  lemma PendingStep(ordered: seq<Migration>, ledger: seq<Entry>)
    requires ordered != []
    ensures Ids(PendingOf(ordered, ledger)) ==
            (if Recorded(ledger, ordered[0].id) then [] else [ordered[0].id]) + Ids(PendingOf(ordered[1..], ledger))
  {
  }

  lemma WantedStep(ordered: seq<Migration>, ledger: seq<Entry>, id: string)
    requires ordered != []
    ensures Wanted(ordered, ledger, id) <==>
            Wanted(ordered[1..], ledger, id) || (id == ordered[0].id && !Recorded(ledger, id))
  {
    assert ordered == [ordered[0]] + ordered[1..];
    assert Recorded(ledger, id) <==> exists e :: e in ledger && e.id == id;
  }

  lemma {:induction false} PendingUnrecorded(ordered: seq<Migration>, ledger: seq<Entry>)
    requires Increasing(ordered)
    ensures Unrecorded(ordered, ledger, Ids(PendingOf(ordered, ledger)))
  {
    if ordered == [] {
    } else {
      var later := Ids(PendingOf(ordered[1..], ledger));
      PendingUnrecorded(ordered[1..], ledger);
      PendingStep(ordered, ledger);
      forall id
        ensures Wanted(ordered, ledger, id) <==>
                Wanted(ordered[1..], ledger, id) || (id == ordered[0].id && !Recorded(ledger, id))
      {
        WantedStep(ordered, ledger, id);
      }
      forall id | id in later ensures id != ordered[0].id && LexLeq(ordered[0].id, id) {
        assert Wanted(ordered[1..], ledger, id);
        LaterIds(ordered, id);
      }
      AscendingFrom(ordered[0].id, later);
    }
  }

  lemma LaterIds(ordered: seq<Migration>, id: string)
    requires Increasing(ordered) && ordered != [] && exists m :: m in ordered[1..] && m.id == id
    ensures id != ordered[0].id && LexLeq(ordered[0].id, id)
  {
    var m :| m in ordered[1..] && m.id == id;
    var k :| 0 <= k < |ordered[1..]| && ordered[1..][k] == m;
    assert ordered[k + 1] == m;
  }

  lemma AscendingFrom(first: string, later: seq<string>)
    requires Ascending(later) && forall id | id in later :: id != first && LexLeq(first, id)
    ensures Ascending([first] + later)
  {
    var all := [first] + later;
    assert forall j | 1 <= j < |all| :: all[j] == later[j - 1] && all[j] in later;
  }

  /**
   * `check` answers if and only if the ledger is the image's own and honoured by the tables, and, when
   * nothing is pending, the generation schema is complete.  It lists what is recorded and what is not.
   */
  lemma CheckExactly(ordered: seq<Migration>, db: Database)
    requires Increasing(ordered)
    ensures var pending := Ids(PendingOf(ordered, db.ledger));
      && Unrecorded(ordered, db.ledger, pending)
      && (Check(ordered, db).Ok? <==>
            && (forall e | e in db.ledger :: Carried(ordered, e)) && !Dishonoured(db)
            && (pending == [] ==> db.schema.generation == Complete))
      && (Check(ordered, db).Ok? ==>
            Check(ordered, db).value ==
            Report(if pending == [] then Current else Pending, [], [], LedgerIds(db.ledger), pending))
      && (Check(ordered, db).Err? ==> Check(ordered, db).error == Safety)
  {
    PendingUnrecorded(ordered, db.ledger);
    KnownIsCarried(ordered, db.ledger);
  }

  lemma KnownIsCarried(ordered: seq<Migration>, ledger: seq<Entry>)
    ensures LedgerKnown(ordered, ledger) <==> forall e | e in ledger :: Carried(ordered, e)
  {
    if LedgerKnown(ordered, ledger) {
      forall e | e in ledger ensures Carried(ordered, e) {
        var m :| m in ordered && EntryOf(m) == e;
        assert m.id == e.id && m.checksum == e.checksum;
      }
    }
    if forall e | e in ledger :: Carried(ordered, e) {
      forall e | e in ledger ensures exists m | m in ordered :: EntryOf(m) == e {
        assert Carried(ordered, e);
        var m :| m in ordered && m.id == e.id && m.checksum == e.checksum;
        assert EntryOf(m) == e;
      }
    }
  }

  /**
   * Before any script, apply refuses a ledger that is not the image's own or not honoured, tables it
   * knows only in part, untracked generation tables, and an untracked whole schema that the first
   * migration may not adopt.
   */
  lemma ApplyGuards(ordered: seq<Migration>, db: Database)
    requires
      || !(forall e | e in db.ledger :: Carried(ordered, e))
      || Dishonoured(db)
      || db.schema.legacy == Partial || db.schema.generation == Partial
      || (db.ledger == [] && db.schema.generation == Complete)
      || (db.ledger == [] && db.schema.legacy == Complete && ordered != [] && !ordered[0].adoptable)
    ensures Apply(ordered, db) == Err(Safety) && Invoke(ordered, db) == db
  {
    KnownIsCarried(ordered, db.ledger);
    if db.ledger == [] && ordered != [] {
      assert PendingOf(ordered, [])[0] == ordered[0];
    }
  }

  // ---- the shipped list ------------------------------------------------------------------------------

  /** What matters of the shipped list: three scripts in order, the first adoptable, the last the synchronous one. */
  ghost predicate Shape(ms: seq<Migration>) {
    && |ms| == 3 && Increasing(ms) && ms[2].id == SYNCHRONOUS
    && ms[0].script == JobsScript && ms[1].script == WorkerProtocolScript
    && ms[2].script == SynchronousGenerationsScript && ms[0].adoptable
  }

  lemma {:induction false} LexByPrefix(prefix: string, a: string, b: string)
    requires a != [] && b != [] && a[0] < b[0]
    ensures prefix + a != prefix + b && LexLeq(prefix + a, prefix + b)
  {
    if prefix == [] {
      assert [] + a == a && [] + b == b;
    } else {
      LexByPrefix(prefix[1..], a, b);
      assert (prefix + a)[1..] == prefix[1..] + a && (prefix + b)[1..] == prefix[1..] + b;
    }
  }

  lemma ShippedIdsIncrease()
    ensures "0001_jobs" != "0002_worker_protocol" && LexLeq("0001_jobs", "0002_worker_protocol")
    ensures "0001_jobs" != SYNCHRONOUS && LexLeq("0001_jobs", SYNCHRONOUS)
    ensures "0002_worker_protocol" != SYNCHRONOUS && LexLeq("0002_worker_protocol", SYNCHRONOUS)
  {
    assert "0001_jobs" == "000" + "1_jobs" && "0002_worker_protocol" == "000" + "2_worker_protocol";
    assert SYNCHRONOUS == "000" + "3_synchronous_generations";
    LexByPrefix("000", "1_jobs", "2_worker_protocol");
    LexByPrefix("000", "1_jobs", "3_synchronous_generations");
    LexByPrefix("000", "2_worker_protocol", "3_synchronous_generations");
  }

  lemma ShapeOf(a: Migration, b: Migration, c: Migration)
    requires a.id != b.id && LexLeq(a.id, b.id) && a.id != c.id && LexLeq(a.id, c.id)
    requires b.id != c.id && LexLeq(b.id, c.id) && c.id == SYNCHRONOUS && a.adoptable
    requires a.script == JobsScript && b.script == WorkerProtocolScript && c.script == SynchronousGenerationsScript
    ensures Shape([a, b, c])
  {
  }

  lemma ShippedHasShape()
    ensures Shape(SHIPPED)
  {
    ShippedIdsIncrease();
    ShapeOf(JOBS, WORKER_PROTOCOL, SYNCHRONOUS_GENERATIONS);
  }

  const EMPTY := Database(Schema(false, NotThere, false, NotThere, NotThere), [])
  const BASELINE := Database(Schema(true, Complete, false, NotThere, NotThere), [])

  /** The database that the first k migrations leave. */
  function Stage(ms: seq<Migration>, k: nat): Database
    requires 1 <= k <= 3 == |ms|
  {
    Database(
      if k == 1 then Schema(true, Complete, false, NotThere, NotThere)
      else if k == 2 then Schema(true, Complete, true, Complete, NotThere)
      else Schema(true, NotThere, false, NotThere, Complete),
      Entries(ms[..k]))
  }

  /** The supported starts, and every tracked prefix with its schema; k counts recorded migrations. */
  ghost predicate At(ms: seq<Migration>, db: Database, k: nat)
    requires |ms| == 3
  {
    k <= 3 && if k == 0 then db == EMPTY || db == BASELINE else db == Stage(ms, k)
  }

  /** A ledger that records exactly the first k migrations. */
  lemma PrefixLedger(ms: seq<Migration>, k: nat)
    requires Shape(ms) && k <= 3
    ensures InIdOrder(Entries(ms[..k])) && ById(Entries(ms[..k])) == Entries(ms[..k])
    ensures forall i | 0 <= i < 3 :: Recorded(Entries(ms[..k]), ms[i].id) <==> i < k
    ensures Recorded(Entries(ms[..k]), SYNCHRONOUS) <==> k == 3
    ensures Entries(ms[..k]) == [] <==> k == 0
  {
    var l := Entries(ms[..k]);
    assert forall i | 0 <= i < k :: l[i] == EntryOf(ms[i]);
    forall i | 0 <= i < 3 ensures Recorded(l, ms[i].id) <==> i < k {
      if i < k { assert l[i] in l; }
    }
    ByIdFixed(l);
  }

  lemma {:induction false} PendingFrom(ms: seq<Migration>, n: nat, k: nat, i: nat, ledger: seq<Entry>)
    requires |ms| == 3 && k <= n <= 3 && i <= n
    requires forall j | 0 <= j < 3 :: Recorded(ledger, ms[j].id) <==> j < k
    ensures PendingOf(ms[..n][i..], ledger) == ms[(if i < k then k else i)..n]
    decreases n - i
  {
    var rest := ms[..n][i..];
    if i == n {
      assert rest == [];
    } else {
      assert rest[0] == ms[i] && rest[1..] == ms[..n][i + 1..];
      PendingFrom(ms, n, k, i + 1, ledger);
      if i >= k { assert ms[i..n] == [ms[i]] + ms[i + 1..n]; }
    }
  }

  lemma PrefixPending(ms: seq<Migration>, n: nat, k: nat)
    requires Shape(ms) && k <= n <= 3
    ensures PendingOf(ms[..n], Entries(ms[..k])) == ms[k..n]
    ensures LedgerKnown(ms[..n], Entries(ms[..k]))
  {
    PrefixLedger(ms, k);
    PendingFrom(ms, n, k, 0, Entries(ms[..k]));
    assert ms[..n][0..] == ms[..n];
    forall e | e in Entries(ms[..k]) ensures exists m | m in ms[..n] :: EntryOf(m) == e {
      var i :| 0 <= i < k && Entries(ms[..k])[i] == e;
      assert ms[..n][i] in ms[..n] && EntryOf(ms[i]) == e;
    }
  }

  // ---- every database that such a ledger can go with ---------------------------------------------

  /** The schemas from which the migrations after the first k can be played. */
  predicate Playable(k: nat, s: Schema) {
    if k == 0 then
      && s.generation == NotThere && s.worker == NotThere && s.legacy != Partial
      && (s.legacy == Complete ==> s.created && !s.altered)
    else if k == 1 then
      s.generation == NotThere && s.worker == NotThere && s.legacy == Complete && s.created && !s.altered
    else if k == 2 then s.generation == NotThere && s.legacy == Complete && s.created
    else s.generation == Complete && s.legacy == NotThere && s.worker == NotThere
  }

  /** One script after another, from a ledger that is not empty. */
  lemma {:induction false} PlayRest(ms: seq<Migration>, k: nat, i: nat, p: Played)
    requires Shape(ms) && i + k <= 3 && p.db.ledger != []
    ensures var rest := Play(ms[k..], i, p);
      && (rest.Ok? ==> (i + k < 3 ==> rest.value.db.schema == Schema(true, NotThere, false, NotThere, Complete))
                       && (i + k == 3 ==> rest.value == p))
      && (rest.Err? ==> rest.error == DatabaseError)
      && (rest.Ok? <==>
            i + k == 3
            || (i + k == 2 && p.db.schema.created && p.db.schema.generation == NotThere)
            || (i + k == 1 && p.db.schema.created && p.db.schema.legacy == Complete && !p.db.schema.altered
                && p.db.schema.worker == NotThere && p.db.schema.generation == NotThere)
            || (i + k == 0 && p.db.schema.legacy == NotThere && p.db.schema.worker == NotThere
                && p.db.schema.generation == NotThere))
    decreases 3 - i - k
  {
    if i + k < 3 {
      var m := ms[k..][i];
      assert m == ms[i + k];
      match Execute(m.script, p.db.schema)
      case None =>
      case Some(s) =>
        PlayRest(ms, k, i + 1, Played(Database(s, p.db.ledger + [EntryOf(m)]), p.applied + [m.id], p.adopted));
    }
  }

  lemma ScriptsEnd(ms: seq<Migration>, k: nat)
    requires Shape(ms) && k <= 3
    ensures ms[..3] == ms && Entries(ms[..k]) + Entries(ms[k..]) == Entries(ms)
    ensures ms[k..3] == ms[k..]
  {
  }

  /** Apply on a known ledger, taken apart. */
  lemma ApplyByParts(ordered: seq<Migration>, db: Database, pending: seq<Migration>)
    requires pending == PendingOf(ordered, db.ledger) && LedgerKnown(ordered, db.ledger)
    ensures var played := Play(pending, 0, Played(db, [], []));
      && (Apply(ordered, db).Ok? <==>
            LedgerHonoured(db) && !Untouchable(db) && played.Ok? && Verified(played.value.db))
      && (Apply(ordered, db).Ok? ==>
            var p := played.value;
            Apply(ordered, db).value ==
            (Database(p.db.schema, ById(p.db.ledger)),
             Report(if p.applied + p.adopted == [] then Current else Applied,
                    p.applied, p.adopted, LedgerIds(p.db.ledger), [])))
  {
  }

  /** What apply asks of a database whose ledger records the first k migrations, before and after it plays. */
  lemma GuardsOfPrefix(ms: seq<Migration>, k: nat, s: Schema)
    requires Shape(ms) && k <= 3
    ensures var db := Database(s, Entries(ms[..k]));
      && (LedgerHonoured(db) <==>
            k == 0 || (if k == 3 then s.generation == Complete && s.legacy == NotThere else s.legacy == Complete))
      && (Untouchable(db) <==>
            s.legacy == Partial || s.generation == Partial || (k == 0 && s.generation == Complete))
      && (Verified(db) <==>
            if k == 3 then s.generation == Complete && s.legacy == NotThere && s.worker == NotThere
            else s.legacy == Complete)
      && (db.ledger == [] <==> k == 0) && ById(db.ledger) == db.ledger
  {
    PrefixLedger(ms, k);
  }

  /** The first script or its adoption, and then the rest. */
  lemma PlayFromStart(ms: seq<Migration>, s: Schema)
    requires Shape(ms)
    ensures s.legacy != Partial && s.generation == NotThere ==>
      (Play(ms, 0, Played(Database(s, []), [], [])).Ok? <==> Playable(0, s))
    ensures Play(ms, 0, Played(Database(s, []), [], [])).Err? ==>
      Play(ms, 0, Played(Database(s, []), [], [])).error == DatabaseError
    ensures Play(ms, 0, Played(Database(s, []), [], [])).Ok? ==>
      Play(ms, 0, Played(Database(s, []), [], [])).value.db.schema == Schema(true, NotThere, false, NotThere, Complete)
  {
    var start, m := Played(Database(s, []), [], []), ms[0];
    assert ms[0..] == ms;
    if IsBaseline(0, start.db) {
      var noted := start.db.(ledger := start.db.ledger + [EntryOf(m)]);
      PlayRest(ms, 0, 1, start.(db := noted, adopted := start.adopted + [m.id]));
    } else if Execute(m.script, s).Some? {
      PlayRest(ms, 0, 1, Played(
        Database(Execute(m.script, s).value, start.db.ledger + [EntryOf(m)]), start.applied + [m.id], start.adopted));
    }
  }

  /**
   * The shipped list, over any database whose ledger records its first k migrations, whatever the
   * schema: apply succeeds if and only if the schema is playable, and then ends with the full
   * ledger, no legacy or worker tables and the complete generation schema.  It fails with a database
   * error where a script runs into the schema, and with a safety error everywhere else.
   */
  lemma AppliesExactly(ms: seq<Migration>, k: nat, s: Schema)
    requires Shape(ms) && k <= 3
    ensures var db := Database(s, Entries(ms[..k]));
      && (Apply(ms, db).Ok? <==> Playable(k, s))
      && (Apply(ms, db).Ok? ==>
            Apply(ms, db).value.0 ==
            Database(if k == 3 then s else Schema(true, NotThere, false, NotThere, Complete), Entries(ms)))
      && (Apply(ms, db).Err? ==>
            Invoke(ms, db) == db && Apply(ms, db).error == if Guarded(k, s) && k < 3 then DatabaseError else Safety)
  {
    if Guarded(k, s) {
      AppliesGuarded(ms, k, s);
    } else {
      GuardedExactly(ms, k, s);
    }
  }

  lemma AppliesGuarded(ms: seq<Migration>, k: nat, s: Schema)
    requires Shape(ms) && k <= 3 && Guarded(k, s)
    ensures var db := Database(s, Entries(ms[..k]));
      && (Apply(ms, db).Ok? <==> Playable(k, s))
      && (Apply(ms, db).Ok? ==>
            Apply(ms, db).value.0 ==
            Database(if k == 3 then s else Schema(true, NotThere, false, NotThere, Complete), Entries(ms)))
      && (Apply(ms, db).Err? ==> Apply(ms, db).error == if k < 3 then DatabaseError else Safety)
  {
    var db := Database(s, Entries(ms[..k]));
    PrefixPending(ms, 3, k);
    ScriptsEnd(ms, k);
    GuardedExactly(ms, k, s);
    PlaysExactly(ms, k, s);
    ApplyByParts(ms, db, ms[k..]);
  }

  /** The schemas that apply does not refuse to touch. */
  predicate Guarded(k: nat, s: Schema) {
    && s.legacy != Partial && s.generation != Partial
    && if k == 0 then s.generation == NotThere
       else if k == 3 then s.generation == Complete && s.legacy == NotThere
       else s.legacy == Complete
  }

  lemma GuardedExactly(ms: seq<Migration>, k: nat, s: Schema)
    requires Shape(ms) && k <= 3
    ensures var db := Database(s, Entries(ms[..k])); LedgerHonoured(db) && !Untouchable(db) <==> Guarded(k, s)
  {
    GuardsOfPrefix(ms, k, s);
  }

  lemma PlaysExactly(ms: seq<Migration>, k: nat, s: Schema)
    requires Shape(ms) && k <= 3 && Guarded(k, s)
    ensures var played := Play(ms[k..], 0, Played(Database(s, Entries(ms[..k])), [], []));
      && (played.Ok? && Verified(played.value.db) <==> Playable(k, s))
      && (played.Ok? && k < 3 ==> Verified(played.value.db)) && (k == 3 ==> played.Ok?)
      && (played.Err? ==> played.error == DatabaseError)
      && (played.Ok? ==>
            played.value.db ==
            Database(if k == 3 then s else Schema(true, NotThere, false, NotThere, Complete), Entries(ms)))
    ensures ById(Entries(ms)) == Entries(ms)
  {
    var db := Database(s, Entries(ms[..k]));
    ScriptsEnd(ms, k);
    if k == 0 {
      assert ms[0..] == ms && db.ledger == [];
      PlayFromStart(ms, s);
    } else {
      assert |db.ledger| == k;
      PlayRest(ms, k, 0, Played(db, [], []));
    }
    if Play(ms[k..], 0, Played(db, [], [])).Ok? { PlayAll(ms[k..], db); }
    GuardsOfPrefix(ms, 3, if k == 3 then s else Schema(true, NotThere, false, NotThere, Complete));
  }

  /**
   * So an untracked database is upgraded exactly when a whole 1.0.0 schema and nothing else, or
   * nothing at all, is there.  Constraints of the worker protocol left on the jobs table count.
   */
  lemma UntrackedExactly(db: Database)
    requires db.ledger == []
    ensures Apply(SHIPPED, db).Ok? <==>
      && db.schema.generation == NotThere && db.schema.worker == NotThere && db.schema.legacy != Partial
      && (db.schema.legacy == Complete ==> db.schema.created && !db.schema.altered)
    ensures Apply(SHIPPED, db).Err? ==> Invoke(SHIPPED, db) == db
  {
    ShippedHasShape();
    assert Entries(SHIPPED[..0]) == [];
    AppliesExactly(SHIPPED, 0, db.schema);
  }

  // ---- images with prefixes of the list ------------------------------------------------------------

  /** An image that carries the first n migrations takes any earlier supported state to stage n. */
  lemma ImageAdvances(ms: seq<Migration>, n: nat, k: nat, db: Database)
    requires Shape(ms) && 1 <= n <= 3 && k <= n && At(ms, db, k)
    ensures Apply(ms[..n], db).Ok?
    ensures Apply(ms[..n], db).value.0 == Stage(ms, n)
    ensures Apply(ms[..n], db).value.1.adopted == (if db == BASELINE then [ms[0].id] else [])
    ensures Apply(ms[..n], db).value.1.status == if k == n then Current else Applied
  {
    StageLedger(ms, k, db);
    PrefixPending(ms, n, k);
    ApplyByParts(ms[..n], db, ms[k..n]);
    GuardsOfPrefix(ms, k, db.schema);
    ImagePlays(ms, n, k, db);
    GuardsOfPrefix(ms, n, Stage(ms, n).schema);
  }

  lemma ImagePlays(ms: seq<Migration>, n: nat, k: nat, db: Database)
    requires Shape(ms) && 1 <= n <= 3 && k <= n && At(ms, db, k) && db.ledger == Entries(ms[..k])
    ensures Play(ms[k..n], 0, Played(db, [], [])).Ok?
    ensures var p := Play(ms[k..n], 0, Played(db, [], [])).value;
      && p.db == Stage(ms, n)
      && p.adopted == (if db == BASELINE then [ms[0].id] else [])
      && (p.applied + p.adopted == [] <==> k == n)
  {
    if k == 0 {
      var m := ms[0];
      assert ms[0..n][0] == m && Entries(ms[..1]) == [EntryOf(m)] == db.ledger + [EntryOf(m)];
      assert [] + [m.id] == [m.id];
      var p1 := if db == BASELINE then Played(Stage(ms, 1), [], [m.id]) else Played(Stage(ms, 1), [m.id], []);
      assert Play(ms[0..n], 0, Played(db, [], [])) == Play(ms[0..n], 1, p1);
      PlayStages(ms, n, k, 1, p1);
    } else {
      PlayStages(ms, n, k, k, Played(db, [], []));
    }
  }

  /** From stage j on, the scripts lead from stage to stage. */
  lemma {:induction false} PlayStages(ms: seq<Migration>, n: nat, k: nat, j: nat, p: Played)
    requires Shape(ms) && k <= j <= n <= 3 && 1 <= j && p.db == Stage(ms, j)
    ensures Play(ms[k..n], j - k, p).Ok?
    ensures var q := Play(ms[k..n], j - k, p).value;
      && q.db == Stage(ms, n) && q.adopted == p.adopted
      && (q.applied == [] <==> p.applied == [] && j == n)
    decreases n - j
  {
    if j == n {
    } else {
      var m := ms[k..n][j - k];
      assert m == ms[j];
      assert Entries(ms[..j + 1]) == Entries(ms[..j]) + [EntryOf(m)];
      assert |Stage(ms, j).ledger| == j;
      PlayStages(ms, n, k, j + 1, Played(Stage(ms, j + 1), p.applied + [m.id], p.adopted));
    }
  }

  /**
   * `check` of such an image on such a state succeeds exactly if something is pending or the image
   * carries all three: it always insists on the generation schema.  Where it succeeds it lists what
   * apply adopts and then applies, and says current exactly when apply does.
   */
  lemma CheckInSupportedStates(ms: seq<Migration>, n: nat, k: nat, db: Database)
    requires Shape(ms) && 1 <= n <= 3 && k <= n && At(ms, db, k)
    ensures Apply(ms[..n], db).Ok?
    ensures Check(ms[..n], db).Ok? <==> k < n || n == 3
    ensures var report := Apply(ms[..n], db).value.1;
      Check(ms[..n], db).Ok? ==>
        && Check(ms[..n], db).value.pending == report.adopted + report.applied
        && (Check(ms[..n], db).value.status == Current <==> report.status == Current)
    ensures Check(ms[..n], db).Err? ==> Apply(ms[..n], db).value.0 == db
  {
    ImageAdvances(ms, n, k, db);
    CheckPredictsApply(ms[..n], db);
    SupportedState(ms, n, k, db);
  }

  lemma SupportedState(ms: seq<Migration>, n: nat, k: nat, db: Database)
    requires Shape(ms) && 1 <= n <= 3 && k <= n && At(ms, db, k)
    ensures PendingOf(ms[..n], db.ledger) == [] <==> k == n
    ensures db.schema.generation == Complete <==> k == 3
    ensures k == n ==> db == Stage(ms, n)
  {
    PrefixPending(ms, n, k);
    PrefixLedger(ms, k);
    assert db.ledger == Entries(ms[..k]);
  }

  /** An image older than the database refuses, and changes nothing. */
  lemma OlderImageRefuses(ms: seq<Migration>, n: nat, k: nat, db: Database)
    requires Shape(ms) && 1 <= n < k <= 3 && At(ms, db, k)
    ensures Apply(ms[..n], db) == Err(Safety) && Check(ms[..n], db) == Err(Safety)
    ensures Invoke(ms[..n], db) == db
  {
    var e := EntryOf(ms[n]);
    assert Entries(ms[..k])[n] == e;
    assert e in db.ledger;
    forall m | m in ms[..n] ensures EntryOf(m) != e {
      var i :| 0 <= i < n && ms[..n][i] == m;
      assert ms[i].id != ms[n].id;
    }
  }

  /** Each image carries a non-empty prefix of the list. */
  ghost predicate Images(images: seq<nat>) {
    forall i | 0 <= i < |images| :: 1 <= images[i] <= 3
  }

  /** Lock-serialised invocations by images carrying the first images[0], images[1], ... migrations. */
  ghost function RunImages(ms: seq<Migration>, images: seq<nat>, db: Database): Database
    requires |ms| == 3 && Images(images)
  {
    if images == [] then db
    else Invoke(ms[..images[|images| - 1]], RunImages(ms, images[..|images| - 1], db))
  }

  function Newest(images: seq<nat>, k: nat): nat {
    if images == [] then k
    else
      var earlier, last := Newest(images[..|images| - 1], k), images[|images| - 1];
      if earlier < last then last else earlier
  }

  lemma OneInvocation(ms: seq<Migration>, n: nat, k: nat, db: Database)
    requires Shape(ms) && 1 <= n <= 3 && At(ms, db, k)
    ensures At(ms, Invoke(ms[..n], db), if k < n then n else k)
    ensures n < k ==> Invoke(ms[..n], db) == db
  {
    if k <= n {
      ImageAdvances(ms, n, k, db);
    } else {
      OlderImageRefuses(ms, n, k, db);
    }
  }

  /**
   * For any order of invocations by any mixture of images, from any supported state: the database
   * ends at the stage of the newest image or, if it was further already, stays there.
   */
  lemma {:induction false} ImagesConverge(ms: seq<Migration>, images: seq<nat>, k: nat, db: Database)
    requires Shape(ms) && At(ms, db, k) && Images(images)
    ensures At(ms, RunImages(ms, images, db), Newest(images, k))
  {
    if images == [] {
    } else {
      var last := |images| - 1;
      ImagesConverge(ms, images[..last], k, db);
      OneInvocation(ms, images[last], Newest(images[..last], k), RunImages(ms, images[..last], db));
    }
  }

  lemma {:induction false} NewestGrows(images: seq<nat>, i: nat, k: nat)
    requires i <= |images|
    ensures Newest(images[..i], k) <= Newest(images, k)
    decreases |images|
  {
    if i == |images| {
      assert images[..i] == images;
    } else {
      var last := |images| - 1;
      assert images[..last][..i] == images[..i];
      NewestGrows(images[..last], i, k);
    }
  }

  lemma StageLedger(ms: seq<Migration>, k: nat, db: Database)
    requires Shape(ms) && At(ms, db, k)
    ensures db.ledger == Entries(ms[..k])
  {
    PrefixLedger(ms, 0);
  }

  lemma EntriesGrow(ms: seq<Migration>, j: nat, n: nat)
    requires |ms| == 3 && j <= n <= 3
    ensures Entries(ms[..j]) <= Entries(ms[..n]) <= Entries(ms)
  {
  }

  /** The ledger is always a prefix of the list's entries and never loses or changes one. */
  lemma LedgerOnlyGrows(ms: seq<Migration>, images: seq<nat>, i: nat, k: nat, db: Database)
    requires Shape(ms) && At(ms, db, k) && Images(images) && i <= |images|
    ensures Images(images[..i])
    ensures RunImages(ms, images[..i], db).ledger <= RunImages(ms, images, db).ledger <= Entries(ms)
  {
    ImagesConverge(ms, images[..i], k, db);
    ImagesConverge(ms, images, k, db);
    NewestGrows(images, i, k);
    StageLedger(ms, Newest(images[..i], k), RunImages(ms, images[..i], db));
    StageLedger(ms, Newest(images, k), RunImages(ms, images, db));
    EntriesGrow(ms, Newest(images[..i], k), Newest(images, k));
  }

  function Same(n: nat, i: nat): (s: seq<nat>)
    ensures |s| == i
  {
    if i == 0 then [] else Same(n, i - 1) + [n]
  }

  lemma {:induction false} SameAreNewest(n: nat, i: nat)
    requires 1 <= n <= 3
    ensures Images(Same(n, i))
    ensures Newest(Same(n, i), 0) == if i == 0 then 0 else n
  {
    if i == 0 {
    } else {
      SameAreNewest(n, i - 1);
      assert Same(n, i)[..i - 1] == Same(n, i - 1);
    }
  }

  /**
   * From an empty or untracked 1.0.0 database, of any number of runs of one image, whichever prefix
   * it carries, exactly the first applies and every later one reports `current`.  A check before a
   * run says the same, except that one of an image without the synchronous migration is refused
   * once nothing is pending.
   */
  lemma ExactlyOneApplies(ms: seq<Migration>, n: nat, db: Database, i: nat)
    requires Shape(ms) && 1 <= n <= 3 && (db == EMPTY || db == BASELINE)
    ensures Images(Same(n, i))
    ensures var before := RunImages(ms, Same(n, i), db);
      && Apply(ms[..n], before).Ok?
      && Apply(ms[..n], before).value.0 == Stage(ms, n)
      && Apply(ms[..n], before).value.1.status == (if i == 0 then Applied else Current)
      && (Check(ms[..n], before).Ok? <==> i == 0 || n == 3)
      && (Check(ms[..n], before).Ok? ==> (Check(ms[..n], before).value.status == Current <==> i > 0))
  {
    SameAreNewest(n, i);
    ImagesConverge(ms, Same(n, i), 0, db);
    var before, k := RunImages(ms, Same(n, i), db), if i == 0 then 0 else n;
    ImageAdvances(ms, n, k, before);
    CheckInSupportedStates(ms, n, k, before);
  }
}
