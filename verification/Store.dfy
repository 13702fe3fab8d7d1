// Both repositories as values: what one commit and one delete do to rows, generations and ledgers.
// The classes in InMemory.dfy and SqlRepository.dfy are proved equal to CommitNext and DeleteNext.
module Store {
  import opened Values
  import opened Contracts

  type Tenant = string
  type Rows = map<(Tenant, TableId), seq<Row>>

  datatype TableId = TableId(schema: string, table: string)

  datatype ForeignKey = ForeignKey(columns: seq<string>, target: TableId, targetColumns: seq<string>)

  datatype TableDef = TableDef(
    columns: map<string, FieldType>, uniqueKeys: seq<seq<string>>,
    required: set<string>, foreignKeys: seq<ForeignKey>)

  /**
   * Who enforces the constraints.  The in-memory store keeps each tenant's rows to themselves, looks
   * before it appends a row, and takes a null for equal to a null when it looks for references.  The
   * database judges each statement by the rows it leaves, never takes a null for equal to anything,
   * refuses nulls in required columns, and keeps one table for all tenants: a row policy shows each
   * tenant its own rows only, but keys and references are checked against everyone's.
   */
  datatype Rules = InStore | InDatabase

  datatype Catalog = Catalog(tables: map<TableId, TableDef>, rules: Rules)

  datatype Error =
    | DestinationInvalid
    | DestinationConflict
    | IdempotencyKeyReused
    | DeleteConflict
    | ContractInvalid
    | OutputLimitExceeded
    | DependencyUnavailable

  /** Whether t's writes are checked against the rows of u. */
  predicate Shares(cat: Catalog, t: Tenant, u: Tenant) {
    cat.rules.InStore? ==> u == t
  }

  /** `rows.get((tenant, schema, table), [])`, which is the part of a shared table that the tenant sees. */
  function At(rows: Rows, t: Tenant, id: TableId): seq<Row> {
    if (t, id) in rows then rows[(t, id)] else []
  }

  // ---- checks on one row ------------------------------------------------------

  ghost predicate Taken(existing: seq<Row>, row: Row, key: seq<string>) {
    && CNull !in Tuple(row, key)
    && exists item | item in existing :: Tuple(item, key) == Tuple(row, key)
  }

  ghost predicate Conflicts(def: TableDef, existing: seq<Row>, row: Row) {
    exists key | key in def.uniqueKeys :: Taken(existing, row, key)
  }

  ghost predicate Clashes(cat: Catalog, def: TableDef, rows: Rows, t: Tenant, id: TableId, row: Row) {
    exists u :: Shares(cat, t, u) && Conflicts(def, At(rows, u, id), row)
  }

  /** Some row of tenant u is what the foreign key asks for. */
  ghost predicate Meets(rows: Rows, u: Tenant, row: Row, fk: ForeignKey) {
    exists target | target in At(rows, u, fk.target) :: Tuple(target, fk.targetColumns) == Tuple(row, fk.columns)
  }

  ghost predicate Satisfied(cat: Catalog, rows: Rows, t: Tenant, row: Row, fk: ForeignKey) {
    CNull in Tuple(row, fk.columns) || exists u :: Shares(cat, t, u) && Meets(rows, u, row, fk)
  }

  ghost predicate ForeignKeysMet(cat: Catalog, def: TableDef, rows: Rows, t: Tenant, row: Row) {
    forall fk | fk in def.foreignKeys :: Satisfied(cat, rows, t, row, fk)
  }

  /** Note that a null target equals a null reference here, unlike in Satisfied. */
  predicate Refers(fk: ForeignKey, candidate: Row, row: Row) {
    Tuple(candidate, fk.columns) == Tuple(row, fk.targetColumns)
  }

  ghost predicate ReferredBy(cat: Catalog, rows: Rows, t: Tenant, id: TableId, row: Row, source: TableId) {
    && source in cat.tables
    && exists fk, candidate ::
         fk in cat.tables[source].foreignKeys && fk.target == id
         && candidate in At(rows, t, source) && Refers(fk, candidate, row)
  }

  ghost predicate HasReference(cat: Catalog, rows: Rows, t: Tenant, id: TableId, row: Row) {
    exists source :: ReferredBy(cat, rows, t, id, row, source)
  }

  // ---- staging a commit -----------------------------------------------------------

  /** One generated row on its way into a table.  `types` are the declared types of its columns. */
  datatype Insertion = Insertion(
    recordType: string, table: TableId, row: Row, keyColumns: set<string>,
    types: map<string, FieldType>, rank: nat)
  {
    function Key(): Row {
      map c | c in keyColumns && c in row :: row[c]
    }
  }

  ghost predicate TypesMatch(def: TableDef, types: map<string, FieldType>) {
    forall c | c in types :: c in def.columns && def.columns[c] == types[c]
  }

  /** The required columns are there, and in the database they are not null. */
  predicate Supplied(cat: Catalog, def: TableDef, row: Row) {
    && def.required <= row.Keys
    && (cat.rules.InDatabase? ==> forall c | c in def.required :: Canon(Get(row, c)) != CNull)
  }

  function Put(rows: Rows, t: Tenant, x: Insertion): Rows {
    rows[(t, x.table) := At(rows, t, x.table) + [x.row]]
  }

  /** The rows in which the new row's references are looked up. */
  function Seen(cat: Catalog, rows: Rows, t: Tenant, x: Insertion): Rows {
    if cat.rules.InStore? then rows else Put(rows, t, x)
  }

  /** Why an insertion is refused against the rows staged so far. */
  ghost function Refusal(cat: Catalog, rows: Rows, t: Tenant, x: Insertion): Option<Error> {
    if x.table !in cat.tables then Some(DestinationInvalid)
    else
      var def := cat.tables[x.table];
      if !Supplied(cat, def, x.row) || !TypesMatch(def, x.types) then Some(DestinationInvalid)
      else if !ForeignKeysMet(cat, def, Seen(cat, rows, t, x), t, x.row) then Some(DestinationConflict)
      else if Clashes(cat, def, rows, t, x.table, x.row) then Some(DestinationConflict)
      else None
  }

  /** Insert in order, stopping at the first refusal. */
  ghost function StageAll(cat: Catalog, rows: Rows, t: Tenant, ins: seq<Insertion>): Result<Rows, Error> {
    if ins == [] then Ok(rows)
    else
      var n := |ins| - 1;
      var earlier := StageAll(cat, rows, t, ins[..n]);
      if earlier.Err? then earlier
      else
        var refusal := Refusal(cat, earlier.value, t, ins[n]);
        if refusal.Some? then Err(refusal.value) else Ok(Put(earlier.value, t, ins[n]))
  }

  /** The rows an insertion sequence adds to one table, in order. */
  function RowsFor(ins: seq<Insertion>, id: TableId): seq<Row> {
    if ins == [] then []
    else
      var n := |ins| - 1;
      RowsFor(ins[..n], id) + (if ins[n].table == id then [ins[n].row] else [])
  }

  // ---- the written-key ledger --------------------------------------------------------

  datatype WrittenRow = WrittenRow(recordType: string, table: TableId, key: Row, ordinal: nat, rank: nat)

  function Entry(ins: seq<Insertion>, i: nat): WrittenRow
    requires i < |ins|
  {
    WrittenRow(ins[i].recordType, ins[i].table, ins[i].Key(), i, ins[i].rank)
  }

  function LedgerOf(ins: seq<Insertion>): (l: seq<WrittenRow>)
    ensures |l| == |ins|
    ensures forall i {:trigger l[i]} | 0 <= i < |ins| :: l[i] == Entry(ins, i)
  {
    seq(|ins|, i requires 0 <= i < |ins| => Entry(ins, i))
  }

  /** The sort key `(delete_rank, -insert_ordinal)`. */
  predicate NotAfter(a: WrittenRow, b: WrittenRow) {
    a.rank < b.rank || (a.rank == b.rank && a.ordinal >= b.ordinal)
  }

  ghost predicate InDeleteOrder(s: seq<WrittenRow>) {
    forall i, j | 0 <= i < j < |s| :: NotAfter(s[i], s[j])
  }

  function InsertEntry(s: seq<WrittenRow>, e: WrittenRow): (r: seq<WrittenRow>)
    ensures multiset(r) == multiset(s) + multiset{e}
  {
    if s == [] then [e]
    else if NotAfter(s[0], e) && !NotAfter(e, s[0]) then
      assert s == [s[0]] + s[1..];
      [s[0]] + InsertEntry(s[1..], e)
    else [e] + s
  }

  lemma {:induction false} InsertEntryOrdered(s: seq<WrittenRow>, e: WrittenRow)
    requires InDeleteOrder(s)
    ensures InDeleteOrder(InsertEntry(s, e))
  {
    if s != [] && NotAfter(s[0], e) && !NotAfter(e, s[0]) {
      InsertEntryOrdered(s[1..], e);
      var t := InsertEntry(s[1..], e);
      forall x | x in t ensures NotAfter(s[0], x) {
        assert x in multiset(t);
        assert x == e || x in s[1..];
      }
    }
  }

  /** `sorted(written, key=lambda item: (item.delete_rank, -item.insert_ordinal))` */
  function SortLedger(l: seq<WrittenRow>): (r: seq<WrittenRow>)
    ensures multiset(r) == multiset(l)
  {
    if l == [] then []
    else
      assert l == l[..|l| - 1] + [l[|l| - 1]];
      InsertEntry(SortLedger(l[..|l| - 1]), l[|l| - 1])
  }

  lemma {:induction false} SortLedgerOrdered(l: seq<WrittenRow>)
    ensures InDeleteOrder(SortLedger(l))
  {
    if l == [] {
    } else {
      SortLedgerOrdered(l[..|l| - 1]);
      InsertEntryOrdered(SortLedger(l[..|l| - 1]), l[|l| - 1]);
    }
  }

  /** Plan order gives later record types smaller delete ranks. */
  ghost predicate RanksFall(ins: seq<Insertion>) {
    forall i, j | 0 <= i < j < |ins| :: ins[j].rank <= ins[i].rank
  }

  lemma LastEntryStrict(ins: seq<Insertion>)
    requires ins != [] && RanksFall(ins)
    ensures forall i | 0 <= i < |ins| - 1 :: !NotAfter(LedgerOf(ins)[i], LedgerOf(ins)[|ins| - 1])
  {
  }

  lemma LastEntryLeads(ins: seq<Insertion>, s: seq<WrittenRow>)
    requires ins != [] && RanksFall(ins)
    requires multiset(s) == multiset(LedgerOf(ins)) && InDeleteOrder(s)
    ensures s != [] && s[0] == LedgerOf(ins)[|ins| - 1]
  {
    var l, n := LedgerOf(ins), |ins| - 1;
    LastEntryStrict(ins);
    assert l[n] in multiset(l);
    assert l[n] in multiset(s);
    var k :| 0 <= k < |s| && s[k] == l[n];
    assert s[0] in multiset(s);
    assert s[0] in multiset(l);
    var i :| 0 <= i < |l| && l[i] == s[0];
    assert k > 0 ==> NotAfter(s[0], s[k]);
  }

  lemma SameRest(s: seq<WrittenRow>, l: seq<WrittenRow>)
    requires |s| == |l| > 0 && multiset(s) == multiset(l) && s[0] == l[|l| - 1]
    ensures multiset(s[1..]) == multiset(l[..|l| - 1])
  {
    assert s == [s[0]] + s[1..] && l == l[..|l| - 1] + [s[0]];
    assert multiset(s[1..]) == multiset(s) - multiset{s[0]};
  }

  /** Whatever sorts the ledger by `(delete_rank, insert_ordinal DESC)` reverses the insertions. */
  lemma {:induction false} DeleteOrderReversesInsertion(ins: seq<Insertion>, s: seq<WrittenRow>)
    requires RanksFall(ins)
    requires multiset(s) == multiset(LedgerOf(ins)) && InDeleteOrder(s)
    ensures s == Reverse(LedgerOf(ins))
    decreases |ins|
  {
    var l := LedgerOf(ins);
    assert |s| == |multiset(s)| == |multiset(l)| == |l|;
    if ins == [] {
    } else {
      var n := |ins| - 1;
      LastEntryLeads(ins, s);
      assert LedgerOf(ins[..n]) == l[..n];
      SameRest(s, l);
      DeleteOrderReversesInsertion(ins[..n], s[1..]);
    }
  }

  lemma SortedLedgerReverses(ins: seq<Insertion>)
    requires RanksFall(ins)
    ensures SortLedger(LedgerOf(ins)) == Reverse(LedgerOf(ins))
  {
    SortLedgerOrdered(LedgerOf(ins));
    DeleteOrderReversesInsertion(ins, SortLedger(LedgerOf(ins)));
  }

  // ---- undoing a ledger ----------------------------------------------------------------

  /** Values are compared as Python compares them. */
  predicate RowMatches(row: Row, key: Row) {
    forall c | c in key :: Canon(Get(row, c)) == Canon(key[c])
  }

  /** The indices of the rows that carry the written key. */
  function Matches(table: seq<Row>, key: Row): (m: seq<nat>)
    ensures forall k {:trigger m[k]} | 0 <= k < |m| :: m[k] < |table| && RowMatches(table[m[k]], key)
  {
    if table == [] then []
    else
      var n := |table| - 1;
      var earlier := Matches(table[..n], key);
      if RowMatches(table[n], key) then earlier + [n] else earlier
  }

  lemma {:induction false} MatchesHas(table: seq<Row>, key: Row, i: nat)
    requires i < |table| && RowMatches(table[i], key)
    ensures i in Matches(table, key)
  {
    var n := |table| - 1;
    if i == n {
    } else {
      assert table[..n][i] == table[i];
      MatchesHas(table[..n], key, i);
    }
  }

  lemma MatchesOnly(table: seq<Row>, key: Row, i: nat)
    requires i < |table| && RowMatches(table[i], key) && |Matches(table, key)| == 1
    ensures Matches(table, key)[0] == i
  {
    MatchesHas(table, key, i);
  }

  /** `column = value` is never true of a null in the database. */
  predicate Filled(key: Row) {
    forall c | c in key :: Canon(key[c]) != CNull
  }

  function Found(cat: Catalog, table: seq<Row>, key: Row): (m: seq<nat>)
    ensures forall k {:trigger m[k]} | 0 <= k < |m| :: m[k] < |table|
  {
    if cat.rules.InDatabase? && !Filled(key) then [] else Matches(table, key)
  }

  function Without(rows: Rows, t: Tenant, id: TableId, k: nat): Rows
    requires k < |At(rows, t, id)|
  {
    rows[(t, id) := At(rows, t, id)[..k] + At(rows, t, id)[k + 1..]]
  }

  /** A reference without nulls from a candidate row to a row of the table. */
  ghost predicate RealReference(
    cat: Catalog, rows: Rows, t: Tenant, id: TableId, row: Row, source: TableId, fk: ForeignKey, candidate: Row)
  {
    && source in cat.tables && fk in cat.tables[source].foreignKeys && fk.target == id
    && candidate in At(rows, t, source) && Refers(fk, candidate, row) && CNull !in Tuple(candidate, fk.columns)
  }

  /** With the row gone, the reference of some row of tenant u to it has no target left. */
  ghost predicate OrphansOf(cat: Catalog, after: Rows, u: Tenant, id: TableId, row: Row) {
    exists source, fk, candidate ::
      RealReference(cat, after, u, id, row, source, fk, candidate) && !Satisfied(cat, after, u, candidate, fk)
  }

  ghost predicate LeavesOrphan(cat: Catalog, after: Rows, t: Tenant, id: TableId, row: Row) {
    exists u :: Shares(cat, t, u) && OrphansOf(cat, after, u, id, row)
  }

  /** A live reference keeps row k from being removed. */
  ghost predicate Pinned(cat: Catalog, rows: Rows, t: Tenant, id: TableId, k: nat)
    requires k < |At(rows, t, id)|
  {
    if cat.rules.InStore? then HasReference(cat, rows, t, id, At(rows, t, id)[k])
    else LeavesOrphan(cat, Without(rows, t, id, k), t, id, At(rows, t, id)[k])
  }

  /** Remove the one row a ledger entry names; None stands for DELETE_CONFLICT and rollback. */
  ghost function Erase(cat: Catalog, rows: Rows, t: Tenant, w: WrittenRow): Option<Rows> {
    var m := Found(cat, At(rows, t, w.table), w.key);
    if |m| != 1 || Pinned(cat, rows, t, w.table, m[0]) then None else Some(Without(rows, t, w.table, m[0]))
  }

  ghost function Unwind(cat: Catalog, rows: Rows, t: Tenant, todo: seq<WrittenRow>): Option<Rows> {
    if todo == [] then Some(rows)
    else
      var next := Erase(cat, rows, t, todo[0]);
      if next.None? then None else Unwind(cat, next.value, t, todo[1..])
  }

  // ---- the whole state -----------------------------------------------------------------

  datatype GenerationState = COMMITTED | DELETED

  /** What `GenerationResult` copies from the write. */
  datatype Header = Header(
    generationId: string, requestDigest: string, contractDigest: string, dataDigest: string,
    seed: string, provider: string, destinations: seq<(TableId, nat)>, recordCount: nat, byteCount: nat)

  datatype Generation = Generation(
    header: Header, state: GenerationState, createdAt: int, deletedAt: Option<int>)

  datatype Db = Db(
    rows: Rows,
    generations: map<(Tenant, string), Generation>,
    idempotency: map<(Tenant, string), string>,
    digests: map<(Tenant, string), string>,
    written: map<(Tenant, string), seq<WrittenRow>>)

  /** Every key the code reads with `[...]` is there. */
  predicate Tracked(db: Db) {
    && db.generations.Keys <= db.written.Keys
    && db.idempotency.Keys <= db.digests.Keys
  }

  function FindIdempotent(db: Db, t: Tenant, key: string): Option<Generation> {
    if (t, key) !in db.idempotency || db.idempotency[(t, key)] == "" then None
    else
      var id := (t, db.idempotency[(t, key)]);
      if id in db.generations then Some(db.generations[id]) else None
  }

  /** A commit as the store sees it. */
  datatype Batch = Batch(header: Header, ins: seq<Insertion>)

  datatype Reply =
    | Committed(result: Generation, replayed: bool)
    | Refused(error: Error)
    | Missing
    | Deleted(result: Generation)

  /** The metadata's own constraints: generation ids and idempotency keys are unique per tenant. */
  predicate MetadataTaken(cat: Catalog, db: Db, t: Tenant, key: string, id: string) {
    cat.rules.InDatabase? && ((t, id) in db.generations || (t, key) in db.idempotency)
  }

  /** The database keeps the request digest in the generation itself. */
  function PriorDigest(cat: Catalog, db: Db, t: Tenant, key: string, existing: Generation): string
    requires (t, key) in db.digests
  {
    if cat.rules.InStore? then db.digests[(t, key)] else existing.header.requestDigest
  }

  function AfterCommit(db: Db, t: Tenant, key: string, b: Batch, now: int, rows: Rows): (r: Db)
    requires Tracked(db)
    ensures Tracked(r)
  {
    var id := (t, b.header.generationId);
    Db(rows,
       db.generations[id := Generation(b.header, COMMITTED, now, None)],
       db.idempotency[(t, key) := b.header.generationId],
       db.digests[(t, key) := b.header.requestDigest],
       db.written[id := LedgerOf(b.ins)])
  }

  ghost function CommitNext(cat: Catalog, db: Db, t: Tenant, key: string, b: Batch, now: int): (r: (Db, Reply))
    requires Tracked(db)
    ensures Tracked(r.0)
  {
    var existing := FindIdempotent(db, t, key);
    if existing.Some? then
      if PriorDigest(cat, db, t, key, existing.value) != b.header.requestDigest
      then (db, Refused(IdempotencyKeyReused))
      else (db, Committed(existing.value, true))
    else
      var staged := StageAll(cat, db.rows, t, b.ins);
      if staged.Err? then (db, Refused(staged.error))
      else if MetadataTaken(cat, db, t, key, b.header.generationId) then (db, Refused(DestinationConflict))
      else
        (AfterCommit(db, t, key, b, now, staged.value), Committed(Generation(b.header, COMMITTED, now, None), false))
  }

  /** The commit of a key that is not taken stands or falls with its rows and the metadata. */
  lemma CommitOfNewKey(cat: Catalog, db: Db, t: Tenant, key: string, b: Batch, now: int)
    requires Tracked(db) && FindIdempotent(db, t, key) == None
    ensures CommitNext(cat, db, t, key, b, now) ==
      match StageAll(cat, db.rows, t, b.ins)
      case Err(e) => (db, Refused(e))
      case Ok(rows) =>
        if MetadataTaken(cat, db, t, key, b.header.generationId) then (db, Refused(DestinationConflict))
        else (AfterCommit(db, t, key, b, now, rows), Committed(Generation(b.header, COMMITTED, now, None), false))
  {
  }

  ghost predicate Writes(cat: Catalog, db: Db, t: Tenant, key: string, b: Batch) {
    && FindIdempotent(db, t, key) == None && StageAll(cat, db.rows, t, b.ins).Ok?
    && !MetadataTaken(cat, db, t, key, b.header.generationId)
  }

  /** A commit either records the staged rows under a new success, or leaves everything as it was. */
  lemma CommitWritesOrNot(cat: Catalog, db: Db, t: Tenant, key: string, b: Batch, now: int)
    requires Tracked(db)
    ensures var (after, reply) := CommitNext(cat, db, t, key, b, now);
      && (reply.Committed? || reply.Refused?)
      && (Writes(cat, db, t, key, b) <==> reply.Committed? && !reply.replayed)
      && if Writes(cat, db, t, key, b)
         then after == AfterCommit(db, t, key, b, now, StageAll(cat, db.rows, t, b.ins).value)
              && reply.result == Generation(b.header, COMMITTED, now, None)
         else after == db
  {
  }

  ghost function DeleteNext(cat: Catalog, db: Db, t: Tenant, generationId: string, now: int): (r: (Db, Reply))
    requires Tracked(db)
    ensures Tracked(r.0)
  {
    var id := (t, generationId);
    if id !in db.generations then (db, Missing)
    else if db.generations[id].state == DELETED then (db, Deleted(db.generations[id]))
    else
      var undone := Unwind(cat, db.rows, t, SortLedger(db.written[id]));
      if undone.None? then (db, Refused(DeleteConflict))
      else
        var result := db.generations[id].(state := DELETED, deletedAt := Some(now));
        (db.(rows := undone.value, generations := db.generations[id := result]), Deleted(result))
  }

  /** Besides rows, a delete changes one generation's state and deletion time. */
  lemma DeleteMarks(cat: Catalog, db: Db, t: Tenant, generationId: string, now: int)
    requires Tracked(db)
    ensures var after := DeleteNext(cat, db, t, generationId, now).0;
      || after == db
      || ((t, generationId) in db.generations
          && var marked := db.generations[(t, generationId)].(state := DELETED, deletedAt := Some(now));
          && after == db.(rows := after.rows, generations := db.generations[(t, generationId) := marked]))
  {
  }

  datatype Op =
    | Commit(tenant: Tenant, key: string, batch: Batch, now: int)
    | Delete(tenant: Tenant, generationId: string, now: int)

  ghost function Next(cat: Catalog, db: Db, op: Op): (r: (Db, Reply))
    requires Tracked(db)
    ensures Tracked(r.0)
  {
    match op
    case Commit(t, key, batch, now) => CommitNext(cat, db, t, key, batch, now)
    case Delete(t, id, now) => DeleteNext(cat, db, t, id, now)
  }

  ghost function Run(cat: Catalog, db: Db, ops: seq<Op>): (r: Db)
    requires Tracked(db)
    ensures Tracked(r)
  {
    if ops == [] then db
    else Next(cat, Run(cat, db, ops[..|ops| - 1]), ops[|ops| - 1]).0
  }

  // ---- basic facts ---------------------------------------------------------------------

  lemma {:induction false} RowsForHas(ins: seq<Insertion>, k: nat)
    requires k < |ins|
    ensures ins[k].row in RowsFor(ins, ins[k].table)
  {
    if k < |ins| - 1 { RowsForHas(ins[..|ins| - 1], k); }
  }

  lemma {:induction false} RowsForFrom(ins: seq<Insertion>, id: TableId, row: Row) returns (m: nat)
    requires row in RowsFor(ins, id)
    ensures m < |ins| && ins[m].table == id && ins[m].row == row
  {
    var n := |ins| - 1;
    if row in RowsFor(ins[..n], id) { m := RowsForFrom(ins[..n], id, row); } else { m := n; }
  }

  /** A successful staging appends each table's rows in insertion order and touches nothing else. */
  lemma {:induction false} StagedRows(cat: Catalog, rows: Rows, t: Tenant, ins: seq<Insertion>, u: Tenant, id: TableId)
    requires StageAll(cat, rows, t, ins).Ok?
    ensures At(StageAll(cat, rows, t, ins).value, u, id) ==
            At(rows, u, id) + (if u == t then RowsFor(ins, id) else [])
  {
    if ins == [] {
    } else {
      var n := |ins| - 1;
      StagedRows(cat, rows, t, ins[..n], u, id);
      var mid := StageAll(cat, rows, t, ins[..n]).value;
      assert StageAll(cat, rows, t, ins).value == Put(mid, t, ins[n]);
      if u == t && id == ins[n].table {
        assert At(mid, t, id) + [ins[n].row] == At(rows, t, id) + (RowsFor(ins[..n], id) + [ins[n].row]);
      }
    }
  }

  lemma {:induction false} StagePrefix(cat: Catalog, rows: Rows, t: Tenant, ins: seq<Insertion>, k: nat)
    requires k <= |ins|
    ensures StageAll(cat, rows, t, ins).Ok? ==> StageAll(cat, rows, t, ins[..k]).Ok?
    ensures StageAll(cat, rows, t, ins[..k]).Err? ==> StageAll(cat, rows, t, ins) == StageAll(cat, rows, t, ins[..k])
    decreases |ins|
  {
    if k == |ins| {
      assert ins[..k] == ins;
    } else {
      var n := |ins| - 1;
      assert ins[..n][..k] == ins[..k];
      StagePrefix(cat, rows, t, ins[..n], k);
    }
  }

  /** In a successful staging every insertion was acceptable to the rows staged before it. */
  lemma TakenAt(cat: Catalog, rows: Rows, t: Tenant, ins: seq<Insertion>, k: nat)
    requires StageAll(cat, rows, t, ins).Ok? && k < |ins|
    ensures StageAll(cat, rows, t, ins[..k]).Ok?
    ensures Refusal(cat, StageAll(cat, rows, t, ins[..k]).value, t, ins[k]) == None
  {
    StagePrefix(cat, rows, t, ins, k + 1);
    StagePrefix(cat, rows, t, ins, k);
    assert ins[..k + 1][..k] == ins[..k];
  }
}
