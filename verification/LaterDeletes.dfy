// A generation deleted at any later time: exactly what can stop it.
module LaterDeletes {
  import opened Values
  import opened Store
  import opened Integrity
  import opened Undo
  import opened Conservation
  import opened RulesCompared
  import opened Judgements

  // ---- a generation refers to itself backwards only -------------------------------------------

  /** A reference that counts: null for null in the in-memory store, without nulls in the database. */
  ghost predicate Counts(cat: Catalog, fk: ForeignKey, candidate: Row, row: Row) {
    Refers(fk, candidate, row) && (cat.rules.InDatabase? ==> CNull !in Tuple(candidate, fk.columns))
  }

  ghost predicate RefersTo(cat: Catalog, from: Insertion, to: Insertion) {
    from.table in cat.tables && exists fk | fk in cat.tables[from.table].foreignKeys ::
      fk.target == to.table && Counts(cat, fk, from.row, to.row)
  }

  /** No row refers to one that comes after it, nor in the in-memory store to itself. */
  ghost predicate BackwardOnly(cat: Catalog, ins: seq<Insertion>) {
    forall j, i | 0 <= j <= i < |ins| && (cat.rules.InDatabase? ==> j < i) :: !RefersTo(cat, ins[j], ins[i])
  }

  lemma NotForward(cat: Catalog, rows: Rows, t: Tenant, ins: seq<Insertion>, j: nat, i: nat)
    requires TargetsAreKeys(cat) && StageAll(cat, rows, t, ins).Ok?
    requires j <= i < |ins| && (cat.rules.InDatabase? ==> j < i) && UndoableRow(cat, ins[i])
    ensures !RefersTo(cat, ins[j], ins[i])
  {
    if RefersTo(cat, ins[j], ins[i]) {
      var fk :| fk in cat.tables[ins[j].table].foreignKeys && fk.target == ins[i].table
        && Counts(cat, fk, ins[j].row, ins[i].row);
      TakenAt(cat, rows, t, ins, i);
      assert HasKey(cat, ins[i].table, fk.targetColumns) && CNull !in Tuple(ins[i].row, fk.targetColumns);
      var u, target := FirstTarget(cat, rows, t, ins, j, i, fk);
      NotTaken(cat, StageAll(cat, rows, t, ins[..i]).value, t, ins[i], u, fk.targetColumns);
    }
  }

  /** What met the reference of row j when it came in is there when row i comes in. */
  lemma FirstTarget(cat: Catalog, rows: Rows, t: Tenant, ins: seq<Insertion>, j: nat, i: nat, fk: ForeignKey)
      returns (u: Tenant, target: Row)
    requires StageAll(cat, rows, t, ins).Ok? && j <= i < |ins| && (cat.rules.InDatabase? ==> j < i)
    requires ins[j].table in cat.tables && fk in cat.tables[ins[j].table].foreignKeys
    requires CNull !in Tuple(ins[j].row, fk.columns)
    ensures StageAll(cat, rows, t, ins[..i]).Ok? && Shares(cat, t, u)
    ensures target in At(StageAll(cat, rows, t, ins[..i]).value, u, fk.target)
    ensures Tuple(target, fk.targetColumns) == Tuple(ins[j].row, fk.columns)
  {
    TakenAt(cat, rows, t, ins, j);
    var m := if cat.rules.InStore? then j else j + 1;
    var seen := Seen(cat, StageAll(cat, rows, t, ins[..j]).value, t, ins[j]);
    SeenIsStaged(cat, rows, t, ins, j);
    assert Satisfied(cat, seen, t, ins[j].row, fk);
    u :| Shares(cat, t, u) && Meets(seen, u, ins[j].row, fk);
    target :| target in At(seen, u, fk.target) && Tuple(target, fk.targetColumns) == Tuple(ins[j].row, fk.columns);
    StagePrefix(cat, rows, t, ins, i);
    StagedStays(cat, rows, t, ins, m, i, u, fk.target, target);
  }

  lemma SeenIsStaged(cat: Catalog, rows: Rows, t: Tenant, ins: seq<Insertion>, j: nat)
    requires StageAll(cat, rows, t, ins).Ok? && j < |ins|
    ensures var m := if cat.rules.InStore? then j else j + 1;
      && StageAll(cat, rows, t, ins[..j]).Ok?
      && StageAll(cat, rows, t, ins[..m]) == Ok(Seen(cat, StageAll(cat, rows, t, ins[..j]).value, t, ins[j]))
  {
    TakenAt(cat, rows, t, ins, j);
    assert ins[..j + 1][..j] == ins[..j];
  }

  lemma StagedStays(
    cat: Catalog, rows: Rows, t: Tenant, ins: seq<Insertion>, j: nat, i: nat, u: Tenant, id: TableId, row: Row)
    requires j <= i <= |ins| && StageAll(cat, rows, t, ins[..j]).Ok? && StageAll(cat, rows, t, ins[..i]).Ok?
    requires row in At(StageAll(cat, rows, t, ins[..j]).value, u, id)
    ensures row in At(StageAll(cat, rows, t, ins[..i]).value, u, id)
  {
    StagedRows(cat, rows, t, ins[..j], u, id);
    StagedRows(cat, rows, t, ins[..i], u, id);
    RowsForGrows(ins, j, i, id);
  }

  lemma {:induction false} RowsForGrows(ins: seq<Insertion>, j: nat, i: nat, id: TableId)
    requires j <= i <= |ins|
    ensures RowsFor(ins[..j], id) <= RowsFor(ins[..i], id)
    decreases i - j
  {
    if j == i {
    } else {
      RowsForGrows(ins, j, i - 1, id);
      assert ins[..i][..i - 1] == ins[..i - 1];
    }
  }

  lemma StagedBackwardOnly(cat: Catalog, rows: Rows, t: Tenant, ins: seq<Insertion>)
    requires TargetsAreKeys(cat) && StageAll(cat, rows, t, ins).Ok?
    requires forall x | x in ins :: UndoableRow(cat, x)
    ensures BackwardOnly(cat, ins)
  {
    forall j, i | 0 <= j <= i < |ins| && (cat.rules.InDatabase? ==> j < i) ensures !RefersTo(cat, ins[j], ins[i]) {
      NotForward(cat, rows, t, ins, j, i);
    }
  }

  // ---- taking a generation out of its surroundings ----------------------------------------------

  /** A tenant's tables without one generation: what stands before its rows, and after. */
  type Around = TableId -> seq<Row>

  ghost predicate Surround(rows: Rows, t: Tenant, pre: Around, ins: seq<Insertion>, post: Around) {
    forall id :: SurroundAt(rows, t, pre, ins, post, id)
  }

  ghost predicate SurroundAt(rows: Rows, t: Tenant, pre: Around, ins: seq<Insertion>, post: Around, id: TableId) {
    At(rows, t, id) == pre(id) + RowsFor(ins, id) + post(id)
  }

  /** A row that is not the generation's: another of the tenant's, or in the database another tenant's. */
  ghost predicate Outside(cat: Catalog, rows: Rows, t: Tenant, pre: Around, post: Around, source: TableId, r: Row) {
    || r in pre(source) || r in post(source)
    || (cat.rules.InDatabase? && exists u :: u != t && r in At(rows, u, source))
  }

  /** Some row outside the generation refers to this one. */
  ghost predicate ReferredFromOutside(
    cat: Catalog, rows: Rows, t: Tenant, pre: Around, post: Around, x: Insertion)
  {
    exists source, fk, candidate :: OutsideReference(cat, rows, t, pre, post, x, source, fk, candidate)
  }

  ghost predicate OutsideReference(
    cat: Catalog, rows: Rows, t: Tenant, pre: Around, post: Around, x: Insertion,
    source: TableId, fk: ForeignKey, candidate: Row)
  {
    && source in cat.tables && fk in cat.tables[source].foreignKeys && fk.target == x.table
    && Outside(cat, rows, t, pre, post, source, candidate) && Counts(cat, fk, candidate, x.row)
  }

  /** Only the other tenants' rows of the state matter. */
  lemma OutsideSame(cat: Catalog, a: Rows, b: Rows, t: Tenant, pre: Around, post: Around, x: Insertion)
    requires (forall u | u != t :: SameFor(a, b, u)) && ReferredFromOutside(cat, a, t, pre, post, x)
    ensures ReferredFromOutside(cat, b, t, pre, post, x)
  {
    var source, fk, candidate :| OutsideReference(cat, a, t, pre, post, x, source, fk, candidate);
    if u :| u != t && candidate in At(a, u, source) {
      assert SameFor(a, b, u) && At(a, u, source) == At(b, u, source);
    }
    assert OutsideReference(cat, b, t, pre, post, x, source, fk, candidate);
  }

  /** In memory a reference to the last row of a generation comes from outside. */
  lemma LastReferredFromOutside(
    cat: Catalog, rows: Rows, t: Tenant, pre: Around, ins: seq<Insertion>, post: Around)
    requires cat.rules.InStore?
    requires ins != [] && Surround(rows, t, pre, ins, post) && BackwardOnly(cat, ins)
    ensures var x := ins[|ins| - 1];
      HasReference(cat, rows, t, x.table, x.row) <==> ReferredFromOutside(cat, rows, t, pre, post, x)
  {
    var x := ins[|ins| - 1];
    if HasReference(cat, rows, t, x.table, x.row) {
      var source :| ReferredBy(cat, rows, t, x.table, x.row, source);
      var fk, candidate :|
        fk in cat.tables[source].foreignKeys && fk.target == x.table
        && candidate in At(rows, t, source) && Refers(fk, candidate, x.row);
      assert SurroundAt(rows, t, pre, ins, post, source);
      if candidate in RowsFor(ins, source) {
        var j := RowsForFrom(ins, source, candidate);
        assert RefersTo(cat, ins[j], x);
      }
      assert OutsideReference(cat, rows, t, pre, post, x, source, fk, candidate);
    }
    if ReferredFromOutside(cat, rows, t, pre, post, x) {
      var source, fk, candidate :| OutsideReference(cat, rows, t, pre, post, x, source, fk, candidate);
      assert SurroundAt(rows, t, pre, ins, post, source) && candidate in At(rows, t, source);
      assert ReferredBy(cat, rows, t, x.table, x.row, source);
    }
  }

  /** In the database a real reference to it from any other row does. */
  lemma OtherIsOutside(
    cat: Catalog, rows: Rows, t: Tenant, pre: Around, ins: seq<Insertion>, post: Around, k: nat)
    requires cat.rules.InDatabase? && ins != [] && BackwardOnly(cat, ins)
    requires var x := ins[|ins| - 1];
      && k < |At(rows, t, x.table)| && At(rows, t, x.table)[k] == x.row
      && Surround(Without(rows, t, x.table, k), t, pre, ins[..|ins| - 1], post)
    requires ReferredByOther(cat, rows, t, ins[|ins| - 1].table, k)
    ensures ReferredFromOutside(cat, rows, t, pre, post, ins[|ins| - 1])
  {
    var n := |ins| - 1;
    var x := ins[n];
    var after := Without(rows, t, x.table, k);
    var u, source, fk, candidate :| RealReference(cat, after, u, x.table, x.row, source, fk, candidate);
    if u == t {
      assert SurroundAt(after, t, pre, ins[..n], post, source);
      if candidate in RowsFor(ins[..n], source) {
        var j := RowsForFrom(ins[..n], source, candidate);
        assert RefersTo(cat, ins[j], x);
      }
    } else {
      assert candidate in At(rows, u, source);
    }
    assert OutsideReference(cat, rows, t, pre, post, x, source, fk, candidate);
  }

  lemma OutsideIsOther(
    cat: Catalog, rows: Rows, t: Tenant, pre: Around, ins: seq<Insertion>, post: Around, k: nat)
    requires cat.rules.InDatabase? && ins != [] && BackwardOnly(cat, ins)
    requires var x := ins[|ins| - 1];
      && k < |At(rows, t, x.table)| && At(rows, t, x.table)[k] == x.row
      && Surround(Without(rows, t, x.table, k), t, pre, ins[..|ins| - 1], post)
    requires ReferredFromOutside(cat, rows, t, pre, post, ins[|ins| - 1])
    ensures ReferredByOther(cat, rows, t, ins[|ins| - 1].table, k)
  {
    var n := |ins| - 1;
    var x := ins[n];
    var after := Without(rows, t, x.table, k);
    var source, fk, candidate :| OutsideReference(cat, rows, t, pre, post, x, source, fk, candidate);
    assert SurroundAt(after, t, pre, ins[..n], post, source);
    var u := t;
    if candidate !in pre(source) && candidate !in post(source) {
      u :| u != t && candidate in At(rows, u, source);
    }
    assert candidate in At(after, u, source);
    assert RealReference(cat, after, u, x.table, x.row, source, fk, candidate);
  }

  /** The written key finds its own row and no other. */
  lemma OnlyMatch(def: TableDef, table: seq<Row>, x: Insertion, k: nat)
    requires k < |table| && table[k] == x.row && KeyIdentifies(def, x)
    requires forall key | key in def.uniqueKeys :: Distinct(table, key)
    ensures Matches(table, x.Key()) == [k]
  {
    var u :| u in def.uniqueKeys && CNull !in Tuple(x.row, u) && forall c | c in u :: c in x.keyColumns;
    OwnRowMatches(x);
    forall i | 0 <= i < |table| && RowMatches(table[i], x.Key()) ensures i == k {
      MatchingTuple(table[i], x, u);
      assert Distinct(table, u);
    }
    MatchesExactly(table, x.Key(), k);
  }

  /** Erasing the last row of a generation from among others. */
  lemma EraseLast(cat: Catalog, rows: Rows, t: Tenant, pre: Around, ins: seq<Insertion>, post: Around, w: WrittenRow)
    requires ins != [] && Surround(rows, t, pre, ins, post) && BackwardOnly(cat, ins)
    requires KeysHold(cat, rows, t) && TargetsAreKeys(cat) && Identified(cat, ins)
    requires var x := ins[|ins| - 1]; w.table == x.table && w.key == x.Key()
    ensures var x := ins[|ins| - 1];
      && (Erase(cat, rows, t, w).Some? <==> !ReferredFromOutside(cat, rows, t, pre, post, x))
      && (Erase(cat, rows, t, w).Some? ==>
            && Surround(Erase(cat, rows, t, w).value, t, pre, ins[..|ins| - 1], post)
            && KeysHold(cat, Erase(cat, rows, t, w).value, t)
            && forall u | u != t :: SameFor(Erase(cat, rows, t, w).value, rows, u))
  {
    var x := ins[|ins| - 1];
    var k := OwnPlace(cat, rows, t, pre, ins, post);
    AfterErase(cat, rows, t, pre, ins, post, k);
    if cat.rules.InStore? {
      LastReferredFromOutside(cat, rows, t, pre, ins, post);
    } else {
      if ReferredByOther(cat, rows, t, x.table, k) { OtherIsOutside(cat, rows, t, pre, ins, post, k); }
      if ReferredFromOutside(cat, rows, t, pre, post, x) { OutsideIsOther(cat, rows, t, pre, ins, post, k); }
      PinnedExactly(cat, rows, t, x.table, k);
    }
  }

  /** The last row stands right after the generation's other rows, and its key finds it there. */
  lemma OwnPlace(cat: Catalog, rows: Rows, t: Tenant, pre: Around, ins: seq<Insertion>, post: Around) returns (k: nat)
    requires ins != [] && Surround(rows, t, pre, ins, post) && KeysHold(cat, rows, t)
    requires var x := ins[|ins| - 1]; x.table in cat.tables && KeyIdentifies(cat.tables[x.table], x)
    ensures var x := ins[|ins| - 1];
      && k == |pre(x.table) + RowsFor(ins[..|ins| - 1], x.table)| && k < |At(rows, t, x.table)|
      && At(rows, t, x.table)[k] == x.row && Matches(At(rows, t, x.table), x.Key()) == [k]
  {
    var n := |ins| - 1;
    var x, id := ins[n], ins[n].table;
    var before := pre(id) + RowsFor(ins[..n], id);
    assert SurroundAt(rows, t, pre, ins, post, id);
    assert RowsFor(ins, id) == RowsFor(ins[..n], id) + [x.row];
    assert At(rows, t, id) == before + [x.row] + post(id);
    k := |before|;
    KeysOf(cat, rows, t, id);
    OnlyMatch(cat.tables[id], At(rows, t, id), x, k);
  }

  lemma KeysOf(cat: Catalog, rows: Rows, t: Tenant, id: TableId)
    requires KeysHold(cat, rows, t) && id in cat.tables
    ensures forall key | key in cat.tables[id].uniqueKeys :: Distinct(At(rows, t, id), key)
  {
    assert forall key :: key in cat.tables[id].uniqueKeys ==> HasKey(cat, id, key);
  }

  lemma AfterErase(cat: Catalog, rows: Rows, t: Tenant, pre: Around, ins: seq<Insertion>, post: Around, k: nat)
    requires ins != [] && Surround(rows, t, pre, ins, post) && KeysHold(cat, rows, t)
    requires var x := ins[|ins| - 1];
      k == |pre(x.table) + RowsFor(ins[..|ins| - 1], x.table)| && k < |At(rows, t, x.table)|
    ensures var after := Without(rows, t, ins[|ins| - 1].table, k);
      Surround(after, t, pre, ins[..|ins| - 1], post) && KeysHold(cat, after, t)
  {
    var x, shorter := ins[|ins| - 1], ins[..|ins| - 1];
    var after := Without(rows, t, x.table, k);
    WithoutKeepsKeys(cat, rows, t, x.table, k, t);
    forall id ensures SurroundAt(after, t, pre, shorter, post, id) {
      assert SurroundAt(rows, t, pre, ins, post, id);
      if id == x.table { CutOne(pre(id), RowsFor(shorter, id), x.row, post(id)); }
    }
  }

  lemma CutOne<T>(a: seq<T>, b: seq<T>, x: T, c: seq<T>)
    ensures var s := a + (b + [x]) + c; s[..|a + b|] + s[|a + b| + 1..] == a + b + c
  {
    assert a + (b + [x]) + c == a + b + [x] + c;
  }

  lemma FewerBackward(cat: Catalog, ins: seq<Insertion>)
    requires ins != [] && BackwardOnly(cat, ins)
    ensures BackwardOnly(cat, ins[..|ins| - 1])
  {
  }

  /** No row outside refers to any row of the generation. */
  ghost predicate Unreferred(
    cat: Catalog, rows: Rows, t: Tenant, pre: Around, ins: seq<Insertion>, post: Around)
  {
    forall i | 0 <= i < |ins| :: !ReferredFromOutside(cat, rows, t, pre, post, ins[i])
  }

  ghost predicate Identified(cat: Catalog, ins: seq<Insertion>) {
    forall i | 0 <= i < |ins| :: IdentifiedRow(cat, ins[i])
  }

  ghost predicate IdentifiedRow(cat: Catalog, x: Insertion) {
    && x.table in cat.tables && KeyIdentifies(cat.tables[x.table], x)
    && (cat.rules.InDatabase? ==> Filled(x.Key()))
  }

  lemma UnreferredStep(cat: Catalog, rows: Rows, t: Tenant, pre: Around, ins: seq<Insertion>, post: Around)
    requires ins != []
    ensures var n := |ins| - 1;
      Unreferred(cat, rows, t, pre, ins, post) <==>
      Unreferred(cat, rows, t, pre, ins[..n], post) && !ReferredFromOutside(cat, rows, t, pre, post, ins[n])
  {
    assert forall i | 0 <= i < |ins| - 1 :: ins[..|ins| - 1][i] == ins[i];
  }

  lemma UnreferredSame(
    cat: Catalog, a: Rows, b: Rows, t: Tenant, pre: Around, ins: seq<Insertion>, post: Around)
    requires forall u | u != t :: SameFor(a, b, u)
    ensures Unreferred(cat, a, t, pre, ins, post) <==> Unreferred(cat, b, t, pre, ins, post)
  {
    forall u | u != t ensures SameFor(b, a, u) {
      assert SameFor(a, b, u);
    }
    forall i | 0 <= i < |ins|
      ensures ReferredFromOutside(cat, a, t, pre, post, ins[i]) <==> ReferredFromOutside(cat, b, t, pre, post, ins[i])
    {
      if ReferredFromOutside(cat, a, t, pre, post, ins[i]) { OutsideSame(cat, a, b, t, pre, post, ins[i]); }
      if ReferredFromOutside(cat, b, t, pre, post, ins[i]) { OutsideSame(cat, b, a, t, pre, post, ins[i]); }
    }
  }

  lemma FewerIdentified(cat: Catalog, ins: seq<Insertion>)
    requires ins != [] && Identified(cat, ins)
    ensures Identified(cat, ins[..|ins| - 1])
  {
  }

  lemma UnwindStep(cat: Catalog, rows: Rows, t: Tenant, ins: seq<Insertion>) returns (w: WrittenRow)
    requires ins != []
    ensures var x := ins[|ins| - 1]; w.table == x.table && w.key == x.Key()
    ensures var next := Erase(cat, rows, t, w);
      Unwind(cat, rows, t, Reverse(LedgerOf(ins))) ==
      if next.None? then None else Unwind(cat, next.value, t, Reverse(LedgerOf(ins[..|ins| - 1])))
  {
    ReverseHead(ins);
    w := Entry(ins, |ins| - 1);
    var todo := Reverse(LedgerOf(ins));
    assert todo[0] == w && todo[1..] == Reverse(LedgerOf(ins[..|ins| - 1]));
  }

  lemma {:induction false} UnwindsExactly(
    cat: Catalog, rows: Rows, t: Tenant, pre: Around, ins: seq<Insertion>, post: Around)
    requires Surround(rows, t, pre, ins, post) && BackwardOnly(cat, ins)
    requires KeysHold(cat, rows, t) && TargetsAreKeys(cat) && Identified(cat, ins)
    ensures Unwind(cat, rows, t, Reverse(LedgerOf(ins))).Some? <==> Unreferred(cat, rows, t, pre, ins, post)
    decreases |ins|
  {
    if ins == [] {
    } else {
      var w := UnwindStep(cat, rows, t, ins);
      EraseLast(cat, rows, t, pre, ins, post, w);
      UnreferredStep(cat, rows, t, pre, ins, post);
      var next := Erase(cat, rows, t, w);
      if next.Some? {
        FewerBackward(cat, ins);
        FewerIdentified(cat, ins);
        UnwindsExactly(cat, next.value, t, pre, ins[..|ins| - 1], post);
        UnreferredSame(cat, next.value, rows, t, pre, ins[..|ins| - 1], post);
      }
    }
  }

  // ---- in any run ----------------------------------------------------------------------------------

  ghost predicate Removable(cat: Catalog, ins: seq<Insertion>) {
    Identified(cat, ins) && forall x | x in ins :: UndoableRow(cat, x)
  }

  ghost predicate PastBackward(cat: Catalog, p: Past) {
    Removable(cat, p.ins) ==> BackwardOnly(cat, p.ins)
  }

  /** Every removable generation of a run refers to itself backwards only. */
  lemma {:induction false} HistoryBackward(cat: Catalog, db: Db, ops: seq<Op>, k: nat)
    requires TargetsAreKeys(cat) && Tracked(db) && k < |History(cat, db, ops)|
    ensures PastBackward(cat, History(cat, db, ops)[k])
    decreases |ops|
  {
    var n := |ops| - 1;
    var earlier, before := History(cat, db, ops[..n]), Run(cat, db, ops[..n]);
    if k < |earlier| {
      HistoryBackward(cat, db, ops[..n], k);
    } else {
      var op := ops[n];
      CommitWritesOrNot(cat, before, op.tenant, op.key, op.batch, op.now);
      if Removable(cat, op.batch.ins) {
        StagedBackwardOnly(cat, before.rows, op.tenant, op.batch.ins);
      }
    }
  }

  /** The tables around a generation of a run. */
  ghost function Ahead(seed: Rows, h: seq<Past>, gens: map<(Tenant, string), Generation>, p: nat): Around
    requires p < |h|
  {
    id => Pre(seed, h, gens, p, id)
  }

  ghost function Behind(h: seq<Past>, gens: map<(Tenant, string), Generation>, p: nat): Around
    requires p < |h|
  {
    id => Post(h, gens, p, id)
  }

  lemma LiveIsSurrounded(seed: Rows, h: seq<Past>, db: Db, p: nat)
    requires Conserved(seed, h, db) && p < |h| && Live(db.generations, h[p])
    ensures Surround(db.rows, h[p].tenant, Ahead(seed, h, db.generations, p), h[p].ins, Behind(h, db.generations, p))
  {
    forall id
      ensures SurroundAt(
        db.rows, h[p].tenant, Ahead(seed, h, db.generations, p), h[p].ins, Behind(h, db.generations, p), id)
    {
      assert ConservedAt(seed, h, db, h[p].tenant, id);
      BlockInPlace(seed, h, db, p, id);
    }
  }

  /**
   * In any run from consistent seed rows, with fresh ids: the delete of a committed generation of
   * removable rows succeeds, however much later, if and only if no row outside the generation refers
   * to one of its rows.  In the in-memory store that means the tenant's own rows and counts nulls; in
   * the database it means the rows of all tenants and real references only.
   */
  lemma LaterDeleteExactly(cat: Catalog, db: Db, ops: seq<Op>, p: nat, now: int)
    requires TargetsAreKeys(cat) && Tracked(db) && db.generations == map[]
    requires FreshRun(cat, db, ops) && Planned(ops) && p < |History(cat, db, ops)|
    requires var past := History(cat, db, ops)[p];
      Consistent(cat, db.rows, past.tenant) && Removable(cat, past.ins) && Live(Run(cat, db, ops).generations, past)
    ensures var h, last := History(cat, db, ops), Run(cat, db, ops);
      DeleteNext(cat, last, h[p].tenant, h[p].generationId, now).1.Deleted? <==>
      Unreferred(cat, last.rows, h[p].tenant, Ahead(db.rows, h, last.generations, p), h[p].ins,
                 Behind(h, last.generations, p))
  {
    var h, last := History(cat, db, ops), Run(cat, db, ops);
    RunsConserve(cat, db, ops);
    RunsKeepConsistent(cat, db, ops, h[p].tenant);
    HistoryBackward(cat, db, ops, p);
    LiveIsSurrounded(db.rows, h, last, p);
    assert Recorded(last, h[p]);
    SortedLedgerReverses(h[p].ins);
    UnwindsExactly(cat, last.rows, h[p].tenant, Ahead(db.rows, h, last.generations, p), h[p].ins,
                   Behind(h, last.generations, p));
  }
}
