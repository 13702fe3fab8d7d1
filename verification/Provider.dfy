// providers/deterministic.py: the generator's in-place relation pass, and when it works.
module Provider {
  import opened Values
  import opened Contracts
  import opened Writes
  import opened Dataset

  /** A field of a record type. */
  datatype Cell = Cell(recordType: string, field: string)

  /** The value that seed, distribution and randomness give to a field of the row with an index. */
  type Draw = (Cell, nat) -> Value

  // ---- base rows ----------------------------------------------------------------

  function BaseRow(spec: RecordSpec, draw: Draw, i: nat): Row {
    map f | f in spec.fields :: draw(Cell(spec.recordType, f), i)
  }

  function BaseRows(spec: RecordSpec, draw: Draw): (rows: seq<Row>)
    ensures |rows| == if spec.count < 0 then 0 else spec.count
  {
    seq(if spec.count < 0 then 0 else spec.count, i requires 0 <= i => BaseRow(spec, draw, i))
  }

  function BaseRecords(c: Contract, draw: Draw): Records {
    map n | n in RecordMap(c.records) :: BaseRows(RecordMap(c.records)[n], draw)
  }

  // ---- one relation -------------------------------------------------------------

  /** `[row[field] for row in rows]` */
  function Column(rows: seq<Row>, f: string): (col: seq<Value>)
    ensures |col| == |rows|
    ensures forall i | 0 <= i < |rows| :: col[i] == Get(rows[i], f)
  {
    seq(|rows|, i requires 0 <= i < |rows| => Get(rows[i], f))
  }

  /** `row[source_field] = target_values[index % len(target_values)]` for every row */
  function Rewritten(rows: seq<Row>, f: string, targets: seq<Value>): (r: seq<Row>)
    requires targets != []
    ensures |r| == |rows|
    ensures forall i | 0 <= i < |rows| :: r[i] == rows[i][f := targets[i % |targets|]]
  {
    seq(|rows|, i requires 0 <= i < |rows| => rows[i][f := targets[i % |targets|]])
  }

  /** Every record type has rows. */
  ghost predicate Populated(records: Records, relations: seq<RelationSpec>) {
    forall r | r in relations ::
      r.sourceType in records && r.targetType in records && records[r.sourceType] != [] && records[r.targetType] != []
  }

  function Relate(records: Records, r: RelationSpec): Records
    requires r.sourceType in records && r.targetType in records && records[r.targetType] != []
  {
    records[r.sourceType :=
      Rewritten(records[r.sourceType], r.sourceField, Column(records[r.targetType], r.targetField))]
  }

  /** The pass over the relations, in contract order. */
  ghost function Pass(records: Records, relations: seq<RelationSpec>): (result: Records)
    requires Populated(records, relations)
    ensures SameShape(records, result)
  {
    if relations == [] then records
    else
      var n := |relations| - 1;
      assert forall r | r in relations[..n] :: r in relations;
      var earlier := Pass(records, relations[..n]);
      assert relations[n] in relations;
      Relate(earlier, relations[n])
  }

  ghost predicate SameShape(a: Records, b: Records) {
    a.Keys == b.Keys && forall n | n in a :: |b[n]| == |a[n]|
  }

  // ---- the code -------------------------------------------------------------------

  method RelateInPlace(records0: Records, r: RelationSpec) returns (ok: bool, records: Records)
    requires r.sourceType in records0 && r.targetType in records0
    ensures records0[r.targetType] != [] ==> ok && records == Relate(records0, r)
    ensures records0[r.targetType] == [] ==> (ok <==> !r.required)
    ensures records0[r.targetType] == [] && !r.required ==>
      records == records0[r.sourceType := Rewritten(records0[r.sourceType], r.sourceField, [Null])]
  {
    records := records0;
    var targetValues := Column(records[r.targetType], r.targetField);
    if |targetValues| == 0 && r.required {
      return false, records;
    }
    var rows := records[r.sourceType];
    for index := 0 to |rows|
      invariant |rows| == |records0[r.sourceType]|
      invariant forall i | index <= i < |rows| :: rows[i] == records0[r.sourceType][i]
      invariant |targetValues| > 0 ==> forall i | 0 <= i < index ::
        rows[i] == records0[r.sourceType][i][r.sourceField := targetValues[i % |targetValues|]]
      invariant |targetValues| == 0 ==> forall i | 0 <= i < index ::
        rows[i] == records0[r.sourceType][i][r.sourceField := Null]
    {
      var value := if |targetValues| > 0 then targetValues[index % |targetValues|] else Null;
      rows := rows[index := rows[index][r.sourceField := value]];
    }
    records := records[r.sourceType := rows];
    assert |targetValues| > 0 ==> rows == Rewritten(records0[r.sourceType], r.sourceField, targetValues);
    assert |targetValues| == 0 ==> rows == Rewritten(records0[r.sourceType], r.sourceField, [Null]);
    ok := true;
  }

  lemma BasePopulated(c: Contract, draw: Draw)
    requires ContractOk(c)
    ensures Populated(BaseRecords(c, draw), c.relations)
    ensures BaseRecords(c, draw).Keys == Elems(Names(c))
  {
    CleanIsResolvable(c);
    RecordMapKeys(c);
    RecordMapHolds(c.records);
    forall r | r in c.relations
      ensures r.sourceType in RecordMap(c.records) && r.targetType in RecordMap(c.records)
    {
      assert r.sourceType in Elems(Names(c)) && r.targetType in Elems(Names(c));
    }
  }

  /** The required-relation-without-targets error cannot arise: every record type has rows. */
  method Generate(c: Contract, draw: Draw) returns (ok: bool, records: Records)
    requires ContractOk(c)
    ensures ok
    ensures Populated(BaseRecords(c, draw), c.relations)
    ensures records == Pass(BaseRecords(c, draw), c.relations)
  {
    BasePopulated(c, draw);
    ok, records := RelateAll(BaseRecords(c, draw), c.relations);
  }

  /** The loop over the relations. */
  method RelateAll(base: Records, relations: seq<RelationSpec>) returns (ok: bool, records: Records)
    requires Populated(base, relations)
    ensures ok && records == Pass(base, relations)
  {
    records := base;
    for i := 0 to |relations|
      invariant Populated(base, relations[..i])
      invariant records == Pass(base, relations[..i])
    {
      PassStep(base, relations, i);
      ok, records := RelateInPlace(records, relations[i]);
      if !ok {
        return;
      }
    }
    assert relations[..|relations|] == relations;
    ok := true;
  }

  /** One more relation of the pass: it has targets, so it cannot fail. */
  lemma PassStep(base: Records, relations: seq<RelationSpec>, i: nat)
    requires Populated(base, relations) && i < |relations|
    ensures Populated(base, relations[..i]) && Populated(base, relations[..i + 1])
    ensures var r, records := relations[i], Pass(base, relations[..i]);
      && r.sourceType in records && r.targetType in records && records[r.targetType] != []
      && Pass(base, relations[..i + 1]) == Relate(records, r)
  {
    assert relations[..i + 1][..i] == relations[..i];
    assert relations[i] in relations;
    forall r | r in relations[..i + 1] ensures r in relations {
    }
  }

  // ---- what the pass does to columns ------------------------------------------------

  function Held(records: Records, c: Cell): seq<Value> {
    if c.recordType in records then Column(records[c.recordType], c.field) else []
  }

  function Source(r: RelationSpec): Cell {
    Cell(r.sourceType, r.sourceField)
  }

  function Target(r: RelationSpec): Cell {
    Cell(r.targetType, r.targetField)
  }

  lemma RelateColumns(records: Records, r: RelationSpec, c: Cell)
    requires r.sourceType in records && r.targetType in records && records[r.targetType] != []
    ensures |Held(Relate(records, r), c)| == |Held(records, c)|
    ensures c != Source(r) ==> Held(Relate(records, r), c) == Held(records, c)
    ensures c == Source(r) ==> forall i | 0 <= i < |Held(records, c)| ::
      Held(Relate(records, r), c)[i] == Held(records, Target(r))[i % |Held(records, Target(r))|]
  {
    var before, after := Held(records, c), Held(Relate(records, r), c);
    assert |after| == |before|;
    if c != Source(r) {
      forall i | 0 <= i < |before| ensures after[i] == before[i] {
      }
      assert after == before;
    } else if c.recordType in records {
      var rows, targets := records[r.sourceType], Held(records, Target(r));
      assert targets == Column(records[r.targetType], r.targetField);
      forall i | 0 <= i < |before| ensures after[i] == targets[i % |targets|] {
        assert Rewritten(rows, r.sourceField, targets)[i] == rows[i][r.sourceField := targets[i % |targets|]];
      }
    }
  }

  ghost predicate FoundIn(v: Value, col: seq<Value>) {
    exists j :: 0 <= j < |col| && Canon(col[j]) == Canon(v)
  }

  lemma HoldsByColumns(records: Records, r: RelationSpec)
    requires r.sourceType in records && r.targetType in records
    ensures Holds(records, r) <==> forall i | 0 <= i < |Held(records, Source(r))| ::
      || (Held(records, Source(r))[i].Null? && !r.required)
      || FoundIn(Held(records, Source(r))[i], Held(records, Target(r)))
  {
    var target, col := records[r.targetType], Held(records, Target(r));
    forall v ensures Canon(v) in Targets(target, r.targetField) <==> FoundIn(v, col) {
      if Canon(v) in Targets(target, r.targetField) {
        var row :| row in target && Canon(Get(row, r.targetField)) == Canon(v);
        var j :| 0 <= j < |target| && target[j] == row;
        assert Canon(col[j]) == Canon(v);
      }
      if FoundIn(v, col) {
        var j :| 0 <= j < |col| && Canon(col[j]) == Canon(v);
        assert target[j] in target;
      }
    }
    assert forall i | 0 <= i < |records[r.sourceType]| ::
      Held(records, Source(r))[i] == Get(records[r.sourceType][i], r.sourceField);
  }

  // ---- where a column's values come from ----------------------------------------------

  /** A column holds exactly the first `len` drawn values of the column `root`. */
  datatype Origin = Origin(root: Cell, len: nat)

  type Origins = map<Cell, Origin>

  function OriginOf(o: Origins, counts: map<string, nat>, c: Cell): Origin
    requires c.recordType in counts
  {
    if c in o then o[c] else Origin(c, counts[c.recordType])
  }

  function Min(a: nat, b: nat): nat {
    if a < b then a else b
  }

  ghost predicate Counted(counts: map<string, nat>, relations: seq<RelationSpec>) {
    forall r | r in relations :: r.sourceType in counts && r.targetType in counts
  }

  /** The relations read as moves: the source takes over the target's origin, cut to its own row count. */
  ghost function Trace(counts: map<string, nat>, relations: seq<RelationSpec>): Origins
    requires Counted(counts, relations)
  {
    if relations == [] then map[]
    else
      var n := |relations| - 1;
      assert relations[n] in relations && forall r | r in relations[..n] :: r in relations;
      var o, r := Trace(counts, relations[..n]), relations[n];
      var from := OriginOf(o, counts, Target(r));
      o[Source(r) := Origin(from.root, Min(counts[r.sourceType], from.len))]
  }

  /** After the last relation every source still descends from its target's origin, from no more of it. */
  ghost predicate Sound(counts: map<string, nat>, relations: seq<RelationSpec>)
    requires Counted(counts, relations)
  {
    forall r | r in relations ::
      var o := Trace(counts, relations);
      var source, target := OriginOf(o, counts, Source(r)), OriginOf(o, counts, Target(r));
      source.root == target.root && source.len <= target.len
  }

  function Counts(records: Records): map<string, nat> {
    map n | n in records :: |records[n]|
  }

  /** These columns hold the values as drawn. */
  ghost predicate Drawn(records: Records, cells: set<Cell>, draw: Draw) {
    forall c: Cell, i: nat {:trigger Held(records, c)[i]} | c in cells && i < |Held(records, c)| ::
      Held(records, c)[i] == draw(c, i)
  }

  ghost predicate ComesFrom(v: Value, o: Origin, draw: Draw) {
    exists j: nat :: j < o.len && v == draw(o.root, j)
  }

  /** A column shows the first `len` values of its root in place, and nothing else anywhere. */
  ghost predicate Shows(col: seq<Value>, o: Origin, draw: Draw) {
    && o.len <= |col|
    && (forall i | 0 <= i < o.len :: col[i] == draw(o.root, i))
    && (forall i | 0 <= i < |col| :: ComesFrom(col[i], o, draw))
  }

  lemma ShownCopy(target: seq<Value>, o: Origin, draw: Draw, copy: seq<Value>)
    requires target != [] && Shows(target, o, draw)
    requires forall i | 0 <= i < |copy| :: copy[i] == target[i % |target|]
    ensures Shows(copy, Origin(o.root, Min(|copy|, o.len)), draw)
  {
    var to := Origin(o.root, Min(|copy|, o.len));
    forall i | 0 <= i < to.len ensures copy[i] == draw(to.root, i) {
      assert i % |target| == i;
    }
    forall i | 0 <= i < |copy| ensures ComesFrom(copy[i], to, draw) {
      if i < to.len {
        assert copy[i] == draw(to.root, i);
      } else {
        assert to.len == o.len;
        assert ComesFrom(target[i % |target|], o, draw);
      }
    }
  }

  /** The pass does to the values what the trace says. */
  lemma {:induction false} PassShows(
    records: Records, relations: seq<RelationSpec>, cells: set<Cell>, draw: Draw, c: Cell)
    requires Populated(records, relations) && Drawn(records, cells, draw) && c.recordType in records && c in cells
    requires forall r | r in relations :: Target(r) in cells
    ensures Counted(Counts(records), relations)
    ensures Shows(
              Held(Pass(records, relations), c), OriginOf(Trace(Counts(records), relations), Counts(records), c), draw)
    decreases |relations|
  {
    var counts := Counts(records);
    if relations == [] {
      var col, o := Held(records, c), OriginOf(map[], counts, c);
      forall i | 0 <= i < |col| ensures col[i] == draw(c, i) && ComesFrom(col[i], o, draw) {
        assert Held(records, c)[i] == draw(c, i);
      }
    } else {
      var n := |relations| - 1;
      var r := relations[n];
      assert r in relations && forall q | q in relations[..n] :: q in relations;
      PassShows(records, relations[..n], cells, draw, c);
      PassShows(records, relations[..n], cells, draw, Target(r));
      RelateShows(records, Pass(records, relations[..n]), counts, Trace(counts, relations[..n]), r, draw, c);
    }
  }

  /** One relation does to a column what one move of the trace says. */
  lemma RelateShows(
    base: Records, records: Records, counts: map<string, nat>, o: Origins, r: RelationSpec, draw: Draw, c: Cell)
    requires SameShape(base, records) && counts == Counts(base) && c.recordType in records
    requires r.sourceType in records && r.targetType in records && records[r.targetType] != []
    requires Shows(Held(records, c), OriginOf(o, counts, c), draw)
    requires Shows(Held(records, Target(r)), OriginOf(o, counts, Target(r)), draw)
    ensures var from := OriginOf(o, counts, Target(r));
      var moved := o[Source(r) := Origin(from.root, Min(counts[r.sourceType], from.len))];
      Shows(Held(Relate(records, r), c), OriginOf(moved, counts, c), draw)
  {
    RelateColumns(records, r, c);
    if c == Source(r) {
      var copy := Held(Relate(records, r), c);
      ShownCopy(Held(records, Target(r)), OriginOf(o, counts, Target(r)), draw, copy);
      assert |copy| == counts[r.sourceType];
    }
  }

  ghost predicate AllHold(records: Records, relations: seq<RelationSpec>) {
    forall r | r in relations :: Holds(records, r)
  }

  function Cells(relations: seq<RelationSpec>): set<Cell> {
    (set r | r in relations :: Source(r)) + (set r | r in relations :: Target(r))
  }

  /** A sound list of relations holds altogether after the pass, whatever the records held before. */
  lemma SoundPassHolds(records: Records, relations: seq<RelationSpec>)
    requires Populated(records, relations)
    requires Counted(Counts(records), relations) && Sound(Counts(records), relations)
    ensures AllHold(Pass(records, relations), relations)
  {
    var counts, result, cells := Counts(records), Pass(records, relations), Cells(relations);
    var draw: Draw := (c: Cell, i: nat) => if i < |Held(records, c)| then Held(records, c)[i] else Null;
    var o := Trace(counts, relations);
    forall r | r in relations ensures Holds(result, r) {
      PassShows(records, relations, cells, draw, Source(r));
      PassShows(records, relations, cells, draw, Target(r));
      ShownInside(Held(result, Source(r)), OriginOf(o, counts, Source(r)),
                  Held(result, Target(r)), OriginOf(o, counts, Target(r)), draw);
      HoldsByColumns(result, r);
    }
  }

  lemma ShownInside(source: seq<Value>, from: Origin, target: seq<Value>, to: Origin, draw: Draw)
    requires Shows(source, from, draw) && Shows(target, to, draw)
    requires from.root == to.root && from.len <= to.len
    ensures forall i | 0 <= i < |source| :: FoundIn(source[i], target)
  {
    forall i | 0 <= i < |source| ensures FoundIn(source[i], target) {
      assert ComesFrom(source[i], from, draw);
      var j: nat :| j < from.len && source[i] == draw(from.root, j);
      assert target[j] == draw(to.root, j);
    }
  }

  /** The first value of the source's origin that the target's origin need not have. */
  function TellingIndex(from: Origin, to: Origin): nat {
    if from.root != to.root then 0 else to.len
  }

  /** At that index the draw gives the one origin a value that the other does not get. */
  ghost predicate Tells(draw: Draw, from: Origin, to: Origin) {
    var v := draw(from.root, TellingIndex(from, to));
    !v.Null? && forall j: nat | j < to.len :: Canon(draw(to.root, j)) != Canon(v)
  }

  lemma ToldApart(source: seq<Value>, from: Origin, target: seq<Value>, to: Origin, draw: Draw) returns (i: nat)
    requires from.root != to.root || from.len > to.len
    requires Tells(draw, from, to) && Shows(source, from, draw) && Shows(target, to, draw) && source != []
    ensures i < |source| && !source[i].Null?
    ensures !FoundIn(source[i], target)
  {
    assert ComesFrom(source[0], from, draw);
    i := TellingIndex(from, to);
    forall j | 0 <= j < |target| ensures Canon(target[j]) != Canon(source[i]) {
      assert ComesFrom(target[j], to, draw);
    }
  }

  lemma UnsoundPassFails(
    records: Records, relations: seq<RelationSpec>, r: RelationSpec, from: Origin, to: Origin, draw: Draw)
    requires Populated(records, relations) && Counted(Counts(records), relations) && r in relations
    requires from == OriginOf(Trace(Counts(records), relations), Counts(records), Source(r))
    requires to == OriginOf(Trace(Counts(records), relations), Counts(records), Target(r))
    requires from.root != to.root || from.len > to.len
    requires Drawn(records, Cells(relations), draw) && Tells(draw, from, to)
    ensures !Holds(Pass(records, relations), r)
  {
    var result := Pass(records, relations);
    PassShows(records, relations, Cells(relations), draw, Source(r));
    PassShows(records, relations, Cells(relations), draw, Target(r));
    assert |result[r.sourceType]| == |records[r.sourceType]|;
    var i := ToldApart(Held(result, Source(r)), from, Held(result, Target(r)), to, draw);
    HoldsByColumns(result, r);
  }

  ghost function CountsOf(c: Contract): map<string, nat>
    requires ContractOk(c)
  {
    RecordMapHolds(c.records);
    map n | n in RecordMap(c.records) :: RecordMap(c.records)[n].count as nat
  }

  lemma BaseDrawn(c: Contract, draw: Draw)
    requires ContractOk(c)
    ensures Drawn(BaseRecords(c, draw), Cells(c.relations), draw)
  {
    CleanIsResolvable(c);
    var specs := RecordMap(c.records);
    forall cell: Cell, i: nat | cell in Cells(c.relations) && i < |Held(BaseRecords(c, draw), cell)|
      ensures Held(BaseRecords(c, draw), cell)[i] == draw(cell, i)
    {
      var r :| r in c.relations && (cell == Source(r) || cell == Target(r));
      assert RelationFault(specs, r) == None;
      RecordMapHolds(c.records);
      BaseCellDrawn(specs[cell.recordType], cell, draw, i);
    }
  }

  lemma BaseCellDrawn(spec: RecordSpec, cell: Cell, draw: Draw, i: nat)
    requires spec.recordType == cell.recordType && cell.field in spec.fields && i < |BaseRows(spec, draw)|
    ensures Column(BaseRows(spec, draw), cell.field)[i] == draw(cell, i)
  {
    assert BaseRows(spec, draw)[i] == BaseRow(spec, draw, i);
  }

  lemma BaseShape(c: Contract, draw: Draw)
    requires ContractOk(c)
    ensures Populated(BaseRecords(c, draw), c.relations)
    ensures Counts(BaseRecords(c, draw)) == CountsOf(c)
    ensures Counted(CountsOf(c), c.relations)
  {
    BasePopulated(c, draw);
    RecordMapHolds(c.records);
    var base, counts := BaseRecords(c, draw), CountsOf(c);
    forall n | n in base ensures |base[n]| == counts[n] {
    }
  }

  /** An unsound list has a relation whose two fields descend from different values, or from too many. */
  lemma UnsoundRelation(c: Contract) returns (r: RelationSpec, from: Origin, to: Origin)
    requires ContractOk(c) && Counted(CountsOf(c), c.relations) && !Sound(CountsOf(c), c.relations)
    ensures r in c.relations && (from.root != to.root || from.len > to.len)
    ensures from == OriginOf(Trace(CountsOf(c), c.relations), CountsOf(c), Source(r))
    ensures to == OriginOf(Trace(CountsOf(c), c.relations), CountsOf(c), Target(r))
  {
    var o, counts := Trace(CountsOf(c), c.relations), CountsOf(c);
    r :| r in c.relations && !(
      OriginOf(o, counts, Source(r)).root == OriginOf(o, counts, Target(r)).root
      && OriginOf(o, counts, Source(r)).len <= OriginOf(o, counts, Target(r)).len);
    from, to := OriginOf(o, counts, Source(r)), OriginOf(o, counts, Target(r));
  }

  // ---- a simple sufficient shape --------------------------------------------------------

  /** Each field is filled by at most one relation, and not after another relation has copied it. */
  ghost predicate Layered(relations: seq<RelationSpec>) {
    forall i, j | 0 <= i < j < |relations| ::
      Source(relations[j]) != Source(relations[i]) && Source(relations[j]) != Target(relations[i])
  }

  lemma {:induction false} TraceShort(counts: map<string, nat>, relations: seq<RelationSpec>, c: Cell)
    requires Counted(counts, relations) && c.recordType in counts
    ensures OriginOf(Trace(counts, relations), counts, c).len <= counts[c.recordType]
  {
    if relations == [] {
    } else {
      var n := |relations| - 1;
      assert relations[n] in relations && forall r | r in relations[..n] :: r in relations;
      TraceShort(counts, relations[..n], c);
    }
  }

  lemma {:induction false} LayeredIsSound(counts: map<string, nat>, relations: seq<RelationSpec>)
    requires Counted(counts, relations) && Layered(relations)
    ensures Sound(counts, relations)
  {
    if relations == [] {
    } else {
      var n := |relations| - 1;
      var last, before := relations[n], relations[..n];
      assert last in relations && forall r | r in before :: r in relations;
      LayeredIsSound(counts, before);
      TraceShort(counts, before, Target(last));
      var o := Trace(counts, relations);
      forall r | r in relations
        ensures var source, target := OriginOf(o, counts, Source(r)), OriginOf(o, counts, Target(r));
          source.root == target.root && source.len <= target.len
      {
        if r != last {
          var i :| 0 <= i < |relations| && relations[i] == r;
          assert before[i] == r && r in before;
          assert Source(last) != Source(r) && Source(last) != Target(r);
        }
      }
    }
  }

  lemma {:induction false} UnfilledIsItsOwnOrigin(counts: map<string, nat>, relations: seq<RelationSpec>, c: Cell)
    requires Counted(counts, relations) && c.recordType in counts
    requires forall r | r in relations :: Source(r) != c
    ensures OriginOf(Trace(counts, relations), counts, c) == Origin(c, counts[c.recordType])
  {
    if relations == [] {
    } else {
      var n := |relations| - 1;
      assert relations[n] in relations && forall r | r in relations[..n] :: r in relations;
      UnfilledIsItsOwnOrigin(counts, relations[..n], c);
    }
  }

  /**
   * Out of that shape the pass can fail: in any contract, wherever two relations fill one field from
   * two different fields that nothing fills, no row counts make the relations sound.
   */
  lemma OverwrittenSourceIsUnsound(
    counts: map<string, nat>, relations: seq<RelationSpec>, first: RelationSpec, second: RelationSpec)
    requires Counted(counts, relations) && first in relations && second in relations
    requires Source(first) == Source(second) && Target(first) != Target(second)
    requires forall r | r in relations :: Source(r) != Target(first) && Source(r) != Target(second)
    ensures !Sound(counts, relations)
  {
    UnfilledIsItsOwnOrigin(counts, relations, Target(first));
    UnfilledIsItsOwnOrigin(counts, relations, Target(second));
    var o := Trace(counts, relations);
    assert OriginOf(o, counts, Target(first)).root != OriginOf(o, counts, Target(second)).root;
  }

  // ---- round-robin filling ------------------------------------------------------------------

  /** How many of the first m rows take target j of n. */
  function Uses(m: nat, n: nat, j: nat): nat
    requires j < n
  {
    if m == 0 then 0 else Uses(m - 1, n, j) + (if (m - 1) % n == j then 1 else 0)
  }

  /** Over m source rows each of n targets is used m / n times, and the first m % n of them once more. */
  lemma {:induction false} RoundRobinBalanced(m: nat, n: nat, j: nat)
    requires j < n
    ensures Uses(m, n, j) == m / n + (if j < m % n then 1 else 0)
  {
    if m == 0 {
    } else {
      RoundRobinBalanced(m - 1, n, j);
      DivModStep(m - 1, n);
    }
  }

  lemma {:induction false} CycleUses(col: seq<Value>, targets: seq<Value>, j: nat)
    requires j < |targets| && forall i | 0 <= i < |targets| && i != j :: targets[i] != targets[j]
    requires forall i | 0 <= i < |col| :: col[i] == targets[i % |targets|]
    ensures multiset(col)[targets[j]] == Uses(|col|, |targets|, j)
  {
    if col == [] {
    } else {
      var m := |col| - 1;
      CycleUses(col[..m], targets, j);
      assert col == col[..m] + [col[m]];
    }
  }

  /** So after a relation has filled a column, each of n targets stands in it m / n times, or once more. */
  lemma FillingIsBalanced(rows: seq<Row>, f: string, targets: seq<Value>, j: nat)
    requires j < |targets| && forall i | 0 <= i < |targets| && i != j :: targets[i] != targets[j]
    ensures multiset(Column(Rewritten(rows, f, targets), f))[targets[j]] ==
            |rows| / |targets| + (if j < |rows| % |targets| then 1 else 0)
  {
    var col := Column(Rewritten(rows, f, targets), f);
    forall i | 0 <= i < |col| ensures col[i] == targets[i % |targets|] {
      assert Rewritten(rows, f, targets)[i] == rows[i][f := targets[i % |targets|]];
    }
    CycleUses(col, targets, j);
    RoundRobinBalanced(|rows|, |targets|, j);
  }

  lemma DivModStep(k: nat, n: nat)
    requires n > 0
    ensures k % n + 1 < n ==> (k + 1) / n == k / n && (k + 1) % n == k % n + 1
    ensures k % n + 1 == n ==> (k + 1) / n == k / n + 1 && (k + 1) % n == 0
  {
    var q, r := k / n, k % n;
    assert k == n * q + r;
    if r + 1 < n {
      QuotientIs(k + 1, n, q, r + 1);
    } else {
      assert n * (q + 1) == n * q + n;
      QuotientIs(k + 1, n, q + 1, 0);
    }
  }

  lemma QuotientIs(k: nat, n: nat, q: nat, r: nat)
    requires r < n && k == n * q + r
    ensures k / n == q && k % n == r
  {
    var gap: int := k / n - q;
    MulGap(n, gap);
    assert n * gap == n * (k / n) - n * q;
  }

  lemma MulGap(n: nat, d: int)
    requires n > 0
    ensures d >= 1 ==> n * d >= n
    ensures d <= -1 ==> n * d + n <= 0
  {
  }
}
