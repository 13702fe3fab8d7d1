// Exactly when generated datasets are acceptable, read off the contract.
module Acceptance {
  import opened Values
  import opened Contracts
  import opened Writes
  import opened Dataset
  import opened Provider
  import opened Defaults

  // ---- the fields behind the columns ----------------------------------------------------

  ghost predicate IsField(c: Contract, cell: Cell) {
    cell.recordType in RecordMap(c.records) && cell.field in RecordMap(c.records)[cell.recordType].fields
  }

  ghost function FieldOf(c: Contract, cell: Cell): FieldSpec
    requires IsField(c, cell)
  {
    RecordMap(c.records)[cell.recordType].fields[cell.field]
  }

  /** Where the values of a field end up coming from. */
  ghost function Final(c: Contract, n: nat, cell: Cell): Origin
    requires ContractOk(c) && n <= |c.relations| && Counted(CountsOf(c), c.relations[..n]) && IsField(c, cell)
  {
    OriginOf(Trace(CountsOf(c), c.relations[..n]), CountsOf(c), cell)
  }

  lemma RelationFields(c: Contract, r: RelationSpec)
    requires ContractOk(c) && r in c.relations
    ensures IsField(c, Source(r)) && IsField(c, Target(r))
    ensures FieldOf(c, Source(r)).kind == FieldOf(c, Target(r)).kind
  {
    CleanIsResolvable(c);
    assert RelationFault(RecordMap(c.records), r) == None;
  }

  lemma AllCounted(c: Contract, n: nat)
    requires ContractOk(c) && n <= |c.relations|
    ensures Counted(CountsOf(c), c.relations[..n])
  {
    forall r | r in c.relations[..n] ensures r.sourceType in CountsOf(c) && r.targetType in CountsOf(c) {
      RelationFields(c, r);
    }
  }

  lemma SpecCount(c: Contract, name: string)
    requires ContractOk(c) && name in RecordMap(c.records)
    ensures RecordMap(c.records)[name] in c.records && RecordMap(c.records)[name].recordType == name
    ensures 0 < RecordMap(c.records)[name].count <= 1_000_000
    ensures CountsOf(c)[name] == RecordMap(c.records)[name].count
  {
    RecordMapHolds(c.records);
  }

  /** The origin has the field's type, and at least one value. */
  ghost predicate Fits(c: Contract, cell: Cell, o: Origin)
    requires ContractOk(c) && IsField(c, cell)
  {
    && IsField(c, o.root) && FieldOf(c, o.root).kind == FieldOf(c, cell).kind
    && 1 <= o.len <= CountsOf(c)[cell.recordType] && o.len <= CountsOf(c)[o.root.recordType]
  }

  lemma OwnFits(c: Contract, cell: Cell)
    requires ContractOk(c) && IsField(c, cell)
    ensures Fits(c, cell, Origin(cell, CountsOf(c)[cell.recordType]))
  {
    SpecCount(c, cell.recordType);
  }

  lemma MovedFits(c: Contract, r: RelationSpec, from: Origin)
    requires ContractOk(c) && r in c.relations && IsField(c, Target(r)) && Fits(c, Target(r), from)
    ensures IsField(c, Source(r))
    ensures Fits(c, Source(r), Origin(from.root, Min(CountsOf(c)[r.sourceType], from.len)))
  {
    RelationFields(c, r);
    SpecCount(c, r.sourceType);
  }

  /** Values keep their type on the way, and there is always at least one. */
  lemma {:induction false} FinalFits(c: Contract, n: nat, cell: Cell)
    requires ContractOk(c) && n <= |c.relations| && IsField(c, cell)
    ensures Counted(CountsOf(c), c.relations[..n])
    ensures Fits(c, cell, Final(c, n, cell))
  {
    AllCounted(c, n);
    if n == 0 {
      OwnFits(c, cell);
    } else {
      var r := c.relations[n - 1];
      assert c.relations[..n][..n - 1] == c.relations[..n - 1] && r in c.relations;
      RelationFields(c, r);
      FinalFits(c, n - 1, cell);
      FinalFits(c, n - 1, Target(r));
      MovedFits(c, r, Final(c, n - 1, Target(r)));
      assert cell == Source(r) || Final(c, n, cell) == Final(c, n - 1, cell);
    }
  }

  lemma FieldDrawn(c: Contract, draw: Draw, cell: Cell, i: nat)
    requires ContractOk(c) && IsField(c, cell) && i < |Held(BaseRecords(c, draw), cell)|
    ensures Held(BaseRecords(c, draw), cell)[i] == draw(cell, i)
  {
    SpecCount(c, cell.recordType);
    BaseCellDrawn(RecordMap(c.records)[cell.recordType], cell, draw, i);
  }

  /** After the pass a field's column shows its final origin. */
  lemma ColumnShows(c: Contract, draw: Draw, cell: Cell)
    requires ContractOk(c) && IsField(c, cell)
    ensures Counted(CountsOf(c), c.relations) && Populated(BaseRecords(c, draw), c.relations)
    ensures Counted(CountsOf(c), c.relations[..|c.relations|])
    ensures var col := Held(Pass(BaseRecords(c, draw), c.relations), cell);
      |col| == CountsOf(c)[cell.recordType] && Shows(col, Final(c, |c.relations|, cell), draw)
  {
    var base, cells := BaseRecords(c, draw), Cells(c.relations) + {cell};
    assert c.relations[..|c.relations|] == c.relations;
    FinalFits(c, |c.relations|, cell);
    BaseShape(c, draw);
    forall other: Cell, i: nat | other in cells && i < |Held(base, other)|
      ensures Held(base, other)[i] == draw(other, i)
    {
      if other != cell {
        var r :| r in c.relations && (other == Source(r) || other == Target(r));
        RelationFields(c, r);
      }
      FieldDrawn(c, draw, other, i);
    }
    PassShows(base, c.relations, cells, draw, cell);
  }

  // ---- relations, for values of the fields' types ---------------------------------------------

  ghost predicate Typed(c: Contract, draw: Draw, fmt: Formats)
    requires ContractOk(c)
  {
    forall cell, i: nat {:trigger draw(cell, i)} | IsField(c, cell) && i < CountsOf(c)[cell.recordType] ::
      ValidValue(draw(cell, i), FieldOf(c, cell), fmt)
  }

  lemma TwoDefaults(kind: FieldType, m: Material)
    requires Bytes(m)
    ensures Canon(DefaultValue(kind, m, 0)) != Canon(DefaultValue(kind, m, 1))
  {
    if kind != BooleanType { DefaultsDiffer(kind, m, 0, 1); }
  }

  lemma DefaultIsValid(field: FieldSpec, m: Material, i: nat, fmt: Formats)
    requires Bytes(m) && i < 2 && ReadsIso(fmt)
    ensures ValidValue(DefaultValue(field.kind, m, i), field, fmt) && !DefaultValue(field.kind, m, i).Null?
  {
    MadeIsValid(field, ByDefault(m), i, fmt);
  }

  /** Draws of the right types that tell two origins apart: the first two defaults under some digest. */
  ghost function TellingDraw(c: Contract, m: Material, from: Origin, to: Origin): Draw {
    (cell: Cell, i: nat) =>
      if !IsField(c, cell) then Null else DefaultValue(FieldOf(c, cell).kind, m, TellingRow(from, to, cell, i))
  }

  function TellingRow(from: Origin, to: Origin, cell: Cell, i: nat): (row: nat)
    ensures row < 2
  {
    if from.root != to.root then if cell == from.root then 1 else 0
    else if i == to.len then 1 else 0
  }

  lemma TellingIsTyped(c: Contract, m: Material, from: Origin, to: Origin, fmt: Formats)
    requires ContractOk(c) && ReadsIso(fmt) && Bytes(m)
    ensures Typed(c, TellingDraw(c, m, from, to), fmt)
  {
    var draw := TellingDraw(c, m, from, to);
    forall cell, i: nat | IsField(c, cell) && i < CountsOf(c)[cell.recordType]
      ensures ValidValue(draw(cell, i), FieldOf(c, cell), fmt)
    {
      DefaultIsValid(FieldOf(c, cell), m, TellingRow(from, to, cell, i), fmt);
    }
  }

  lemma TellingTells(c: Contract, m: Material, from: Origin, to: Origin, fmt: Formats)
    requires Bytes(m) && ReadsIso(fmt)
    requires IsField(c, from.root) && IsField(c, to.root) && FieldOf(c, from.root).kind == FieldOf(c, to.root).kind
    ensures Tells(TellingDraw(c, m, from, to), from, to)
  {
    TwoDefaults(FieldOf(c, from.root).kind, m);
    DefaultIsValid(FieldOf(c, from.root), m, 1, fmt);
  }

  lemma UnsoundFails(c: Contract, fmt: Formats) returns (draw: Draw)
    requires ContractOk(c) && ReadsIso(fmt) && Counted(CountsOf(c), c.relations) && !Sound(CountsOf(c), c.relations)
    ensures Typed(c, draw, fmt) && Populated(BaseRecords(c, draw), c.relations)
    ensures !AllHold(Pass(BaseRecords(c, draw), c.relations), c.relations)
  {
    var r, from, to := UnsoundRelation(c);
    var m := Material("", 0, 0, 0, 0);
    draw := TellingDraw(c, m, from, to);
    RelationFields(c, r);
    assert c.relations[..|c.relations|] == c.relations;
    FinalFits(c, |c.relations|, Source(r));
    FinalFits(c, |c.relations|, Target(r));
    TellingIsTyped(c, m, from, to, fmt);
    TellingTells(c, m, from, to, fmt);
    BaseShape(c, draw);
    BaseDrawn(c, draw);
    UnsoundPassFails(BaseRecords(c, draw), c.relations, r, from, to, draw);
  }

  ghost predicate PassHolds(c: Contract, draw: Draw)
    requires ContractOk(c)
  {
    Populated(BaseRecords(c, draw), c.relations)
    && AllHold(Pass(BaseRecords(c, draw), c.relations), c.relations)
  }

  /**
   * The pass makes every relation of a contract hold for whatever values of the fields' types are
   * drawn, if and only if the relations are sound; and then it does so for any values at all.
   * Soundness is read off the contract's relations and row counts.
   */
  lemma PassEstablishesRelations(c: Contract, fmt: Formats)
    requires ContractOk(c) && ReadsIso(fmt)
    ensures Counted(CountsOf(c), c.relations)
    ensures (forall draw | Typed(c, draw, fmt) :: PassHolds(c, draw)) <==> Sound(CountsOf(c), c.relations)
    ensures Sound(CountsOf(c), c.relations) ==> forall draw :: PassHolds(c, draw)
  {
    AllCounted(c, |c.relations|);
    assert c.relations[..|c.relations|] == c.relations;
    if Sound(CountsOf(c), c.relations) {
      forall draw ensures PassHolds(c, draw) {
        BaseShape(c, draw);
        SoundPassHolds(BaseRecords(c, draw), c.relations);
      }
    } else {
      var draw := UnsoundFails(c, fmt);
      assert !PassHolds(c, draw);
    }
  }

  // ---- whole datasets, for values by recipe -----------------------------------------------------

  /** Every field goes by default or by a sequence. */
  ghost predicate AllRecipes(c: Contract, recipes: map<Cell, Recipe>) {
    forall cell | IsField(c, cell) :: cell in recipes && RecipeOk(FieldOf(c, cell).kind, recipes[cell])
  }

  /** The values are those of the recipes, with any nulls that the fields allow. */
  ghost predicate ByRecipe(c: Contract, recipes: map<Cell, Recipe>, draw: Draw) {
    forall cell, i: nat {:trigger draw(cell, i)} | IsField(c, cell) && cell in recipes ::
      || draw(cell, i) == Made(FieldOf(c, cell).kind, recipes[cell], i)
      || (FieldOf(c, cell).nullable && draw(cell, i) == Null)
  }

  /** A field can keep what its final origin gives it. */
  ghost predicate NullsFit(c: Contract, cell: Cell, o: Origin)
    requires IsField(c, cell) && IsField(c, o.root)
  {
    FieldOf(c, o.root).nullable ==> FieldOf(c, cell).nullable
  }

  ghost predicate RepeatsFit(c: Contract, recipes: map<Cell, Recipe>, cell: Cell, o: Origin)
    requires ContractOk(c) && IsField(c, cell) && IsField(c, o.root) && AllRecipes(c, recipes)
  {
    FieldOf(c, cell).unique ==>
      && CountsOf(c)[cell.recordType] <= o.len
      && (recipes[o.root].ByDefault? && FieldOf(c, cell).kind == BooleanType ==> CountsOf(c)[cell.recordType] <= 2)
  }

  ghost predicate ColumnOk(c: Contract, draw: Draw, cell: Cell, fmt: Formats)
    requires ContractOk(c) && IsField(c, cell) && Populated(BaseRecords(c, draw), c.relations)
  {
    ColumnFits(Held(Pass(BaseRecords(c, draw), c.relations), cell), FieldOf(c, cell), fmt)
  }

  /** The first values of a draw are a recipe's, or null where that is allowed. */
  ghost predicate Follow(draw: Draw, o: Origin, kind: FieldType, recipe: Recipe, nullable: bool) {
    forall j: nat | j < o.len :: draw(o.root, j) == Made(kind, recipe, j) || (nullable && draw(o.root, j) == Null)
  }

  lemma ShownAreValid(col: seq<Value>, o: Origin, draw: Draw, field: FieldSpec, recipe: Recipe, fmt: Formats)
    requires Shows(col, o, draw) && Follow(draw, o, field.kind, recipe, field.nullable)
    requires RecipeOk(field.kind, recipe) && o.len <= 1_000_000 && ReadsIso(fmt)
    ensures AllValid(col, field, fmt)
  {
    forall i | 0 <= i < |col| ensures ValidValue(col[i], field, fmt) {
      assert ComesFrom(col[i], o, draw);
      var j: nat :| j < o.len && col[i] == draw(o.root, j);
      MadeIsValid(field, recipe, j, fmt);
    }
  }

  lemma ShownAreDistinct(col: seq<Value>, o: Origin, draw: Draw, kind: FieldType, recipe: Recipe, nullable: bool)
    requires Shows(col, o, draw) && Follow(draw, o, kind, recipe, nullable) && |col| <= o.len <= 1_000_000
    requires RecipeOk(kind, recipe) && (recipe.ByDefault? && kind == BooleanType ==> |col| <= 2)
    ensures Defaults.Distinct(col)
  {
    forall i, j | 0 <= i < j < |col| && Canon(col[i]) != CNull ensures Canon(col[i]) != Canon(col[j]) {
      assert col[i] == draw(o.root, i) && col[j] == draw(o.root, j);
      MadeDiffer(kind, recipe, i, j);
    }
  }

  lemma FollowsRecipe(c: Contract, recipes: map<Cell, Recipe>, draw: Draw, cell: Cell, o: Origin)
    requires ContractOk(c) && AllRecipes(c, recipes) && ByRecipe(c, recipes, draw) && IsField(c, cell)
    requires Fits(c, cell, o) && NullsFit(c, cell, o)
    ensures Follow(draw, o, FieldOf(c, cell).kind, recipes[o.root], FieldOf(c, cell).nullable)
    ensures RecipeOk(FieldOf(c, cell).kind, recipes[o.root]) && o.len <= 1_000_000
  {
    SpecCount(c, o.root.recordType);
  }

  lemma ColumnOkWhenFits(c: Contract, recipes: map<Cell, Recipe>, draw: Draw, cell: Cell, o: Origin, fmt: Formats)
    requires ContractOk(c) && ReadsIso(fmt) && AllRecipes(c, recipes) && ByRecipe(c, recipes, draw) && IsField(c, cell)
    requires Counted(CountsOf(c), c.relations[..|c.relations|]) && o == Final(c, |c.relations|, cell)
    requires IsField(c, o.root) && NullsFit(c, cell, o) && RepeatsFit(c, recipes, cell, o)
    ensures Populated(BaseRecords(c, draw), c.relations) && ColumnOk(c, draw, cell, fmt)
  {
    ColumnShows(c, draw, cell);
    FinalFits(c, |c.relations|, cell);
    FollowsRecipe(c, recipes, draw, cell, o);
    var col, field := Held(Pass(BaseRecords(c, draw), c.relations), cell), FieldOf(c, cell);
    ShownAreValid(col, o, draw, field, recipes[o.root], fmt);
    if field.unique { ShownAreDistinct(col, o, draw, field.kind, recipes[o.root], field.nullable); }
  }

  // ---- and the converse ---------------------------------------------------------------------

  /** The recipes' values, with one null if the root allows it. */
  ghost function PlainDraw(c: Contract, recipes: map<Cell, Recipe>, root: Cell, void: bool): Draw {
    (cell: Cell, i: nat) =>
      if void && cell == root then Null
      else if IsField(c, cell) && cell in recipes then Made(FieldOf(c, cell).kind, recipes[cell], i)
      else Null
  }

  lemma MisfitFails(c: Contract, recipes: map<Cell, Recipe>, cell: Cell, o: Origin, fmt: Formats) returns (draw: Draw)
    requires ContractOk(c) && ReadsIso(fmt) && AllRecipes(c, recipes) && IsField(c, cell)
    requires Counted(CountsOf(c), c.relations[..|c.relations|]) && o == Final(c, |c.relations|, cell)
    requires IsField(c, o.root) && !(NullsFit(c, cell, o) && RepeatsFit(c, recipes, cell, o))
    ensures ByRecipe(c, recipes, draw)
    ensures Populated(BaseRecords(c, draw), c.relations) && !ColumnOk(c, draw, cell, fmt)
  {
    var void := !NullsFit(c, cell, o);
    draw := PlainDraw(c, recipes, o.root, void);
    ColumnShows(c, draw, cell);
    FinalFits(c, |c.relations|, cell);
    var col, field := Held(Pass(BaseRecords(c, draw), c.relations), cell), FieldOf(c, cell);
    assert col[0] == draw(o.root, 0);
    if void {
      assert !ValidValue(col[0], field, fmt);
    } else {
      var i, j := Repeated(c, recipes, cell, o, draw, col, fmt);
      assert !Defaults.Distinct(col);
    }
  }

  /** Two equal values in a unique column that does not fit. */
  lemma Repeated(
    c: Contract, recipes: map<Cell, Recipe>, cell: Cell, o: Origin, draw: Draw, col: seq<Value>, fmt: Formats)
      returns (i: nat, j: nat)
    requires ContractOk(c) && ReadsIso(fmt) && AllRecipes(c, recipes) && IsField(c, cell) && IsField(c, o.root)
    requires !RepeatsFit(c, recipes, cell, o) && FieldOf(c, o.root).kind == FieldOf(c, cell).kind
    requires draw == PlainDraw(c, recipes, o.root, false) && 1 <= o.len <= CountsOf(c)[o.root.recordType]
    requires |col| == CountsOf(c)[cell.recordType] && Shows(col, o, draw)
    ensures i < j < |col| && Canon(col[i]) == Canon(col[j]) != CNull
  {
    SpecCount(c, o.root.recordType);
    var field, recipe := FieldOf(c, o.root), recipes[o.root];
    if |col| > o.len {
      j := o.len;
      assert ComesFrom(col[j], o, draw);
      i :| i < o.len && col[j] == draw(o.root, i);
      MadeIsValid(field.(nullable := false), recipe, i, fmt);
    } else {
      i, j := 0, 2;
      assert (recipe.material.b0 + 2) % 2 == recipe.material.b0 % 2;
      assert col[0] == draw(o.root, 0) && col[2] == draw(o.root, 2);
    }
  }

  // ---- rows from columns --------------------------------------------------------------------

  ghost predicate SameFields(a: Records, b: Records) {
    a.Keys == b.Keys && forall n | n in a ::
      |a[n]| == |b[n]| && forall i | 0 <= i < |a[n]| :: b[n][i].Keys == a[n][i].Keys
  }

  ghost predicate HasFields(records: Records, relations: seq<RelationSpec>) {
    forall r | r in relations && r.sourceType in records ::
      forall row | row in records[r.sourceType] :: r.sourceField in row
  }

  /** The pass only overwrites fields. */
  lemma {:induction false} PassKeepsFields(records: Records, relations: seq<RelationSpec>)
    requires Populated(records, relations) && HasFields(records, relations)
    ensures SameFields(records, Pass(records, relations))
  {
    if relations == [] {
    } else {
      var n := |relations| - 1;
      assert relations[n] in relations && forall r | r in relations[..n] :: r in relations;
      PassKeepsFields(records, relations[..n]);
      var earlier, r := Pass(records, relations[..n]), relations[n];
      forall i | 0 <= i < |earlier[r.sourceType]|
        ensures Relate(earlier, r)[r.sourceType][i].Keys == records[r.sourceType][i].Keys
      {
        assert records[r.sourceType][i] in records[r.sourceType];
      }
    }
  }

  lemma BaseFields(c: Contract, draw: Draw)
    requires ContractOk(c)
    ensures HasFields(BaseRecords(c, draw), c.relations)
    ensures forall n: string, i: int | n in RecordMap(c.records) && 0 <= i < |BaseRecords(c, draw)[n]| ::
      BaseRecords(c, draw)[n][i].Keys == RecordMap(c.records)[n].fields.Keys
  {
    var base: Records := BaseRecords(c, draw);
    forall n: string, i: int | n in RecordMap(c.records) && 0 <= i < |base[n]|
      ensures base[n][i].Keys == RecordMap(c.records)[n].fields.Keys
    {
      assert base[n][i] == BaseRow(RecordMap(c.records)[n], draw, i);
    }
    forall r, row: Row | r in c.relations && r.sourceType in base && row in base[r.sourceType]
      ensures r.sourceField in row
    {
      RelationFields(c, r);
      var i :| 0 <= i < |base[r.sourceType]| && base[r.sourceType][i] == row;
    }
  }

  ghost predicate AllColumnsOk(c: Contract, draw: Draw, fmt: Formats)
    requires ContractOk(c) && Populated(BaseRecords(c, draw), c.relations)
  {
    forall cell | IsField(c, cell) :: ColumnOk(c, draw, cell, fmt)
  }

  /** Rows are acceptable if and only if all columns are. */
  lemma RowsByColumns(c: Contract, draw: Draw, fmt: Formats)
    requires ContractOk(c)
    ensures Populated(BaseRecords(c, draw), c.relations)
    ensures RecordsOk(c, Pass(BaseRecords(c, draw), c.relations), fmt) <==> AllColumnsOk(c, draw, fmt)
  {
    BasePopulated(c, draw);
    BaseShape(c, draw);
    var result := Pass(BaseRecords(c, draw), c.relations);
    forall spec | spec in c.records
      ensures spec.recordType in RecordMap(c.records) && RecordMap(c.records)[spec.recordType] == spec
    {
      SpecByName(c, spec);
    }
    forall spec | spec in c.records
      ensures |result[spec.recordType]| == spec.count
      ensures RowsOk(spec, result[spec.recordType], fmt) <==>
              forall f | f in spec.fields :: ColumnOk(c, draw, Cell(spec.recordType, f), fmt)
    {
      SpecCount(c, spec.recordType);
      SpecByColumns(c, draw, spec, fmt);
    }
    if AllColumnsOk(c, draw, fmt) {
      forall spec, f | spec in c.records && f in spec.fields ensures ColumnOk(c, draw, Cell(spec.recordType, f), fmt) {
        assert IsField(c, Cell(spec.recordType, f));
      }
    }
    if RecordsOk(c, result, fmt) {
      forall cell | IsField(c, cell) ensures ColumnOk(c, draw, cell, fmt) {
        SpecCount(c, cell.recordType);
        assert Cell(cell.recordType, cell.field) == cell;
      }
    }
  }

  lemma SpecByColumns(c: Contract, draw: Draw, spec: RecordSpec, fmt: Formats)
    requires ContractOk(c) && spec in c.records && Populated(BaseRecords(c, draw), c.relations)
    requires spec.recordType in RecordMap(c.records) && RecordMap(c.records)[spec.recordType] == spec
    ensures RowsOk(spec, Pass(BaseRecords(c, draw), c.relations)[spec.recordType], fmt) <==>
            forall f | f in spec.fields :: ColumnOk(c, draw, Cell(spec.recordType, f), fmt)
  {
    var result := Pass(BaseRecords(c, draw), c.relations);
    var rows := result[spec.recordType];
    BaseFields(c, draw);
    PassKeepsFields(BaseRecords(c, draw), c.relations);
    assert forall i | 0 <= i < |rows| :: rows[i].Keys == spec.fields.Keys;
    forall f | f in spec.fields
      ensures ColumnOk(c, draw, Cell(spec.recordType, f), fmt) <==> ColumnFits(Column(rows, f), spec.fields[f], fmt)
    {
      assert Held(result, Cell(spec.recordType, f)) == Column(rows, f);
      assert FieldOf(c, Cell(spec.recordType, f)) == spec.fields[f];
    }
    RowsAndColumns(spec, rows, fmt);
  }

  ghost predicate ColumnFits(col: seq<Value>, field: FieldSpec, fmt: Formats) {
    AllValid(col, field, fmt) && (field.unique ==> Defaults.Distinct(col))
  }

  lemma RowsAndColumns(spec: RecordSpec, rows: seq<Row>, fmt: Formats)
    requires forall i | 0 <= i < |rows| :: rows[i].Keys == spec.fields.Keys
    ensures RowsOk(spec, rows, fmt) <==> forall f | f in spec.fields :: ColumnFits(Column(rows, f), spec.fields[f], fmt)
  {
    forall f | f in spec.fields
      ensures ColumnFits(Column(rows, f), spec.fields[f], fmt) <==>
              && (forall i | 0 <= i < |rows| :: ValidValue(Get(rows[i], f), spec.fields[f], fmt))
              && (spec.fields[f].unique ==> Unique(rows, f))
    {
      UniqueIsDistinct(rows, f);
      assert forall i | 0 <= i < |rows| :: Column(rows, f)[i] == Get(rows[i], f);
    }
  }

  // ---- the condition --------------------------------------------------------------------------

  ghost predicate FieldFits(c: Contract, recipes: map<Cell, Recipe>, cell: Cell)
    requires ContractOk(c) && AllRecipes(c, recipes) && IsField(c, cell)
  {
    FinalFits(c, |c.relations|, cell);
    var o := Final(c, |c.relations|, cell);
    NullsFit(c, cell, o) && RepeatsFit(c, recipes, cell, o)
  }

  ghost predicate Accepted(c: Contract, draw: Draw, fmt: Formats)
    requires ContractOk(c)
  {
    Populated(BaseRecords(c, draw), c.relations) && Accepts(c, Pass(BaseRecords(c, draw), c.relations), fmt)
  }

  /**
   * A contract of default and sequence fields with sound relations is generated into datasets that
   * the check accepts, whichever allowed values are null, if and only if every field fits its final
   * origin: it is nullable if that is, and if it is unique, its rows do not outnumber the values that
   * arrive, nor are they more than two defaulted booleans.
   */
  lemma AcceptedExactly(c: Contract, recipes: map<Cell, Recipe>, fmt: Formats)
    requires ContractOk(c) && ReadsIso(fmt) && AllRecipes(c, recipes)
    requires Counted(CountsOf(c), c.relations) && Sound(CountsOf(c), c.relations)
    ensures (forall draw | ByRecipe(c, recipes, draw) :: Accepted(c, draw, fmt)) <==>
            (forall cell | IsField(c, cell) :: FieldFits(c, recipes, cell))
  {
    if forall cell | IsField(c, cell) :: FieldFits(c, recipes, cell) {
      forall draw | ByRecipe(c, recipes, draw) ensures Accepted(c, draw, fmt) {
        AcceptedWhenFits(c, recipes, draw, fmt);
      }
    }
    if cell :| IsField(c, cell) && !FieldFits(c, recipes, cell) {
      FinalFits(c, |c.relations|, cell);
      var draw := MisfitFails(c, recipes, cell, Final(c, |c.relations|, cell), fmt);
      RowsByColumns(c, draw, fmt);
      assert !Accepted(c, draw, fmt);
    }
  }

  lemma AcceptedWhenFits(c: Contract, recipes: map<Cell, Recipe>, draw: Draw, fmt: Formats)
    requires ContractOk(c) && ReadsIso(fmt) && AllRecipes(c, recipes) && ByRecipe(c, recipes, draw)
    requires Counted(CountsOf(c), c.relations) && Sound(CountsOf(c), c.relations)
    requires forall cell | IsField(c, cell) :: FieldFits(c, recipes, cell)
    ensures Accepted(c, draw, fmt)
  {
    RowsByColumns(c, draw, fmt);
    forall cell | IsField(c, cell) ensures ColumnOk(c, draw, cell, fmt) {
      FinalFits(c, |c.relations|, cell);
      assert FieldFits(c, recipes, cell);
      ColumnOkWhenFits(c, recipes, draw, cell, Final(c, |c.relations|, cell), fmt);
    }
    BaseShape(c, draw);
    SoundPassHolds(BaseRecords(c, draw), c.relations);
  }
}
