// dataset.py: the full check of a generated dataset against its contract.
module Dataset {
  import opened Values
  import opened Contracts
  import opened Store
  import opened Writes

  /** ISO parsing of dates and datetimes is code outside the model. */
  datatype Formats = Formats(isDate: string -> bool, isDateTime: string -> bool)

  predicate ValidValue(v: Value, spec: FieldSpec, fmt: Formats) {
    if v.Null? then spec.nullable
    else
      match spec.kind
      case StringType => v.Text?
      case IntegerType => v.Integer?
      case NumberType => v.Integer? || v.Number?
      case BooleanType => v.Boolean?
      case DateType => v.Text? && fmt.isDate(v.s)
      case DateTimeType => v.Text? && fmt.isDateTime(v.s)
  }

  // ---- what acceptance means ------------------------------------------------------

  ghost predicate RowOk(spec: RecordSpec, row: Row, fmt: Formats) {
    row.Keys == spec.fields.Keys && forall f | f in spec.fields :: ValidValue(Get(row, f), spec.fields[f], fmt)
  }

  /** No two rows carry equal non-null values; 1, 1.0 and True are equal. */
  ghost predicate Unique(rows: seq<Row>, f: string) {
    forall i, j | 0 <= i < j < |rows| ::
      Canon(Get(rows[i], f)) != CNull ==> Canon(Get(rows[i], f)) != Canon(Get(rows[j], f))
  }

  ghost predicate RowsOk(spec: RecordSpec, rows: seq<Row>, fmt: Formats) {
    && (forall i | 0 <= i < |rows| :: RowOk(spec, rows[i], fmt))
    && (forall f | f in spec.fields && spec.fields[f].unique :: Unique(rows, f))
  }

  ghost predicate RecordsOk(c: Contract, records: Records, fmt: Formats) {
    && records.Keys == Elems(Names(c))
    && forall r | r in c.records ::
         |records[r.recordType]| == r.count && RowsOk(r, records[r.recordType], fmt)
  }

  function Targets(rows: seq<Row>, f: string): set<Canonical> {
    set row | row in rows :: Canon(Get(row, f))
  }

  /** Every source value has an equal target value; an optional source may be null instead. */
  ghost predicate RelationHolds(source: seq<Row>, target: seq<Row>, r: RelationSpec) {
    forall i | 0 <= i < |source| ::
      || (Get(source[i], r.sourceField).Null? && !r.required)
      || Canon(Get(source[i], r.sourceField)) in Targets(target, r.targetField)
  }

  ghost predicate Holds(records: Records, r: RelationSpec) {
    && r.sourceType in records && r.targetType in records
    && RelationHolds(records[r.sourceType], records[r.targetType], r)
  }

  ghost predicate Accepts(c: Contract, records: Records, fmt: Formats) {
    RecordsOk(c, records, fmt) && forall r | r in c.relations :: Holds(records, r)
  }

  // ---- the code -----------------------------------------------------------------------

  /** The values seen so far in each unique field. */
  ghost predicate Tracks(spec: RecordSpec, rows: seq<Row>, seen: map<string, set<Canonical>>) {
    && (forall f :: f in seen <==> f in spec.fields && spec.fields[f].unique)
    && forall f | f in seen :: seen[f] == Targets(rows, f) - {CNull}
  }

  lemma TargetsStep(rows: seq<Row>, f: string, i: nat)
    requires i < |rows|
    ensures Targets(rows[..i + 1], f) == Targets(rows[..i], f) + {Canon(Get(rows[i], f))}
  {
    assert rows[..i + 1] == rows[..i] + [rows[i]];
  }

  lemma UniqueStep(rows: seq<Row>, f: string, i: nat)
    requires i < |rows| && Unique(rows[..i], f)
    ensures Unique(rows[..i + 1], f) <==>
            Canon(Get(rows[i], f)) == CNull || Canon(Get(rows[i], f)) !in Targets(rows[..i], f)
  {
    var v, more := Canon(Get(rows[i], f)), rows[..i + 1];
    assert more[..i] == rows[..i];
    if v != CNull && v in Targets(rows[..i], f) {
      var row :| row in rows[..i] && Canon(Get(row, f)) == v;
      var k :| 0 <= k < i && rows[..i][k] == row;
      assert Canon(Get(more[k], f)) == Canon(Get(more[i], f)) != CNull;
    } else {
      forall k, l | 0 <= k < l < |more| && Canon(Get(more[k], f)) != CNull
        ensures Canon(Get(more[k], f)) != Canon(Get(more[l], f))
      {
        if l == i {
          assert rows[..i][k] in rows[..i];
        } else {
          assert more[k] == rows[..i][k] && more[l] == rows[..i][l];
        }
      }
    }
  }

  lemma UniquePrefix(rows: seq<Row>, f: string, i: nat)
    requires i <= |rows| && Unique(rows, f)
    ensures Unique(rows[..i], f)
  {
  }

  /** One row: its field set, each value, and each unique value against those seen before. */
  method CheckRow(spec: RecordSpec, row: Row, fmt: Formats, seen0: map<string, set<Canonical>>)
      returns (ok: bool, seen: map<string, set<Canonical>>)
    requires forall f :: f in seen0 <==> f in spec.fields && spec.fields[f].unique
    ensures ok <==> RowOk(spec, row, fmt) && forall f | f in seen0 ::
      Canon(Get(row, f)) == CNull || Canon(Get(row, f)) !in seen0[f]
    ensures ok ==> seen.Keys == seen0.Keys
    ensures ok ==> forall f | f in seen0 :: seen[f] == seen0[f] + ({Canon(Get(row, f))} - {CNull})
  {
    seen := seen0;
    if row.Keys != spec.fields.Keys {
      return false, seen;
    }
    var left := spec.fields.Keys;
    while left != {}
      invariant left <= spec.fields.Keys && seen.Keys == seen0.Keys
      invariant forall f | f in spec.fields && f !in left :: ValidValue(Get(row, f), spec.fields[f], fmt)
      invariant forall f | f in seen0 && f !in left :: Canon(Get(row, f)) == CNull || Canon(Get(row, f)) !in seen0[f]
      invariant forall f | f in seen0 ::
        seen[f] == if f in left then seen0[f] else seen0[f] + ({Canon(Get(row, f))} - {CNull})
      decreases left
    {
      var name :| name in left;
      var field, value := spec.fields[name], row[name];
      if !ValidValue(value, field, fmt) {
        return false, seen;
      }
      if field.unique && !value.Null? {
        if Canon(value) in seen[name] {
          return false, seen;
        }
        seen := seen[name := seen[name] + {Canon(value)}];
      }
      left := left - {name};
    }
    return true, seen;
  }

  /** The rows of one record type, with a set of seen values per unique field. */
  method CheckRows(spec: RecordSpec, rows: seq<Row>, fmt: Formats) returns (ok: bool)
    ensures ok <==> RowsOk(spec, rows, fmt)
  {
    var seen: map<string, set<Canonical>> := map f | f in spec.fields && spec.fields[f].unique :: {};
    for i := 0 to |rows|
      invariant RowsOk(spec, rows[..i], fmt) && Tracks(spec, rows[..i], seen)
    {
      ghost var before := seen;
      ok, seen := CheckRow(spec, rows[i], fmt, seen);
      RowsOkStep(spec, rows, fmt, i, before);
      if !ok {
        return;
      }
      TracksStep(spec, rows, i, before, seen);
    }
    assert rows[..|rows|] == rows;
    ok := true;
  }

  lemma TracksStep(
    spec: RecordSpec, rows: seq<Row>, i: nat, before: map<string, set<Canonical>>, after: map<string, set<Canonical>>)
    requires i < |rows| && Tracks(spec, rows[..i], before) && after.Keys == before.Keys
    requires forall f | f in before :: after[f] == before[f] + ({Canon(Get(rows[i], f))} - {CNull})
    ensures Tracks(spec, rows[..i + 1], after)
  {
    forall f | f in after ensures after[f] == Targets(rows[..i + 1], f) - {CNull} {
      TargetsStep(rows, f, i);
    }
  }

  /** A row that fails makes the whole record type fail; one that passes extends the checked prefix. */
  lemma RowsOkStep(spec: RecordSpec, rows: seq<Row>, fmt: Formats, i: nat, seen: map<string, set<Canonical>>)
    requires i < |rows| && RowsOk(spec, rows[..i], fmt) && Tracks(spec, rows[..i], seen)
    ensures var passes := RowOk(spec, rows[i], fmt) && forall f | f in seen ::
        Canon(Get(rows[i], f)) == CNull || Canon(Get(rows[i], f)) !in seen[f];
      if passes then RowsOk(spec, rows[..i + 1], fmt) else !RowsOk(spec, rows, fmt)
  {
    var more := rows[..i + 1];
    assert forall k | 0 <= k < i :: more[k] == rows[..i][k];
    forall f | f in seen
      ensures Unique(more, f) <==> Canon(Get(rows[i], f)) == CNull || Canon(Get(rows[i], f)) !in seen[f]
      ensures !Unique(more, f) ==> !Unique(rows, f)
    {
      UniqueStep(rows, f, i);
      if Unique(rows, f) { UniquePrefix(rows, f, i + 1); }
    }
  }

  method CheckRecords(c: Contract, records: Records, fmt: Formats) returns (ok: bool)
    requires records.Keys == Elems(Names(c))
    ensures ok <==> RecordsOk(c, records, fmt)
  {
    RecordTypesIn(c, records);
    for i := 0 to |c.records|
      invariant forall k | 0 <= k < i ::
        |records[c.records[k].recordType]| == c.records[k].count
        && RowsOk(c.records[k], records[c.records[k].recordType], fmt)
    {
      var spec := c.records[i];
      assert spec in c.records;
      var rows := records[spec.recordType];
      if |rows| != spec.count {
        return false;
      }
      var good := CheckRows(spec, rows, fmt);
      if !good {
        return false;
      }
    }
    return true;
  }

  lemma RecordTypesIn(c: Contract, records: Records)
    requires records.Keys == Elems(Names(c))
    ensures forall r | r in c.records :: r.recordType in records
  {
    forall r | r in c.records ensures r.recordType in records {
      var i :| 0 <= i < |c.records| && c.records[i] == r;
      assert Names(c)[i] == r.recordType;
      assert r.recordType in Elems(Names(c));
    }
  }

  method CheckRelation(source: seq<Row>, target: seq<Row>, relation: RelationSpec) returns (ok: bool)
    ensures ok <==> RelationHolds(source, target, relation)
  {
    var targetValues := Targets(target, relation.targetField);
    for i := 0 to |source|
      invariant forall k | 0 <= k < i ::
        || (Get(source[k], relation.sourceField).Null? && !relation.required)
        || Canon(Get(source[k], relation.sourceField)) in targetValues
    {
      var value := Get(source[i], relation.sourceField);
      if value.Null? && !relation.required {
        continue;
      }
      if Canon(value) !in targetValues {
        return false;
      }
    }
    return true;
  }

  method CheckRelations(relations: seq<RelationSpec>, records: Records) returns (ok: bool)
    requires forall r | r in relations :: r.sourceType in records && r.targetType in records
    ensures ok <==> forall r | r in relations :: Holds(records, r)
  {
    for i := 0 to |relations|
      invariant forall k | 0 <= k < i :: Holds(records, relations[k])
    {
      var relation := relations[i];
      assert relation in relations;
      ok := CheckRelation(records[relation.sourceType], records[relation.targetType], relation);
      if !ok {
        return;
      }
    }
    ok := true;
  }

  /** `sum(len(rows) for rows in records.values())` */
  method CountRows(c: Contract, records: Records) returns (total: nat)
    requires forall r | r in c.records :: r.recordType in records && |records[r.recordType]| == r.count
    ensures total == TotalCount(c.records)
  {
    total := 0;
    for i := 0 to |c.records|
      invariant total == TotalCount(c.records[..i])
    {
      assert c.records[..i + 1][..i] == c.records[..i];
      assert c.records[i] in c.records;
      total := total + |records[c.records[i].recordType]|;
    }
    assert c.records[..|c.records|] == c.records;
  }

  /**
   * Accepts exactly the datasets that meet the contract declaratively and fit in the byte bound.
   * `encoded` is the size of the canonical document, `digest` its digest.
   */
  method ValidateGeneratedDataset(c: Contract, records: Records, fmt: Formats, encoded: nat, digest: string)
      returns (r: Result<Dataset, Error>)
    requires ContractOk(c)
    ensures r.Ok? <==> Accepts(c, records, fmt) && encoded <= c.maxBytes
    ensures r.Ok? ==> r.value == Dataset(records, r.value.recordCount, encoded, digest)
    ensures r.Ok? ==> r.value.recordCount == TotalCount(c.records) <= c.maxRecords
    ensures r.Err? ==> r.error == if Accepts(c, records, fmt) then OutputLimitExceeded else ContractInvalid
  {
    if records.Keys != Elems(Names(c)) {
      return Err(ContractInvalid);
    }
    var good := CheckRecords(c, records, fmt);
    if !good {
      return Err(ContractInvalid);
    }
    RelationTypesIn(c, records);
    good := CheckRelations(c.relations, records);
    if !good {
      return Err(ContractInvalid);
    }
    if encoded > c.maxBytes {
      return Err(OutputLimitExceeded);
    }
    RecordTypesIn(c, records);
    var count := CountRows(c, records);
    return Ok(Dataset(records, count, encoded, digest));
  }

  lemma RelationTypesIn(c: Contract, records: Records)
    requires ContractOk(c) && records.Keys == Elems(Names(c))
    ensures forall r | r in c.relations :: r.sourceType in records && r.targetType in records
  {
    CleanIsResolvable(c);
    forall r | r in c.relations ensures r.sourceType in records && r.targetType in records {
      assert r.sourceType in Elems(Names(c)) && r.targetType in Elems(Names(c));
    }
  }

  /** An accepted dataset is what the store expects of a write. */
  lemma AcceptedFits(c: Contract, records: Records, fmt: Formats)
    requires Accepts(c, records, fmt)
    ensures RecordsFit(c, records)
  {
    RecordTypesIn(c, records);
    forall r, row | r in c.records && row in records[r.recordType] ensures row.Keys == r.fields.Keys {
      var i :| 0 <= i < |records[r.recordType]| && records[r.recordType][i] == row;
      assert RowOk(r, records[r.recordType][i], fmt);
    }
  }

  // ---- acceptance, row by row and value by value --------------------------------------------

  /** The types that take a value: True is no integer, an integer is a number, dates are texts. */
  lemma ValidExactly(v: Value, spec: FieldSpec, fmt: Formats)
    ensures ValidValue(v, spec, fmt) <==>
      match v
      case Null => spec.nullable
      case Text(s) =>
        || spec.kind == StringType
        || (spec.kind == DateType && fmt.isDate(s)) || (spec.kind == DateTimeType && fmt.isDateTime(s))
      case Integer(_) => spec.kind == IntegerType || spec.kind == NumberType
      case Number(_) => spec.kind == NumberType
      case Boolean(_) => spec.kind == BooleanType
  {
  }

  /** Exactly the declared fields, each with a value of its type. */
  ghost predicate RowFitting(spec: RecordSpec, row: Row, fmt: Formats) {
    && (forall f :: f in row <==> f in spec.fields)
    && forall f | f in spec.fields && f in row :: ValidValue(row[f], spec.fields[f], fmt)
  }

  /** No two rows have the same value in a unique field, nulls aside. */
  ghost predicate NoRepeats(spec: RecordSpec, rows: seq<Row>) {
    forall f, i, j | f in spec.fields && spec.fields[f].unique && 0 <= i < j < |rows| ::
      Get(rows[i], f).Null? || !Same(Get(rows[i], f), Get(rows[j], f))
  }

  /** Each source row has a target row with the same value, or may have none. */
  ghost predicate Met(source: seq<Row>, target: seq<Row>, r: RelationSpec) {
    forall row | row in source ::
      || (Get(row, r.sourceField).Null? && !r.required)
      || exists to :: to in target && Same(Get(row, r.sourceField), Get(to, r.targetField))
  }

  lemma RowExactly(spec: RecordSpec, row: Row, fmt: Formats)
    ensures RowOk(spec, row, fmt) <==> RowFitting(spec, row, fmt)
  {
    if RowFitting(spec, row, fmt) {
      assert row.Keys == spec.fields.Keys;
    }
  }

  lemma UniqueExactly(spec: RecordSpec, rows: seq<Row>)
    ensures (forall f | f in spec.fields && spec.fields[f].unique :: Unique(rows, f)) <==> NoRepeats(spec, rows)
  {
    forall a, b ensures (Canon(a) == Canon(b) <==> Same(a, b)) && (Canon(a) == CNull <==> a.Null?) {
      CanonIsSame(a, b);
    }
  }

  lemma MetExactly(source: seq<Row>, target: seq<Row>, r: RelationSpec)
    ensures RelationHolds(source, target, r) <==> Met(source, target, r)
  {
    forall v ensures Canon(v) in Targets(target, r.targetField) <==>
                     exists to :: to in target && Same(v, Get(to, r.targetField))
    {
      forall to: Row ensures Canon(v) == Canon(Get(to, r.targetField)) <==> Same(v, Get(to, r.targetField)) {
        CanonIsSame(v, Get(to, r.targetField));
      }
    }
  }

  /** The record types are the contract's, with as many rows as declared, all fitting, and no repeats. */
  ghost predicate RecordsFitting(c: Contract, records: Records, fmt: Formats) {
    && (forall n :: n in records <==> exists spec :: spec in c.records && spec.recordType == n)
    && forall spec | spec in c.records && spec.recordType in records ::
         && |records[spec.recordType]| == spec.count
         && (forall row | row in records[spec.recordType] :: RowFitting(spec, row, fmt))
         && NoRepeats(spec, records[spec.recordType])
  }

  lemma RowsExactly(spec: RecordSpec, rows: seq<Row>, fmt: Formats)
    ensures RowsOk(spec, rows, fmt) <==>
            (forall row | row in rows :: RowFitting(spec, row, fmt)) && NoRepeats(spec, rows)
  {
    UniqueExactly(spec, rows);
    forall row ensures RowOk(spec, row, fmt) <==> RowFitting(spec, row, fmt) {
      RowExactly(spec, row, fmt);
    }
    if forall i | 0 <= i < |rows| :: RowOk(spec, rows[i], fmt) {
      forall row | row in rows ensures RowOk(spec, row, fmt) {
      }
    }
  }

  lemma RecordsExactly(c: Contract, records: Records, fmt: Formats)
    ensures RecordsOk(c, records, fmt) <==> RecordsFitting(c, records, fmt)
  {
    forall spec | spec in c.records && spec.recordType in records
      ensures RowsOk(spec, records[spec.recordType], fmt) <==>
              (forall row | row in records[spec.recordType] :: RowFitting(spec, row, fmt))
              && NoRepeats(spec, records[spec.recordType])
    {
      RowsExactly(spec, records[spec.recordType], fmt);
    }
    forall n ensures n in Elems(Names(c)) <==> exists spec :: spec in c.records && spec.recordType == n {
      if n in Elems(Names(c)) {
        var i :| 0 <= i < |c.records| && Names(c)[i] == n;
        assert c.records[i] in c.records;
      }
      if spec :| spec in c.records && spec.recordType == n {
        var i :| 0 <= i < |c.records| && c.records[i] == spec;
        assert Names(c)[i] == n;
      }
    }
    if RecordsFitting(c, records, fmt) {
      assert records.Keys == Elems(Names(c));
    }
  }

  /** A dataset is accepted if and only if its records fit and every relation is met. */
  lemma AcceptsExactly(c: Contract, records: Records, fmt: Formats)
    ensures Accepts(c, records, fmt) <==>
      && RecordsFitting(c, records, fmt)
      && forall r | r in c.relations ::
           && r.sourceType in records && r.targetType in records
           && Met(records[r.sourceType], records[r.targetType], r)
  {
    RecordsExactly(c, records, fmt);
    forall r | r in c.relations && r.sourceType in records && r.targetType in records
      ensures Holds(records, r) <==> Met(records[r.sourceType], records[r.targetType], r)
    {
      MetExactly(records[r.sourceType], records[r.targetType], r);
    }
  }
}
