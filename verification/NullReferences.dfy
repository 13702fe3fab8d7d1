// A write after which an existing null keeps the in-memory store, and not the database, from deleting.
module NullReferences {
  import opened Values
  import opened Kahn
  import opened Contracts
  import opened Store
  import opened Integrity
  import opened Undo
  import opened W = Writes
  import opened Dataset
  import opened EndToEnd

  const SITES := TableId("app", "site")
  const ASSETS := TableId("app", "asset")

  // sites have a key and an optional unique code; assets may refer to a site by its code
  const SPEC := RecordSpec(
    "site", 1, DestinationSpec("app", "site", map["id" := "id", "code" := "code"], ["id"]),
    map["id" := FieldSpec(StringType, false, true), "code" := FieldSpec(StringType, true, true)])

  const CONTRACT := Contract([SPEC], [], 1, 4096)

  const BY_CODE := ForeignKey(["code"], SITES, ["code"])

  const TABLES: map<TableId, TableDef> := map[
    SITES := TableDef(map["id" := StringType, "code" := StringType], [["id"], ["code"]], {"id"}, []),
    ASSETS := TableDef(map["asset" := StringType, "code" := StringType], [["asset"]], {"asset"}, [BY_CODE])]

  const UNPLACED: Row := map["asset" := Text("a1"), "code" := Null]
  const SITE_ROW: Row := map["id" := Text("s1"), "code" := Null]
  const RECORDS: Records := map["site" := [SITE_ROW]]

  /** One asset without a site is there before. */
  function Before(t: Tenant): Db {
    Db(map[(t, ASSETS) := [UNPLACED]], map[], map[], map[], map[])
  }

  function AnyIso(): Formats {
    Formats(_ => true, _ => true)
  }

  lemma NamesDiffer()
    ensures "id" != "code" && "asset" != "code" && SITES != ASSETS
  {
    assert "id"[0] != "code"[0] && "asset"[0] != "code"[0] && "site"[0] != "asset"[0];
  }

  lemma ContractIsOk()
    ensures ContractOk(CONTRACT)
  {
    NamesDiffer();
    assert Names(CONTRACT) == ["site"] && CONTRACT.records[..0] == [];
    assert TotalCount(CONTRACT.records) == 1;
    assert GraphOf(CONTRACT).edges == {};
    LinearizationAcyclic(GraphOf(CONTRACT), ["site"]);
  }

  lemma DatasetIsAccepted()
    ensures Accepts(CONTRACT, RECORDS, AnyIso())
  {
    NamesDiffer();
    assert Names(CONTRACT) == ["site"];
    assert RowOk(SPEC, SITE_ROW, AnyIso());
  }

  lemma TablesSuit(rules: Rules, t: Tenant)
    ensures Suits(Catalog(TABLES, rules), CONTRACT)
    ensures forall ins :: InSites(ins) ==> Unoccupied(Catalog(TABLES, rules), Before(t).rows, t, ins)
  {
    NamesDiffer();
    assert SPEC.destination.columns["id"] == "id" && "id" in SPEC.destination.columns.Values;
    assert SPEC.destination.columns["code"] == "code" && "code" in SPEC.destination.columns.Values;
    assert HasUniqueField(SPEC, ["id"]) && HasUniqueField(SPEC, ["code"]);
  }

  ghost predicate InSites(ins: seq<Insertion>) {
    forall x | x in ins :: x.table == SITES
  }

  /** Declared keys and references hold, for everyone. */
  ghost predicate AllConsistent(cat: Catalog, rows: Rows) {
    forall u :: Consistent(cat, rows, u)
  }

  lemma RowsSuit(cat: Catalog, t: Tenant)
    requires cat.tables == TABLES
    ensures AllConsistent(cat, Before(t).rows)
  {
    forall u ensures Consistent(cat, Before(t).rows, u) { RowsSuitFor(cat, t, u); }
  }

  lemma RowsSuitFor(cat: Catalog, t: Tenant, u: Tenant)
    requires cat.tables == TABLES
    ensures Consistent(cat, Before(t).rows, u)
  {
    assert Tuple(UNPLACED, ["code"])[0] == CNull;
    forall source, r | source in cat.tables && r in At(Before(t).rows, u, source)
      ensures ForeignKeysMet(cat, cat.tables[source], Before(t).rows, u, r)
    {
      assert source == ASSETS && r == UNPLACED;
    }
    forall id, key | HasKey(cat, id, key) ensures Integrity.Distinct(At(Before(t).rows, u, id), key) {
      assert |At(Before(t).rows, u, id)| <= 1;
    }
    forall v | v != u ensures KeysApart(cat, Before(t).rows, u, v) {
      assert forall id :: At(Before(t).rows, u, id) == [] || At(Before(t).rows, v, id) == [];
    }
  }

  lemma KeysSuit(rules: Rules, t: Tenant)
    ensures var cat := Catalog(TABLES, rules);
      TargetsAreKeys(cat) && AllConsistent(cat, Before(t).rows) && KeyCovers(cat, SPEC)
  {
    RowsSuit(Catalog(TABLES, rules), t);
    CodeIsKey(rules);
    KeyIsCovered(rules);
  }

  lemma CodeIsKey(rules: Rules)
    ensures TargetsAreKeys(Catalog(TABLES, rules))
  {
    NamesDiffer();
    assert ["code"] in TABLES[SITES].uniqueKeys;
  }

  lemma KeyIsCovered(rules: Rules)
    ensures KeyCovers(Catalog(TABLES, rules), SPEC)
  {
    NamesDiffer();
    assert ["id"] in TABLES[SITES].uniqueKeys;
    assert SPEC.destination.columns["id"] == "id" && IsKeyColumn(SPEC.destination, "id");
    assert CoveredBy(SPEC.destination, ["id"]);
  }

  lemma OnlySites(c: Contract, records: Records, fmt: Formats)
    requires c == CONTRACT && records == RECORDS && ContractOk(c) && Accepts(c, records, fmt) && RecordsFit(c, records)
    ensures InSites(AllInsertions(c, records))
  {
    AllIntoOne(c, records, fmt, SITES);
  }

  lemma AllIntoOne(c: Contract, records: Records, fmt: Formats, id: TableId)
    requires ContractOk(c) && Accepts(c, records, fmt) && RecordsFit(c, records)
    requires forall spec | spec in c.records :: Table(spec.destination) == id
    ensures forall x | x in AllInsertions(c, records) :: x.table == id
  {
    var all := AllInsertions(c, records);
    forall x | x in all ensures x.table == id {
      var k :| 0 <= k < |all| && all[k] == x;
      var spec, rank, row := AcceptedOrigin(c, records, fmt, k);
    }
  }

  /** The site's one row is among the insertions. */
  lemma TheSite(c: Contract, records: Records) returns (k: nat, rank: nat)
    requires c == CONTRACT && records == RECORDS && ContractOk(c) && RecordsFit(c, records)
    ensures k < |AllInsertions(c, records)| && RowFits(SPEC, SITE_ROW)
    ensures AllInsertions(c, records)[k] == InsertionOf(SPEC, rank, SITE_ROW)
  {
    var i := GroupOf(c, records, SPEC);
    var g := AllGroups(c, records)[i];
    assert GroupsOk(AllGroups(c, records)[..i]);
    k, rank := |Flatten(AllGroups(c, records)[..i])|, g.rank;
    GroupRow(c, records, i, 0, k);
  }

  lemma CodeIsDeclared(cat: Catalog, t: Tenant)
    requires cat.tables == TABLES
    ensures ASSETS in cat.tables && BY_CODE in cat.tables[ASSETS].foreignKeys
    ensures UNPLACED in At(Before(t).rows, t, ASSETS)
  {
    NamesDiffer();
  }

  lemma MissingCodes(spec: RecordSpec, rank: nat)
    requires spec == SPEC && RowFits(spec, SITE_ROW)
    ensures InsertionOf(spec, rank, SITE_ROW).table == SITES
    ensures Refers(BY_CODE, UNPLACED, InsertionOf(spec, rank, SITE_ROW).row)
    ensures CNull in Tuple(UNPLACED, BY_CODE.columns)
  {
    assert "code" in spec.destination.columns && spec.destination.columns["code"] == "code" by {
      NamesDiffer();
    }
    ColumnTuple(spec, rank, SITE_ROW, "code");
    assert Tuple(UNPLACED, ["code"]) == [CNull];
    assert Tuple(UNPLACED, ["code"])[0] == CNull;
  }

  /**
   * The write commits under either repository's rules.  The delete that follows at once is refused by
   * the in-memory store, which takes the unplaced asset for a reference to the site without a code,
   * although every declared key and reference holds and the written key covers a unique key; the
   * database carries it out.
   */
  lemma NullTargetBlocksUndo(t: Tenant, w: GenerationWrite, rules: Rules)
    requires w.request.contract == CONTRACT && w.dataset.records == RECORDS
    ensures WriteOk(w) && Accepts(CONTRACT, RECORDS, AnyIso()) && KeyCovers(Catalog(TABLES, rules), SPEC)
    ensures var cat := Catalog(TABLES, rules);
      TargetsAreKeys(cat) && AllConsistent(cat, Before(t).rows)
    ensures var cat := Catalog(TABLES, rules);
      var (committed, created) := CommitNext(cat, Before(t), t, "key", BatchOf(w), 0);
      var (after, deleted) := DeleteNext(cat, committed, t, w.generationId, 1);
      && created.Committed?
      && if rules.InStore? then deleted == Refused(DeleteConflict) && after == committed
         else deleted.Deleted? && forall u :: SameFor(after.rows, Before(t).rows, u)
  {
    ContractIsOk();
    DatasetIsAccepted();
    AcceptedFits(CONTRACT, RECORDS, AnyIso());
    KeysSuit(rules, t);
    BatchParts(w);
    InsertionRanksFall(CONTRACT, RECORDS);
    ReferencesHoldForAll(Catalog(TABLES, rules), Before(t).rows, t);
    CommitsAndUndoes(Catalog(TABLES, rules), t, w.request.contract, w.dataset.records, HeaderOf(w));
  }

  lemma ReferencesHoldForAll(cat: Catalog, rows: Rows, t: Tenant)
    requires AllConsistent(cat, rows)
    ensures SharedReferencesHold(cat, rows, t)
  {
    forall u ensures ReferencesHold(cat, rows, u) {
      assert Consistent(cat, rows, u);
    }
  }

  lemma CommitsAndUndoes(cat: Catalog, t: Tenant, c: Contract, records: Records, header: Header)
    requires cat.tables == TABLES && c == CONTRACT && records == RECORDS
    requires ContractOk(c) && Accepts(c, records, AnyIso()) && RecordsFit(c, records)
    requires TargetsAreKeys(cat) && SharedReferencesHold(cat, Before(t).rows, t) && KeyCovers(cat, SPEC)
    ensures var b := Batch(header, AllInsertions(c, records));
      var (committed, created) := CommitNext(cat, Before(t), t, "key", b, 0);
      var (after, deleted) := DeleteNext(cat, committed, t, header.generationId, 1);
      && created.Committed?
      && if cat.rules.InStore? then deleted == Refused(DeleteConflict) && after == committed
         else deleted.Deleted? && forall u :: SameFor(after.rows, Before(t).rows, u)
  {
    SitesReady(cat, t, c, records);
    var k, source, fk, candidate := NullByNull(cat, t, c, records);
    CommittedNotDeleted(cat, Before(t), t, Batch(header, AllInsertions(c, records)), k, source, fk, candidate);
  }

  lemma SitesReady(cat: Catalog, t: Tenant, c: Contract, records: Records)
    requires cat.tables == TABLES && c == CONTRACT && records == RECORDS
    requires ContractOk(c) && Accepts(c, records, AnyIso()) && RecordsFit(c, records) && KeyCovers(cat, SPEC)
    ensures StageAll(cat, Before(t).rows, t, AllInsertions(c, records)).Ok?
    ensures AllIdentified(cat, AllInsertions(c, records)) && RanksFall(AllInsertions(c, records))
  {
    SitesCommit(cat, t, c, records);
    AllSpecsCovered(cat, c);
    SitesIdentified(cat, c, records);
    InsertionRanksFall(c, records);
  }

  lemma AllSpecsCovered(cat: Catalog, c: Contract)
    requires c == CONTRACT && KeyCovers(cat, SPEC)
    ensures AllCovered(cat, c)
  {
  }

  ghost predicate AllCovered(cat: Catalog, c: Contract) {
    forall spec | spec in c.records :: KeyCovers(cat, spec)
  }

  lemma NullByNull(cat: Catalog, t: Tenant, c: Contract, records: Records)
      returns (k: nat, source: TableId, fk: ForeignKey, candidate: Row)
    requires cat.tables == TABLES && c == CONTRACT && records == RECORDS && ContractOk(c) && RecordsFit(c, records)
    ensures k < |AllInsertions(c, records)| && fk.target == AllInsertions(c, records)[k].table
    ensures Refers(fk, candidate, AllInsertions(c, records)[k].row) && CNull in Tuple(candidate, fk.columns)
    ensures source in cat.tables && fk in cat.tables[source].foreignKeys && candidate in At(Before(t).rows, t, source)
  {
    var rank;
    k, rank := TheSite(c, records);
    MissingCodes(SPEC, rank);
    CodeIsDeclared(cat, t);
    source, fk, candidate := ASSETS, BY_CODE, UNPLACED;
  }

  lemma SitesCommit(cat: Catalog, t: Tenant, c: Contract, records: Records)
    requires cat.tables == TABLES && c == CONTRACT && records == RECORDS
    requires ContractOk(c) && Accepts(c, records, AnyIso()) && RecordsFit(c, records)
    ensures StageAll(cat, Before(t).rows, t, AllInsertions(c, records)).Ok?
  {
    OnlySites(c, records, AnyIso());
    TablesSuit(cat.rules, t);
    assert cat == Catalog(TABLES, cat.rules);
    AcceptedDatasetCommits(cat, Before(t).rows, t, c, records, AnyIso());
  }

  lemma CommittedNotDeleted(
    cat: Catalog, db: Db, t: Tenant, b: Batch, k: nat, source: TableId, fk: ForeignKey, candidate: Row)
    requires db.generations == map[] && db.idempotency == map[] && Tracked(db)
    requires SharedReferencesHold(cat, db.rows, t) && StageAll(cat, db.rows, t, b.ins).Ok? && TargetsAreKeys(cat)
    requires AllIdentified(cat, b.ins)
    requires k < |b.ins| && source in cat.tables && fk in cat.tables[source].foreignKeys && fk.target == b.ins[k].table
    requires candidate in At(db.rows, t, source) && Refers(fk, candidate, b.ins[k].row)
    requires CNull in Tuple(candidate, fk.columns) && RanksFall(b.ins)
    ensures var (committed, created) := CommitNext(cat, db, t, "key", b, 0);
      var (after, deleted) := DeleteNext(cat, committed, t, b.header.generationId, 1);
      && created.Committed?
      && if cat.rules.InStore? then deleted == Refused(DeleteConflict) && after == committed
         else deleted.Deleted? && forall u :: SameFor(after.rows, db.rows, u)
  {
    CommitOfNewKey(cat, db, t, "key", b, 0);
    DeleteUndoesCommit(cat, db, t, "key", b, 0, 1);
    NullStopsUndo(cat, db.rows, t, b.ins, k, source, fk, candidate);
  }

  /** A null that was there before, and equals a null of a new row, stops the undo in memory only. */
  lemma NullStopsUndo(
    cat: Catalog, rows: Rows, t: Tenant, ins: seq<Insertion>, k: nat, source: TableId, fk: ForeignKey, candidate: Row)
    requires SharedReferencesHold(cat, rows, t) && StageAll(cat, rows, t, ins).Ok? && TargetsAreKeys(cat)
    requires AllIdentified(cat, ins)
    requires k < |ins| && source in cat.tables && fk in cat.tables[source].foreignKeys && fk.target == ins[k].table
    requires candidate in At(rows, t, source) && Refers(fk, candidate, ins[k].row)
    requires CNull in Tuple(candidate, fk.columns)
    ensures UndoClear(cat, rows, t, ins) <==> cat.rules.InDatabase?
  {
    forall x | x in ins ensures Filled(x.Key()) && (x.table in cat.tables ==> KeyIdentifies(cat.tables[x.table], x)) {
      assert Identified(cat, x);
    }
    UndoClearExactly(cat, rows, t, ins);
    StagePrefix(cat, rows, t, ins, k);
    StagedRows(cat, rows, t, ins[..k], t, source);
    var staged := StageAll(cat, rows, t, ins[..k]).value;
    assert NullReference(cat, Put(staged, t, ins[k]), t, ins[k], source, fk, candidate);
    if NoNullReferences(cat, rows, t, ins) {
      NoNullReferenceAt(cat, rows, t, ins, k);
    }
  }

  ghost predicate Identified(cat: Catalog, x: Insertion) {
    Filled(x.Key()) && (x.table in cat.tables ==> KeyIdentifies(cat.tables[x.table], x))
  }

  ghost predicate AllIdentified(cat: Catalog, ins: seq<Insertion>) {
    forall x | x in ins :: Identified(cat, x)
  }

  lemma SiteIdentified(cat: Catalog, c: Contract, records: Records, k: nat)
    requires ContractOk(c) && Accepts(c, records, AnyIso()) && RecordsFit(c, records)
    requires k < |AllInsertions(c, records)| && AllCovered(cat, c)
    ensures Identified(cat, AllInsertions(c, records)[k])
  {
    var spec, rank, row := AcceptedOrigin(c, records, AnyIso(), k);
    if Table(spec.destination) in cat.tables {
      KeyCoversIdentifies(cat, spec, rank, row, AnyIso());
    }
    KeyFilled(spec, rank, row, AnyIso());
  }

  lemma SitesIdentified(cat: Catalog, c: Contract, records: Records)
    requires ContractOk(c) && Accepts(c, records, AnyIso()) && RecordsFit(c, records)
    requires AllCovered(cat, c)
    ensures AllIdentified(cat, AllInsertions(c, records))
  {
    var all := AllInsertions(c, records);
    forall x | x in all ensures Identified(cat, x) {
      var k :| 0 <= k < |all| && all[k] == x;
      SiteIdentified(cat, c, records, k);
    }
  }
}
