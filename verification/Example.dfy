// One small contract, catalog and dataset that meet every hypothesis of the end-to-end theorems.
module Example {
  import opened Values
  import opened Kahn
  import opened Contracts
  import opened Store
  import opened Integrity
  import opened Undo
  import opened W = Writes
  import opened Dataset
  import opened EndToEnd

  const SITES := TableId("app", "site")
  const ASSETS := TableId("app", "asset")

  const SITE_SPEC := RecordSpec(
    "site", 1, DestinationSpec("app", "site", map["id" := "site_id"], ["id"]),
    map["id" := FieldSpec(StringType, false, true)])

  const ASSET_SPEC := RecordSpec(
    "asset", 1, DestinationSpec("app", "asset", map["id" := "asset_id", "site" := "site_ref"], ["id"]),
    map["id" := FieldSpec(StringType, false, true), "site" := FieldSpec(StringType, false, false)])

  const ON_SITE := RelationSpec("asset", "site", "site", "id", true)

  // the child is declared first, so the plan has to reorder
  const CONTRACT := Contract([ASSET_SPEC, SITE_SPEC], [ON_SITE], 2, 4096)

  const REFERENCE := ForeignKey(["site_ref"], SITES, ["site_id"])

  const TABLES: map<TableId, TableDef> := map[
    SITES := TableDef(map["site_id" := StringType], [["site_id"]], {"site_id"}, []),
    ASSETS := TableDef(
      map["asset_id" := StringType, "site_ref" := StringType], [["asset_id"]], {"asset_id"}, [REFERENCE])]

  const RECORDS: Records := map[
    "site" := [map["id" := Text("s1")]],
    "asset" := [map["id" := Text("a1"), "site" := Text("s1")]]]

  function AnyIso(): Formats {
    Formats(_ => true, _ => true)
  }

  function TheCatalog(rules: Rules): Catalog {
    Catalog(TABLES, rules)
  }

  lemma NamesDiffer()
    ensures "site" != "asset" && "id" != "site" && SITES != ASSETS
    ensures "site_id" != "site_ref" && "asset_id" != "site_ref"
  {
    assert "site"[0] != "asset"[0] && "id"[0] != "site"[0];
    assert "site_id"[5] != "site_ref"[5] && "asset_id"[0] != "site_ref"[0];
  }

  lemma SpecsAreOk()
    ensures RecordOk(SITE_SPEC) && RecordOk(ASSET_SPEC)
  {
    NamesDiffer();
  }

  lemma RecordsByName()
    ensures RecordMap(CONTRACT.records) == map["asset" := ASSET_SPEC, "site" := SITE_SPEC]
    ensures Names(CONTRACT) == ["asset", "site"] && TotalCount(CONTRACT.records) == 2
  {
    assert [ASSET_SPEC][..0] == [] && CONTRACT.records[..1] == [ASSET_SPEC];
    assert TotalCount([ASSET_SPEC]) == 1;
    assert RecordMap([ASSET_SPEC]) == map["asset" := ASSET_SPEC];
  }

  lemma GraphIsAcyclic()
    ensures !Cyclic(GraphOf(CONTRACT))
  {
    NamesDiffer();
    var g, order := GraphOf(CONTRACT), ["site", "asset"];
    assert g.nodes == ["asset", "site"];
    assert g.edges == {("site", "asset")} by {
      assert ON_SITE in CONTRACT.relations;
    }
    assert Topological(g, order) by {
      assert order[..1] == ["site"];
      assert Parents(g, "site") == {} && Parents(g, "asset") <= {"site"} <= Elems(order[..1]);
    }
    LinearizationAcyclic(g, order);
  }

  lemma ContractIsOk()
    ensures ContractOk(CONTRACT)
  {
    SpecsAreOk();
    RecordsByName();
    GraphIsAcyclic();
    NamesDiffer();
    assert Names(CONTRACT)[0] != Names(CONTRACT)[1] && NoDup(Names(CONTRACT));
    var specs := RecordMap(CONTRACT.records);
    assert RelationFault(specs, ON_SITE) == None;
    assert CONTRACT.relations[..0] == [] && RelationsFault(specs, []) == None;
    assert RelationsFault(specs, CONTRACT.relations) == None;
  }

  lemma RowsAreOk()
    ensures RowsOk(SITE_SPEC, RECORDS["site"], AnyIso()) && RowsOk(ASSET_SPEC, RECORDS["asset"], AnyIso())
  {
    NamesDiffer();
  }

  lemma RelationIsMet()
    ensures Holds(RECORDS, ON_SITE)
  {
    NamesDiffer();
    assert RECORDS["site"][0] in RECORDS["site"];
    assert Canon(Text("s1")) in Targets(RECORDS["site"], "id");
  }

  lemma DatasetIsAccepted()
    ensures Accepts(CONTRACT, RECORDS, AnyIso())
  {
    RowsAreOk();
    RelationIsMet();
    RecordsByName();
    NamesDiffer();
  }

  lemma CatalogKeys(rules: Rules)
    ensures TargetsAreKeys(TheCatalog(rules)) && Consistent(TheCatalog(rules), map[], "t")
    ensures forall spec | spec in CONTRACT.records :: UndoSuits(TheCatalog(rules), spec)
  {
    NamesDiffer();
    assert SITE_SPEC.destination.columns["id"] == "site_id" && ASSET_SPEC.destination.columns["id"] == "asset_id";
    assert IsKeyColumn(SITE_SPEC.destination, "site_id") && IsKeyColumn(ASSET_SPEC.destination, "asset_id");
    assert ["site_id"] in TABLES[SITES].uniqueKeys && ["asset_id"] in TABLES[ASSETS].uniqueKeys;
    assert CoveredBy(SITE_SPEC.destination, ["site_id"]) && CoveredBy(ASSET_SPEC.destination, ["asset_id"]);
    assert FromRequiredField(SITE_SPEC, "site_id");
  }

  lemma ReferenceIsDeclared(rules: Rules)
    ensures AllDeclared(TheCatalog(rules), CONTRACT)
  {
    NamesDiffer();
    assert Declares(CONTRACT, ASSET_SPEC, REFERENCE, ON_SITE, SITE_SPEC);
    forall spec, fk | spec in CONTRACT.records && Table(spec.destination) in TABLES
        && fk in TABLES[Table(spec.destination)].foreignKeys
      ensures Declared(TheCatalog(rules), CONTRACT, spec, fk)
    {
      assert spec == ASSET_SPEC && fk == REFERENCE;
    }
  }

  lemma SiteTableFits(rules: Rules)
    ensures TableFits(TheCatalog(rules), SITE_SPEC) && KeysFromUniqueFields(TheCatalog(rules), SITE_SPEC)
  {
    NamesDiffer();
    assert SITE_SPEC.destination.columns["id"] == "site_id" && "site_id" in SITE_SPEC.destination.columns.Values;
    assert HasUniqueField(SITE_SPEC, ["site_id"]);
  }

  lemma AssetTableFits(rules: Rules)
    ensures TableFits(TheCatalog(rules), ASSET_SPEC) && KeysFromUniqueFields(TheCatalog(rules), ASSET_SPEC)
  {
    NamesDiffer();
    assert ASSET_SPEC.destination.columns["id"] == "asset_id" && "asset_id" in ASSET_SPEC.destination.columns.Values;
    assert HasUniqueField(ASSET_SPEC, ["asset_id"]);
  }

  lemma TablesAreOwn()
    ensures OwnTables(CONTRACT)
  {
    NamesDiffer();
  }

  lemma CatalogSuits(rules: Rules)
    ensures Suits(TheCatalog(rules), CONTRACT)
  {
    ReferenceIsDeclared(rules);
    TablesAreOwn();
    SiteTableFits(rules);
    AssetTableFits(rules);
  }

  /** The hypotheses of the end-to-end theorems can all be met at once: the example goes in and comes out again. */
  lemma GoesInAndOut(w: GenerationWrite, rules: Rules)
    requires w.request.contract == CONTRACT && w.dataset.records == RECORDS
    ensures WriteOk(w)
    ensures InAndOut(TheCatalog(rules), Empty(), "t", "key", BatchOf(w), 0, 1)
  {
    DatasetReady(w.request.contract, w.dataset.records);
    CatalogReady(w.request.contract, rules);
    NothingOccupied(rules, BatchOf(w).ins);
    NothingThere(rules, w.generationId);
    AcceptedGoesInAndOut(TheCatalog(rules), Empty(), "t", "key", w, AnyIso(), 0, 1);
  }

  lemma DatasetReady(c: Contract, records: Records)
    requires c == CONTRACT && records == RECORDS
    ensures ContractOk(c) && Accepts(c, records, AnyIso()) && RecordsFit(c, records) && SelfRelationsInPlace(c, records)
  {
    ContractIsOk();
    DatasetIsAccepted();
    NoSelfRelations();
    AcceptedFits(c, records, AnyIso());
  }

  lemma CatalogReady(c: Contract, rules: Rules)
    requires c == CONTRACT
    ensures Suits(TheCatalog(rules), c) && UndoReady(TheCatalog(rules), Empty(), "t", c)
  {
    CatalogKeys(rules);
    CatalogSuits(rules);
  }

  lemma NothingThere(rules: Rules, id: string)
    ensures FindIdempotent(Empty(), "t", "key") == None && !MetadataTaken(TheCatalog(rules), Empty(), "t", "key", id)
  {
  }

  lemma NoSelfRelations()
    ensures SelfRelationsInPlace(CONTRACT, RECORDS)
  {
    NamesDiffer();
  }

  lemma NothingOccupied(rules: Rules, ins: seq<Insertion>)
    ensures Unoccupied(TheCatalog(rules), map[], "t", ins)
  {
  }

  function Empty(): Db {
    Db(map[], map[], map[], map[], map[])
  }
}
