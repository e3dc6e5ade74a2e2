/** When a deleted version number is handed out again. */
module VersionNumbers {
  import opened Wrappers
  import opened Like
  import opened Config
  import opened Rows
  import opened Tables
  import opened Transactions
  import opened Integrity
  import opened PurposeResolution
  import opened CatalogEffects
  import opened CatalogRuns
  import opened ConsentService
  import opened ElementReferences
  import opened CatalogService
  import opened ElementService

  /** After a version is deleted, the next number of its purpose is no longer beyond the deleted one exactly
      when the deleted version was the latest. */
  lemma NumberReturnsIffLatest(cat: Catalog, id: Id, org: string, v: Id, w: Id)
    requires CatalogSound(cat) && v in VersionsOf(cat, id, org)
    requires IsLatest(WithoutPurposes(cat, {v}), VersionsOf(WithoutPurposes(cat, {v}), id, org), w)
    ensures w in cat.purposes && w != v
    ensures cat.purposes[w].num + 1 <= cat.purposes[v].num <==> IsLatest(cat, VersionsOf(cat, id, org), v)
  {
    var rest := WithoutPurposes(cat, {v});
    assert PurposesAgree(cat.purposes[v], cat.purposes[w]);
    assert w in VersionsOf(cat, id, org);
    forall u | u in VersionsOf(cat, id, org) && u != v
      ensures cat.purposes[u].num <= cat.purposes[w].num
    {
      assert u in VersionsOf(rest, id, org);
    }
  }

  /** The deleted number itself comes next exactly when, besides, the version before it carries the number
      one below. */
  lemma SameNumberNext(cat: Catalog, id: Id, org: string, v: Id, w: Id)
    requires CatalogSound(cat) && v in VersionsOf(cat, id, org)
    requires IsLatest(WithoutPurposes(cat, {v}), VersionsOf(WithoutPurposes(cat, {v}), id, org), w)
    ensures w in cat.purposes
    ensures cat.purposes[w].num + 1 == cat.purposes[v].num <==>
              IsLatest(cat, VersionsOf(cat, id, org), v) && w in VersionAt(cat, id, cat.purposes[v].num - 1, org)
  {
    NumberReturnsIffLatest(cat, id, org, v, w);
  }

  /** The same for the versions of an element. */
  lemma ElementNumberReturnsIffLatest(cat: Catalog, id: Id, org: string, v: Id, w: Id)
    requires CatalogSound(cat) && v in ElementVersionsOf(cat, id, org)
    requires IsLatestElement(WithoutElement(cat, v), ElementVersionsOf(WithoutElement(cat, v), id, org), w)
    ensures w in cat.elements && w != v
    ensures cat.elements[w].num + 1 <= cat.elements[v].num <==> IsLatestElement(cat, ElementVersionsOf(cat, id, org), v)
  {
    var rest := WithoutElement(cat, v);
    assert ElementsAgree(cat.elements[v], cat.elements[w]);
    assert w in ElementVersionsOf(cat, id, org);
    forall u | u in ElementVersionsOf(cat, id, org) && u != v
      ensures cat.elements[u].num <= cat.elements[w].num
    {
      assert u in ElementVersionsOf(rest, id, org);
    }
  }

  lemma SameElementNumberNext(cat: Catalog, id: Id, org: string, v: Id, w: Id)
    requires CatalogSound(cat) && v in ElementVersionsOf(cat, id, org)
    requires IsLatestElement(WithoutElement(cat, v), ElementVersionsOf(WithoutElement(cat, v), id, org), w)
    ensures w in cat.elements
    ensures cat.elements[w].num + 1 == cat.elements[v].num <==>
              IsLatestElement(cat, ElementVersionsOf(cat, id, org), v) &&
                w in ElementAt(cat, id, cat.elements[v].num - 1, org)
  {
    ElementNumberReturnsIffLatest(cat, id, org, v, w);
  }

  // ---- A number handed out twice ----

  lemma FreshIsUnused(cfg: Config, t: Tables, log: seq<Commit>, p: PurposeVersion, elements: seq<MappedElement>)
    requires Good(cfg, t, log) && Allowed(t, AddPurposeVersion(p, elements))
    ensures var t' := t.(catalog := CatalogEffect(t.catalog, AddPurposeVersion(p, elements)));
            && VersionAt(t'.catalog, p.id, p.num, p.org) == {p.versionId}
            && !(exists u :: u in VersionAt(t'.catalog, p.id, p.num, p.org) && UsedByConsents(t', u, p.org))
  {
    var cat' := WithPurpose(t.catalog, p, elements);
    GoodLinksExist(cfg, t, log);
    AllowedKeepsSound(t, AddPurposeVersion(p, elements));
    assert p.versionId in VersionAt(cat', p.id, p.num, p.org);
    forall u | u in VersionAt(cat', p.id, p.num, p.org)
      ensures u == p.versionId
    {
      VersionAtIsOne(cat', p.id, p.num, p.org, u, p.versionId);
    }
  }

  predicate NextAfter(cat: Catalog, id: Id, org: string, num: int) {
    exists u :: u in VersionsOf(cat, id, org) && cat.purposes[u].num + 1 == num &&
                forall v :: v in VersionsOf(cat, id, org) ==> cat.purposes[v].num <= cat.purposes[u].num
  }

  lemma ContinuesIsNext(cat: Catalog, id: Id, org: string, p: PurposeVersion)
    requires p.id == id && p.org == org
    requires exists u :: IsLatest(cat, VersionsOf(cat, id, org), u) && Continues(cat.purposes[u], p)
    ensures NextAfter(cat, id, org, p.num)
  {
    var u :| IsLatest(cat, VersionsOf(cat, id, org), u) && Continues(cat.purposes[u], p);
    assert u in VersionsOf(cat, id, org) && cat.purposes[u].num + 1 == p.num;
  }

  lemma NextIsOne(cat: Catalog, id: Id, org: string, m: int, n: int)
    requires NextAfter(cat, id, org, m) && NextAfter(cat, id, org, n)
    ensures m == n
  {
  }

  lemma BackToStart(t: Tables, p: PurposeVersion, elements: seq<MappedElement>)
    requires MappingsSound(t.catalog) && p.versionId !in t.catalog.purposes
    ensures var t' := t.(catalog := CatalogEffect(t.catalog, AddPurposeVersion(p, elements)));
            t'.(catalog := CatalogEffect(t'.catalog, DropPurposeVersions({p.versionId}, p.org))) == t
  {
    DropUndoesCreate(t.catalog, p, elements);
  }

  /** Create a version and delete it again: the catalogue is as before, and the number was the next one. */
  method CreateThenDelete(reg: Registry, purposeId: Id, info: VersionInfo, refs: seq<ElementRef>, org: string,
                          env: CatalogEnv)
    returns (p: PurposeVersion)
    requires Healthy(reg) && NoFaults(env) && DescriptionFits(info.description)
    requires env.versionId !in reg.tables.catalog.purposes && VersionsOf(reg.tables.catalog, purposeId, org) != {}
    requires Referable(reg.tables.catalog, org, refs) && !SameVersionTwice(reg.tables.catalog, org, refs)
    modifies reg
    ensures Healthy(reg) && reg.tables == old(reg.tables)
    ensures p.versionId == env.versionId && p.id == purposeId && NextAfter(reg.tables.catalog, purposeId, org, p.num)
  {
    ghost var t, log := reg.tables, reg.log;
    var created, elements := CreatePurposeVersion(reg, purposeId, info, refs, org, env);
    p := created.value;
    ContinuesIsNext(t.catalog, purposeId, org, p);
    FreshIsUnused(reg.cfg, t, log, p, elements);
    BackToStart(t, p, elements);
    var dropped, v := DeletePurposeVersion(reg, purposeId, p.num, org, env);
    assert dropped.None? && v == p.versionId;
  }

  /** Create a version, delete it, create another: the second gets the number of the first. */
  method CreateDeleteCreate(reg: Registry, purposeId: Id, info: VersionInfo, refs: seq<ElementRef>, org: string,
                            env1: CatalogEnv, env2: CatalogEnv)
    returns (first: PurposeVersion, second: PurposeVersion)
    requires Healthy(reg) && NoFaults(env1) && NoFaults(env2) && DescriptionFits(info.description)
    requires env1.versionId !in reg.tables.catalog.purposes && env2.versionId !in reg.tables.catalog.purposes
    requires VersionsOf(reg.tables.catalog, purposeId, org) != {}
    requires Referable(reg.tables.catalog, org, refs) && !SameVersionTwice(reg.tables.catalog, org, refs)
    modifies reg
    ensures Healthy(reg)
    ensures first.versionId == env1.versionId && second.versionId == env2.versionId
    ensures first.id == second.id == purposeId && first.num == second.num
    ensures old(NextAfter(reg.tables.catalog, purposeId, org, first.num))
  {
    ghost var cat := reg.tables.catalog;
    first := CreateThenDelete(reg, purposeId, info, refs, org, env1);
    var again, elements := CreatePurposeVersion(reg, purposeId, info, refs, org, env2);
    second := again.value;
    ContinuesIsNext(cat, purposeId, org, second);
    NextIsOne(cat, purposeId, org, first.num, second.num);
  }

  const PLAIN_INFO := VersionInfo(None, None, map[], 0)

  function Call(id: string): CatalogEnv {
    CatalogEnv(0, id, id, SQLite, false, NO_FAULTS)
  }

  const ONLY_ELEMENT := ElementRef("e", "", None, true)

  method StartWithElement(cfg: Config) returns (reg: Registry)
    requires WellFormed(cfg)
    ensures fresh(reg) && Healthy(reg) && reg.tables.catalog.purposes == map[]
    ensures reg.tables.catalog.elements.Keys == {"e1"} && reg.tables.catalog.elements["e1"].versionId == "e1"
    ensures reg.tables.catalog.elements["e1"].name == "e" && reg.tables.catalog.elements["e1"].org == "org"
    ensures reg.tables.catalog.elements["e1"].namespace == NamespaceOf("")
  {
    reg := Open(cfg);
    var request := ElementRequest("e", "", "basic", None, PLAIN_INFO);
    assert ElementsNamed(EMPTY_CATALOG, "e", NamespaceOf(""), "org") == {};
    var element := CreateElement(reg, request, (elementType, schema, properties) => true, "org", Call("e1"));
  }

  method StartWithPurpose(cfg: Config) returns (reg: Registry)
    requires WellFormed(cfg)
    ensures fresh(reg) && Healthy(reg)
    ensures reg.tables.catalog.purposes.Keys == {"p1"} && reg.tables.catalog.purposes["p1"].id == "p1"
    ensures reg.tables.catalog.purposes["p1"].num == 1 && reg.tables.catalog.purposes["p1"].org == "org"
    ensures Referable(reg.tables.catalog, "org", [ONLY_ELEMENT])
    ensures !SameVersionTwice(reg.tables.catalog, "org", [ONLY_ELEMENT])
  {
    reg := StartWithElement(cfg);
    OneElementIsReferable(reg.tables.catalog, reg.tables.catalog.elements["e1"], ONLY_ELEMENT);
    EmptyHasNoName(reg.tables.catalog, "p", "org");
    var request := PurposeRequest("p", "org", PLAIN_INFO, [ONLY_ELEMENT]);
    var purpose, elements := CreatePurpose(reg, request, "org", Call("p1"));
    OneElementIsReferable(reg.tables.catalog, reg.tables.catalog.elements["e1"], ONLY_ELEMENT);
  }

  lemma EmptyHasNoName(cat: Catalog, name: string, org: string)
    requires cat.purposes == map[]
    ensures !NameTaken(cat, name, org, org)
  {
  }

  /** On a server that starts empty: an element, a purpose over it, and version two given away twice. */
  method NumberTwoTwice(cfg: Config) returns (first: PurposeVersion, second: PurposeVersion)
    requires WellFormed(cfg)
    ensures first.versionId != second.versionId && first.id == second.id && first.num == second.num == 2
  {
    var reg := StartWithPurpose(cfg);
    assert VersionsOf(reg.tables.catalog, "p1", "org") == {"p1"};
    first, second := CreateDeleteCreate(reg, "p1", PLAIN_INFO, [ONLY_ELEMENT], "org", Call("p2"), Call("p3"));
  }

  lemma OneElementIsReferable(cat: Catalog, e: ElementVersion, ref: ElementRef)
    requires cat.elements == map[e.versionId := e]
    requires ref.name == e.name && NamespaceOf(ref.namespace) == e.namespace && ref.version == None
    ensures Referable(cat, e.org, [ref]) && !SameVersionTwice(cat, e.org, [ref])
  {
    assert StandsFor(cat, e.org, ref, e.versionId);
  }
}
