/** What the catalogue services do to the three versioned layers, and what it cannot break. */
module CatalogEffects {
  import opened Wrappers
  import opened Config
  import opened Rows
  import opened Records
  import opened Tables
  import opened CatalogStore
  import opened Transactions
  import opened TableRuns
  import opened Integrity

  // ---- Net effects ----

  /** An element version mapped by a new purpose version. */
  datatype MappedElement = MappedElement(elementVersion: Id, mandatory: bool)

  function MappingRows(pv: Id, elements: seq<MappedElement>, org: string): map<(Id, Id), Mapping> {
    if elements == [] then map[]
    else
      map[(pv, elements[0].elementVersion) := Mapping(elements[0].mandatory, org)] + MappingRows(pv, elements[1..], org)
  }

  function WithPurpose(cat: Catalog, p: PurposeVersion, elements: seq<MappedElement>): Catalog {
    cat.(purposes := cat.purposes[p.versionId := p],
         mappings := cat.mappings + MappingRows(p.versionId, elements, p.org))
  }

  function WithElement(cat: Catalog, e: ElementVersion): Catalog {
    cat.(elements := cat.elements[e.versionId := e])
  }

  function WithoutPurposes(cat: Catalog, gone: set<Id>): Catalog {
    cat.(purposes := cat.purposes - gone, mappings := map p | p in cat.mappings && p.0 !in gone :: cat.mappings[p])
  }

  function WithoutElement(cat: Catalog, v: Id): Catalog {
    cat.(elements := cat.elements - {v})
  }

  predicate DistinctElements(elements: seq<MappedElement>) {
    forall i, j :: 0 <= i < j < |elements| ==> elements[i].elementVersion != elements[j].elementVersion
  }

  lemma {:induction false} MappingRowsAre(pv: Id, elements: seq<MappedElement>, org: string)
    ensures forall p :: p in MappingRows(pv, elements, org) <==>
              p.0 == pv && exists i :: 0 <= i < |elements| && elements[i].elementVersion == p.1
    ensures forall p :: p in MappingRows(pv, elements, org) ==> MappingRows(pv, elements, org)[p].org == org
    decreases |elements|
  {
    if elements != [] {
      var rest := elements[1..];
      MappingRowsAre(pv, rest, org);
      forall p
        ensures p in MappingRows(pv, elements, org) <==>
                  p.0 == pv && exists i :: 0 <= i < |elements| && elements[i].elementVersion == p.1
      {
        if p.0 == pv && p.1 == elements[0].elementVersion {
          assert elements[0].elementVersion == p.1;
        } else if p in MappingRows(pv, rest, org) {
          var i :| 0 <= i < |rest| && rest[i].elementVersion == p.1;
          assert elements[i + 1].elementVersion == p.1;
        }
      }
    }
  }

  lemma {:induction false} MappingRowAt(pv: Id, elements: seq<MappedElement>, org: string, i: nat)
    requires i < |elements| && DistinctElements(elements)
    ensures var p := (pv, elements[i].elementVersion);
            && p in MappingRows(pv, elements, org)
            && MappingRows(pv, elements, org)[p].mandatory == elements[i].mandatory
            && MappingRows(pv, elements, org)[p].org == org
    decreases |elements|
  {
    MappingRowsAre(pv, elements[1..], org);
    if i > 0 {
      assert elements[1..][i - 1] == elements[i];
      MappingRowAt(pv, elements[1..], org, i - 1);
    } else {
      assert forall j :: 0 <= j < |elements| - 1 ==> elements[1..][j] == elements[j + 1];
    }
  }

  /** A new version maps an element version exactly when it is listed, with the flag it is listed with. */
  lemma MappedExactlyOnce(cat: Catalog, p: PurposeVersion, elements: seq<MappedElement>, ev: Id)
    requires MappingsSound(cat) && p.versionId !in cat.purposes && DistinctElements(elements)
    ensures var cat' := WithPurpose(cat, p, elements);
            && ((p.versionId, ev) in cat'.mappings <==>
                  exists i :: 0 <= i < |elements| && elements[i].elementVersion == ev)
            && forall i :: 0 <= i < |elements| && elements[i].elementVersion == ev ==>
                 cat'.mappings[(p.versionId, ev)] == Mapping(elements[i].mandatory, p.org)
  {
    MappingRowsAre(p.versionId, elements, p.org);
    assert (p.versionId, ev) in cat.mappings ==> MappingSound(cat, (p.versionId, ev));
    forall i | 0 <= i < |elements| && elements[i].elementVersion == ev
      ensures WithPurpose(cat, p, elements).mappings[(p.versionId, ev)] == Mapping(elements[i].mandatory, p.org)
    {
      MappingRowAt(p.versionId, elements, p.org, i);
    }
  }

  // ---- The transactions that have them ----

  function RunCatalog(cat: Catalog, ws: seq<CatalogWrite>): Result<Catalog, StoreError>
    decreases |ws|
  {
    if ws == [] then Ok(cat)
    else match ExecuteCatalog(cat, ws[0])
      case Err(e) => Err(e)
      case Ok(cat') => RunCatalog(cat', ws[1..])
  }

  function OnCatalogAll(ws: seq<CatalogWrite>): seq<KeyedStep> {
    seq(|ws|, i requires 0 <= i < |ws| => OnCatalog(ws[i]))
  }

  lemma {:induction false} CatalogSteps(cfg: Config, s: Session, ws: seq<CatalogWrite>, i: nat, faults: Faults)
    requires i <= |ws|
    ensures var r := RunSteps(cfg, s, OnCatalogAll(ws), i, faults);
            && (r.Ok? ==> RunCatalog(s.tables.catalog, ws[i..]).Ok? &&
                          r.value == s.(tables := s.tables.(catalog := RunCatalog(s.tables.catalog, ws[i..]).value)))
            && (r.Err? && faults.steps == {} ==> RunCatalog(s.tables.catalog, ws[i..]).Err? && r.error == Duplicate)
    decreases |ws| - i
  {
    if i < |ws| {
      assert ws[i..][0] == ws[i] && ws[i..][1..] == ws[i + 1..];
      assert OnCatalogAll(ws)[i] == OnCatalog(ws[i]);
      var next := ExecuteCatalog(s.tables.catalog, ws[i]);
      if i !in faults.steps && next.Ok? {
        CatalogSteps(cfg, s.(tables := s.tables.(catalog := next.value)), ws, i + 1, faults);
      }
    }
  }

  /** A catalogue transaction commits its statements' joint effect on the catalogue and nothing else. */
  lemma TransactCatalog(cfg: Config, t: Tables, ws: seq<CatalogWrite>, faults: Faults)
    ensures var r := Transact(cfg, t, OnCatalogAll(ws), faults);
            && (r.Ok? ==> RunCatalog(t.catalog, ws).Ok? &&
                          r.value == Session(t.(catalog := RunCatalog(t.catalog, ws).value), {}, INITIAL_VARS))
            && (Hits(faults, |ws|) ==> r.Err?)
            && (r.Err? && !Hits(faults, |ws|) ==> RunCatalog(t.catalog, ws).Err? && r.error == Duplicate)
  {
    FaultsDecide(cfg, t, OnCatalogAll(ws), faults);
    CatalogSteps(cfg, Session(t, {}, INITIAL_VARS), ws, 0, faults);
    CatalogSteps(cfg, Session(t, {}, INITIAL_VARS), ws, 0, NO_FAULTS);
    assert ws[0..] == ws;
  }

  function MappingWrites(p: PurposeVersion, elements: seq<MappedElement>): seq<CatalogWrite> {
    seq(|elements|, i requires 0 <= i < |elements| =>
      InsertMapping(p.versionId, elements[i].elementVersion, Mapping(elements[i].mandatory, p.org)))
  }

  function CreateVersionWrites(p: PurposeVersion, elements: seq<MappedElement>): seq<CatalogWrite> {
    [InsertPurposeVersion(p)] + MappingWrites(p, elements)
  }

  predicate Mappable(cat: Catalog, pv: Id, elements: seq<MappedElement>) {
    DistinctElements(elements) && forall i :: 0 <= i < |elements| ==> (pv, elements[i].elementVersion) !in cat.mappings
  }

  lemma MappableStep(cat: Catalog, pv: Id, elements: seq<MappedElement>, m: Mapping)
    requires elements != [] && (pv, elements[0].elementVersion) !in cat.mappings
    ensures Mappable(cat, pv, elements) <==>
            Mappable(cat.(mappings := cat.mappings[(pv, elements[0].elementVersion) := m]), pv, elements[1..])
  {
    var rest := elements[1..];
    if Mappable(cat.(mappings := cat.mappings[(pv, elements[0].elementVersion) := m]), pv, rest) {
      forall i, j | 0 <= i < j < |elements|
        ensures elements[i].elementVersion != elements[j].elementVersion
      {
        assert rest[j - 1] == elements[j];
        if i > 0 {
          assert rest[i - 1] == elements[i];
        }
      }
      forall i | 0 <= i < |elements|
        ensures (pv, elements[i].elementVersion) !in cat.mappings
      {
        if i > 0 {
          assert rest[i - 1] == elements[i];
        }
      }
    }
  }

  lemma MappingsStep(cat: Catalog, p: PurposeVersion, elements: seq<MappedElement>, key: (Id, Id), m: Mapping)
    requires elements != [] && key == (p.versionId, elements[0].elementVersion)
    requires m == Mapping(elements[0].mandatory, p.org)
    requires key !in cat.mappings && Mappable(cat, p.versionId, elements)
    ensures cat.mappings[key := m] + MappingRows(p.versionId, elements[1..], p.org) ==
            cat.mappings + MappingRows(p.versionId, elements, p.org)
  {
    var rest := MappingRows(p.versionId, elements[1..], p.org);
    MappingRowsAre(p.versionId, elements[1..], p.org);
    MergeOne(cat.mappings, key, m, rest);
  }

  lemma MergeOne(rows: map<(Id, Id), Mapping>, key: (Id, Id), m: Mapping, rest: map<(Id, Id), Mapping>)
    ensures rows[key := m] + rest == rows + (map[key := m] + rest)
  {
  }

  lemma {:induction false} RunMappings(cat: Catalog, p: PurposeVersion, elements: seq<MappedElement>)
    ensures var r := RunCatalog(cat, MappingWrites(p, elements));
            if Mappable(cat, p.versionId, elements)
            then r == Ok(cat.(mappings := cat.mappings + MappingRows(p.versionId, elements, p.org)))
            else r.Err?
    decreases |elements|
  {
    if elements == [] {
      assert cat.mappings + map[] == cat.mappings;
      return;
    }
    var ws := MappingWrites(p, elements);
    assert ws[1..] == MappingWrites(p, elements[1..]);
    var key, m := (p.versionId, elements[0].elementVersion), Mapping(elements[0].mandatory, p.org);
    if key !in cat.mappings {
      RunMappings(cat.(mappings := cat.mappings[key := m]), p, elements[1..]);
      MappableStep(cat, p.versionId, elements, m);
      if Mappable(cat, p.versionId, elements) {
        MappingsStep(cat, p, elements, key, m);
      }
    } else {
      assert !Mappable(cat, p.versionId, elements);
    }
  }

  /** Creating a version succeeds on a sound catalogue exactly when its identifier is new and no
      element version is mapped twice. */
  lemma RunCreateVersion(cat: Catalog, p: PurposeVersion, elements: seq<MappedElement>)
    requires MappingsSound(cat)
    ensures var r := RunCatalog(cat, CreateVersionWrites(p, elements));
            if p.versionId !in cat.purposes && DistinctElements(elements) then r == Ok(WithPurpose(cat, p, elements))
            else r.Err?
  {
    var ws := CreateVersionWrites(p, elements);
    assert ws[1..] == MappingWrites(p, elements);
    if p.versionId !in cat.purposes {
      assert forall ev :: (p.versionId, ev) in cat.mappings ==> MappingSound(cat, (p.versionId, ev));
      RunMappings(cat.(purposes := cat.purposes[p.versionId := p]), p, elements);
    }
  }

  // ---- Soundness ----

  /** A new version fits: it agrees with every row of the catalogue and maps existing element versions
      of its organization. */
  ghost predicate PurposeFits(cat: Catalog, p: PurposeVersion, elements: seq<MappedElement>) {
    && p.versionId !in cat.purposes && p.num >= 1
    && (forall v :: v in cat.purposes ==> PurposesAgree(p, cat.purposes[v]) && PurposesAgree(cat.purposes[v], p))
    && (forall i :: 0 <= i < |elements| ==>
          elements[i].elementVersion in cat.elements && cat.elements[elements[i].elementVersion].org == p.org)
  }

  /** The unique indexes of PURPOSE never refuse a version that fits: no stored row has its identifier and
      number, none its name, group and number. */
  lemma PurposeIndexesAllow(cat: Catalog, p: PurposeVersion, elements: seq<MappedElement>, v: Id)
    requires PurposeFits(cat, p, elements) && RowsKeyed(cat) && v in cat.purposes && cat.purposes[v].org == p.org
    ensures !(cat.purposes[v].id == p.id && cat.purposes[v].num == p.num)
    ensures !(cat.purposes[v].name == p.name && cat.purposes[v].group == p.group && cat.purposes[v].num == p.num)
  {
    assert PurposesAgree(p, cat.purposes[v]);
  }

  lemma WithPurposeIsSound(cat: Catalog, p: PurposeVersion, elements: seq<MappedElement>)
    requires CatalogSound(cat) && PurposeFits(cat, p, elements)
    ensures CatalogSound(WithPurpose(cat, p, elements))
  {
    var cat' := WithPurpose(cat, p, elements);
    MappingRowsAre(p.versionId, elements, p.org);
    forall q | q in cat'.mappings
      ensures MappingSound(cat', q)
    {
      if q in cat.mappings {
        assert MappingSound(cat, q);
      } else {
        var i :| 0 <= i < |elements| && elements[i].elementVersion == q.1;
      }
    }
    assert PurposesAgree(p, p);
  }

  /** Deleting a version just created restores the catalogue exactly; its number is then free again. */
  lemma DropUndoesCreate(cat: Catalog, p: PurposeVersion, elements: seq<MappedElement>)
    requires MappingsSound(cat) && p.versionId !in cat.purposes
    ensures WithoutPurposes(WithPurpose(cat, p, elements), {p.versionId}) == cat
  {
    var back := WithoutPurposes(WithPurpose(cat, p, elements), {p.versionId});
    MappingRowsAre(p.versionId, elements, p.org);
    assert back.purposes == cat.purposes;
    forall q
      ensures q in back.mappings <==> q in cat.mappings
    {
      if q in cat.mappings {
        assert MappingSound(cat, q);
      }
    }
    assert back.mappings == cat.mappings;
  }

  ghost predicate ElementFits(cat: Catalog, e: ElementVersion) {
    && e.versionId !in cat.elements && e.num >= 1
    && (forall v :: v in cat.elements ==> ElementsAgree(e, cat.elements[v]) && ElementsAgree(cat.elements[v], e))
  }

  /** Nor those of ELEMENT an element version that fits. */
  lemma ElementIndexesAllow(cat: Catalog, e: ElementVersion, v: Id)
    requires ElementFits(cat, e) && RowsKeyed(cat) && v in cat.elements && cat.elements[v].org == e.org
    ensures !(cat.elements[v].id == e.id && cat.elements[v].num == e.num)
    ensures !(cat.elements[v].name == e.name && cat.elements[v].namespace == e.namespace &&
              cat.elements[v].num == e.num)
  {
    assert ElementsAgree(e, cat.elements[v]);
  }

  lemma WithElementIsSound(cat: Catalog, e: ElementVersion)
    requires CatalogSound(cat) && ElementFits(cat, e)
    ensures CatalogSound(WithElement(cat, e))
  {
    var cat' := WithElement(cat, e);
    forall q | q in cat'.mappings
      ensures MappingSound(cat', q)
    {
      assert MappingSound(cat, q);
    }
    assert ElementsAgree(e, e);
  }

  lemma WithoutPurposesIsSound(cat: Catalog, gone: set<Id>)
    requires CatalogSound(cat)
    ensures CatalogSound(WithoutPurposes(cat, gone))
  {
    var cat' := WithoutPurposes(cat, gone);
    forall q | q in cat'.mappings
      ensures MappingSound(cat', q)
    {
      assert MappingSound(cat, q);
    }
  }

  predicate Unmapped(cat: Catalog, v: Id) {
    forall p :: p in cat.mappings ==> p.1 != v
  }

  lemma WithoutElementIsSound(cat: Catalog, v: Id)
    requires CatalogSound(cat) && Unmapped(cat, v)
    ensures CatalogSound(WithoutElement(cat, v))
  {
    var cat' := WithoutElement(cat, v);
    forall q | q in cat'.mappings
      ensures MappingSound(cat', q)
    {
      assert MappingSound(cat, q);
    }
  }

  // ---- Immutability, and consents standing on the catalogue ----

  /** A purpose version, the rows mapping it and the element versions they name are all as before. */
  ghost predicate VersionKept(cat: Catalog, cat': Catalog, pv: Id) {
    && pv in cat.purposes && pv in cat'.purposes && cat'.purposes[pv] == cat.purposes[pv]
    && forall ev :: MappingKept(cat, cat', pv, ev)
  }

  predicate MappingKept(cat: Catalog, cat': Catalog, pv: Id, ev: Id) {
    && ((pv, ev) in cat.mappings <==> (pv, ev) in cat'.mappings)
    && ((pv, ev) in cat.mappings ==>
          && cat'.mappings[(pv, ev)] == cat.mappings[(pv, ev)]
          && (ev in cat.elements ==> ev in cat'.elements && cat'.elements[ev] == cat.elements[ev]))
  }

  /** Every version row present before and after is unchanged, with its mappings. */
  ghost predicate Frozen(cat: Catalog, cat': Catalog) {
    && (forall pv :: pv in cat.purposes && pv in cat'.purposes ==> VersionKept(cat, cat', pv))
    && (forall ev :: ev in cat.elements && ev in cat'.elements ==> cat'.elements[ev] == cat.elements[ev])
  }

  ghost predicate ConsentsKept(t: Tables, cat': Catalog) {
    forall link :: link in t.links ==> VersionKept(t.catalog, cat', link.1)
  }

  lemma WithPurposeFreezes(cat: Catalog, p: PurposeVersion, elements: seq<MappedElement>)
    requires p.versionId !in cat.purposes
    ensures Frozen(cat, WithPurpose(cat, p, elements))
    ensures forall pv :: pv in cat.purposes ==> VersionKept(cat, WithPurpose(cat, p, elements), pv)
  {
    MappingRowsAre(p.versionId, elements, p.org);
  }

  lemma WithElementFreezes(cat: Catalog, e: ElementVersion)
    requires e.versionId !in cat.elements
    ensures Frozen(cat, WithElement(cat, e))
    ensures forall pv :: pv in cat.purposes ==> VersionKept(cat, WithElement(cat, e), pv)
  {
  }

  lemma WithoutPurposesFreezes(cat: Catalog, gone: set<Id>)
    ensures Frozen(cat, WithoutPurposes(cat, gone))
    ensures forall pv :: pv in cat.purposes && pv !in gone ==> VersionKept(cat, WithoutPurposes(cat, gone), pv)
  {
  }

  lemma WithoutElementFreezes(cat: Catalog, v: Id)
    requires Unmapped(cat, v)
    ensures Frozen(cat, WithoutElement(cat, v))
    ensures forall pv :: pv in cat.purposes ==> VersionKept(cat, WithoutElement(cat, v), pv)
  {
    forall pv, ev
      ensures MappingKept(cat, WithoutElement(cat, v), pv, ev)
    {
    }
  }

  /** As long as its linked versions are kept, a consent stands, and reads, as before. */
  lemma ViewKept(rec: Record, cat: Catalog, cat': Catalog, org: string)
    requires LinksIntact(rec, cat, org) && MappingsSound(cat)
    requires forall pv :: pv in rec.links ==> VersionKept(cat, cat', pv)
    requires rec.consent.Some? ==> rec.consent.value.org == org
    ensures LinksIntact(rec, cat', org)
    ensures rec.consent.Some? ==> View(rec, cat') == View(rec, cat)
  {
    forall p | p in rec.approvals
      ensures ApprovalKept(cat, cat', p)
    {
      assert MappingSound(cat, p);
      assert MappingKept(cat, cat', p.0, p.1);
    }
    forall p: (Id, Id) | p.0 in rec.links && p in cat'.mappings
      ensures p in rec.approvals
    {
      assert MappingKept(cat, cat', p.0, p.1);
    }
    if rec.consent.Some? {
      ReadsTheSame(rec, cat, cat');
    }
  }

  predicate ApprovalKept(cat: Catalog, cat': Catalog, p: (Id, Id)) {
    && p in cat.mappings && p in cat'.mappings && cat'.mappings[p] == cat.mappings[p]
    && p.1 in cat.elements && p.1 in cat'.elements && cat'.elements[p.1] == cat.elements[p.1]
  }

  lemma ReadsTheSame(rec: Record, cat: Catalog, cat': Catalog)
    requires rec.consent.Some?
    requires forall pv :: pv in rec.links ==>
      pv in cat.purposes && pv in cat'.purposes && cat'.purposes[pv] == cat.purposes[pv]
    requires forall p :: p in rec.approvals ==> ApprovalKept(cat, cat', p)
    ensures View(rec, cat') == View(rec, cat)
  {
    assert View(rec, cat').purposes == View(rec, cat).purposes;
    assert View(rec, cat').elements == View(rec, cat).elements;
  }

  /** A catalogue change that is sound and keeps every linked version keeps the whole system good:
      no consent, no audit trail and no history notices it. */
  lemma CatalogCommitKeepsGood(cfg: Config, t: Tables, log: seq<Commit>, cat': Catalog)
    requires Good(cfg, t, log) && CatalogSound(cat') && ConsentsKept(t, cat')
    ensures Good(cfg, t.(catalog := cat'), log + [Commit(t.(catalog := cat'), {})])
    ensures forall k :: Untouched(t, t.(catalog := cat'), k)
  {
    var t' := t.(catalog := cat');
    forall k
      ensures Untouched(t, t', k) && ConsentGood(cfg, t', k)
      ensures HistoryReplays(cfg, t', log + [Commit(t', {})], k)
    {
      var rec := Project(t, k);
      assert Project(t', k) == rec;
      assert ConsentGood(cfg, t, k) && HistoryReplays(cfg, t, log, k);
      forall pv | pv in rec.links
        ensures VersionKept(t.catalog, cat', pv)
      {
        assert (k, pv) in t.links;
      }
      ViewKept(rec, t.catalog, cat', k.org);
      OtherConsentReplays(cfg, t, log, k, t', {});
    }
  }
}
