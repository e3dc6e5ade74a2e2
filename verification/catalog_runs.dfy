/** Every run of the whole system: consent transactions and guarded catalogue changes, in any order. */
module CatalogRuns {
  import opened Config
  import opened Rows
  import opened Tables
  import opened Transactions
  import opened Lifecycle
  import opened Invariants
  import opened TableRuns
  import opened Integrity
  import opened PurposeResolution
  import opened CatalogEffects

  /** A committed catalogue call. */
  datatype CatalogTx =
    | AddPurpose(purpose: PurposeVersion, elements: seq<MappedElement>)
    | AddPurposeVersion(purpose: PurposeVersion, elements: seq<MappedElement>)
    | DropPurposeVersions(gone: set<Id>, org: string)
    | AddElement(element: ElementVersion)
    | AddElementVersion(element: ElementVersion)
    | DropElementVersion(versionId: Id, org: string)

  function CatalogEffect(cat: Catalog, tx: CatalogTx): Catalog {
    match tx
    case AddPurpose(p, elements) => WithPurpose(cat, p, elements)
    case AddPurposeVersion(p, elements) => WithPurpose(cat, p, elements)
    case DropPurposeVersions(gone, _) => WithoutPurposes(cat, gone)
    case AddElement(e) => WithElement(cat, e)
    case AddElementVersion(e) => WithElement(cat, e)
    case DropElementVersion(v, _) => WithoutElement(cat, v)
  }

  // ---- What the services check first ----

  predicate NamedInOrg(cat: Catalog, name: string, org: string) {
    exists v :: v in cat.purposes && cat.purposes[v].name == name && cat.purposes[v].org == org
  }

  /** The name checks of CreatePurpose: the group's own purposes; then, for a group, the organization's,
      and for the organization, everybody's. */
  predicate NameTaken(cat: Catalog, name: string, group: string, org: string) {
    || Named(cat, name, group, org) != {}
    || (if group != org then Named(cat, name, org, org) != {} else NamedInOrg(cat, name, org))
  }

  predicate UsedByConsents(t: Tables, v: Id, org: string) {
    exists link :: link in t.links && link.1 == v && link.0.org == org
  }

  predicate UsedByPurposes(cat: Catalog, v: Id, org: string) {
    exists p :: p in cat.mappings && p.1 == v && cat.mappings[p].org == org
  }

  function ElementsNamed(cat: Catalog, name: string, namespace: string, org: string): set<Id> {
    set v | v in cat.elements && cat.elements[v].name == name && cat.elements[v].namespace == namespace &&
      cat.elements[v].org == org
  }

  function ElementVersionsOf(cat: Catalog, id: Id, org: string): set<Id> {
    set v | v in cat.elements && cat.elements[v].id == id && cat.elements[v].org == org
  }

  ghost predicate IsLatestElement(cat: Catalog, among: set<Id>, v: Id) {
    v in among && v in cat.elements && forall u :: u in among && u in cat.elements ==>
      cat.elements[u].num <= cat.elements[v].num
  }

  /** The row generator's promise: identifiers nobody has. */
  predicate FreshPurposeId(cat: Catalog, id: Id) {
    forall v :: v in cat.purposes ==> cat.purposes[v].id != id
  }

  predicate FreshElementId(cat: Catalog, id: Id) {
    forall v :: v in cat.elements ==> cat.elements[v].id != id
  }

  ghost predicate ElementsExist(cat: Catalog, org: string, elements: seq<MappedElement>) {
    forall i :: 0 <= i < |elements| ==>
      elements[i].elementVersion in cat.elements && cat.elements[elements[i].elementVersion].org == org
  }

  /** A new version continues its purpose: the current maximum plus one, under the same name and group. */
  predicate Continues(latest: PurposeVersion, p: PurposeVersion) {
    p.id == latest.id && p.org == latest.org && p.name == latest.name && p.group == latest.group &&
      p.num == latest.num + 1
  }

  predicate ContinuesElement(latest: ElementVersion, e: ElementVersion) {
    && e.id == latest.id && e.org == latest.org && e.name == latest.name && e.namespace == latest.namespace
    && e.elementType == latest.elementType && e.num == latest.num + 1
  }

  /** When a catalogue call may commit: exactly the guards of its service method. */
  ghost predicate Allowed(t: Tables, tx: CatalogTx) {
    var cat := t.catalog;
    match tx
    case AddPurpose(p, elements) =>
      && p.versionId !in cat.purposes && FreshPurposeId(cat, p.id) && p.num == 1
      && !NameTaken(cat, p.name, p.group, p.org) && ElementsExist(cat, p.org, elements)
    case AddPurposeVersion(p, elements) =>
      && p.versionId !in cat.purposes && ElementsExist(cat, p.org, elements)
      && exists latest :: IsLatest(cat, VersionsOf(cat, p.id, p.org), latest) && Continues(cat.purposes[latest], p)
    case DropPurposeVersions(gone, org) =>
      forall v :: v in gone ==> v in cat.purposes && cat.purposes[v].org == org && !UsedByConsents(t, v, org)
    case AddElement(e) =>
      && e.versionId !in cat.elements && FreshElementId(cat, e.id) && e.num == 1
      && ElementsNamed(cat, e.name, e.namespace, e.org) == {}
    case AddElementVersion(e) =>
      && e.versionId !in cat.elements
      && exists latest ::
           && IsLatestElement(cat, ElementVersionsOf(cat, e.id, e.org), latest)
           && ContinuesElement(cat.elements[latest], e)
    case DropElementVersion(v, org) =>
      v in cat.elements && cat.elements[v].org == org && !UsedByPurposes(cat, v, org)
  }

  // ---- The guards are enough ----

  lemma NewPurposeFits(t: Tables, p: PurposeVersion, elements: seq<MappedElement>)
    requires CatalogSound(t.catalog) && Allowed(t, AddPurpose(p, elements))
    ensures PurposeFits(t.catalog, p, elements)
  {
    var cat := t.catalog;
    forall v | v in cat.purposes
      ensures PurposesAgree(p, cat.purposes[v]) && PurposesAgree(cat.purposes[v], p)
    {
      var q := cat.purposes[v];
      if q.org == p.org && q.name == p.name {
        assert v in Named(cat, p.name, q.group, p.org);
      }
    }
  }

  lemma NextPurposeFits(t: Tables, p: PurposeVersion, elements: seq<MappedElement>)
    requires CatalogSound(t.catalog) && Allowed(t, AddPurposeVersion(p, elements))
    ensures PurposeFits(t.catalog, p, elements)
  {
    var cat := t.catalog;
    var latest :| IsLatest(cat, VersionsOf(cat, p.id, p.org), latest) && Continues(cat.purposes[latest], p);
    forall v | v in cat.purposes
      ensures PurposesAgree(p, cat.purposes[v]) && PurposesAgree(cat.purposes[v], p)
    {
      var q := cat.purposes[v];
      assert PurposesAgree(cat.purposes[latest], q) && PurposesAgree(q, cat.purposes[latest]);
      if q.org == p.org && q.id == p.id {
        assert v in VersionsOf(cat, p.id, p.org);
      }
    }
  }

  lemma NewElementFits(t: Tables, e: ElementVersion)
    requires CatalogSound(t.catalog) && Allowed(t, AddElement(e))
    ensures ElementFits(t.catalog, e)
  {
    var cat := t.catalog;
    forall v | v in cat.elements
      ensures ElementsAgree(e, cat.elements[v]) && ElementsAgree(cat.elements[v], e)
    {
      assert v !in ElementsNamed(cat, e.name, e.namespace, e.org);
    }
  }

  lemma NextElementFits(t: Tables, e: ElementVersion)
    requires CatalogSound(t.catalog) && Allowed(t, AddElementVersion(e))
    ensures ElementFits(t.catalog, e)
  {
    var cat := t.catalog;
    var latest :| IsLatestElement(cat, ElementVersionsOf(cat, e.id, e.org), latest) &&
      ContinuesElement(cat.elements[latest], e);
    forall v | v in cat.elements
      ensures ElementsAgree(e, cat.elements[v]) && ElementsAgree(cat.elements[v], e)
    {
      var f := cat.elements[v];
      assert ElementsAgree(cat.elements[latest], f) && ElementsAgree(f, cat.elements[latest]);
      if f.org == e.org && f.id == e.id {
        assert v in ElementVersionsOf(cat, e.id, e.org);
      }
    }
  }

  /** The unique indexes of the schema are never violated by an allowed call: the row it adds shares neither
      identifier and number nor name, scope and number with a stored row of its organization. */
  lemma AllowedPassesIndexes(t: Tables, call: CatalogTx, v: Id)
    requires CatalogSound(t.catalog) && Allowed(t, call)
    ensures (call.AddPurpose? || call.AddPurposeVersion?) && v in t.catalog.purposes ==>
              var p, q := call.purpose, t.catalog.purposes[v];
              q.org == p.org && q.num == p.num ==> q.id != p.id && !(q.name == p.name && q.group == p.group)
    ensures (call.AddElement? || call.AddElementVersion?) && v in t.catalog.elements ==>
              var e, f := call.element, t.catalog.elements[v];
              f.org == e.org && f.num == e.num ==> f.id != e.id && !(f.name == e.name && f.namespace == e.namespace)
  {
    if (call.AddPurpose? || call.AddPurposeVersion?) && v in t.catalog.purposes &&
      t.catalog.purposes[v].org == call.purpose.org {
      if call.AddPurpose? {
        NewPurposeFits(t, call.purpose, call.elements);
      } else {
        NextPurposeFits(t, call.purpose, call.elements);
      }
      PurposeIndexesAllow(t.catalog, call.purpose, call.elements, v);
    }
    if (call.AddElement? || call.AddElementVersion?) && v in t.catalog.elements &&
      t.catalog.elements[v].org == call.element.org {
      if call.AddElement? {
        NewElementFits(t, call.element);
      } else {
        NextElementFits(t, call.element);
      }
      ElementIndexesAllow(t.catalog, call.element, v);
    }
  }

  lemma UnusedElementIsUnmapped(cat: Catalog, v: Id, org: string)
    requires CatalogSound(cat) && v in cat.elements && cat.elements[v].org == org
    ensures Unmapped(cat, v) <==> !UsedByPurposes(cat, v, org)
  {
    if p :| p in cat.mappings && p.1 == v {
      assert MappingSound(cat, p);
    }
  }

  lemma AllowedKeepsSound(t: Tables, tx: CatalogTx)
    requires CatalogSound(t.catalog) && Allowed(t, tx)
    ensures CatalogSound(CatalogEffect(t.catalog, tx))
  {
    match tx {
      case AddPurpose(p, elements) =>
        NewPurposeFits(t, p, elements);
        WithPurposeIsSound(t.catalog, p, elements);
      case AddPurposeVersion(p, elements) =>
        NextPurposeFits(t, p, elements);
        WithPurposeIsSound(t.catalog, p, elements);
      case DropPurposeVersions(gone, _) =>
        WithoutPurposesIsSound(t.catalog, gone);
      case AddElement(e) =>
        NewElementFits(t, e);
        WithElementIsSound(t.catalog, e);
      case AddElementVersion(e) =>
        NextElementFits(t, e);
        WithElementIsSound(t.catalog, e);
      case DropElementVersion(v, org) =>
        UnusedElementIsUnmapped(t.catalog, v, org);
        WithoutElementIsSound(t.catalog, v);
    }
  }

  /** Every link names an existing version of its own organization. */
  ghost predicate LinksExist(t: Tables) {
    forall link :: link in t.links ==> link.1 in t.catalog.purposes && t.catalog.purposes[link.1].org == link.0.org
  }

  lemma AllowedFreezes(t: Tables, tx: CatalogTx)
    requires CatalogSound(t.catalog) && LinksExist(t) && Allowed(t, tx)
    ensures Frozen(t.catalog, CatalogEffect(t.catalog, tx))
    ensures ConsentsKept(t, CatalogEffect(t.catalog, tx))
  {
    match tx {
      case AddPurpose(p, elements) => WithPurposeFreezes(t.catalog, p, elements);
      case AddPurposeVersion(p, elements) => WithPurposeFreezes(t.catalog, p, elements);
      case DropPurposeVersions(gone, org) =>
        WithoutPurposesFreezes(t.catalog, gone);
      case AddElement(e) => WithElementFreezes(t.catalog, e);
      case AddElementVersion(e) => WithElementFreezes(t.catalog, e);
      case DropElementVersion(v, org) =>
        UnusedElementIsUnmapped(t.catalog, v, org);
        WithoutElementFreezes(t.catalog, v);
    }
  }

  lemma GoodLinksExist(cfg: Config, t: Tables, log: seq<Commit>)
    requires Good(cfg, t, log)
    ensures LinksExist(t)
  {
    forall link | link in t.links
      ensures link.1 in t.catalog.purposes && t.catalog.purposes[link.1].org == link.0.org
    {
      assert ConsentGood(cfg, t, link.0);
      assert link.1 in Project(t, link.0).links;
    }
  }

  /** A guarded catalogue call keeps the whole system good, touches no consent, and changes no version
      row it leaves in place. */
  lemma AllowedKeepsGood(cfg: Config, t: Tables, log: seq<Commit>, tx: CatalogTx)
    requires Good(cfg, t, log) && Allowed(t, tx)
    ensures var t' := t.(catalog := CatalogEffect(t.catalog, tx));
            && Good(cfg, t', log + [Commit(t', {})])
            && Frozen(t.catalog, t'.catalog)
            && forall k :: Untouched(t, t', k)
  {
    GoodLinksExist(cfg, t, log);
    AllowedKeepsSound(t, tx);
    AllowedFreezes(t, tx);
    CatalogCommitKeepsGood(cfg, t, log, CatalogEffect(t.catalog, tx));
  }

  // ---- Whole runs ----

  datatype Event = ConsentEvent(k: Key, tx: Tx) | CatalogEvent(call: CatalogTx)

  datatype System = System(tables: Tables, log: seq<Commit>)

  ghost predicate GoodSystem(cfg: Config, s: System) {
    Good(cfg, s.tables, s.log)
  }

  ghost predicate ConsentLands(cfg: Config, s: System, k: Key, tx: Tx, s': System, wrote: set<Key>) {
    && Landed(cfg, s.tables, k, tx, Session(s'.tables, wrote, INITIAL_VARS))
    && s'.log == s.log + [Commit(s'.tables, wrote)]
  }

  ghost predicate ConsentStep(cfg: Config, s: System, k: Key, tx: Tx, s': System) {
    && HandlerAccepts(cfg, tx) && Grounded(s.tables.catalog, k, tx)
    && exists wrote :: ConsentLands(cfg, s, k, tx, s', wrote)
  }

  ghost predicate CatalogStep(s: System, call: CatalogTx, s': System) {
    && Allowed(s.tables, call)
    && s'.tables == s.tables.(catalog := CatalogEffect(s.tables.catalog, call))
    && s'.log == s.log + [Commit(s'.tables, {})]
  }

  /** One committed service call. Calls that fail, or are rolled back, change nothing and are not events. */
  ghost predicate SystemStep(cfg: Config, s: System, e: Event, s': System) {
    match e
    case ConsentEvent(k, tx) => ConsentStep(cfg, s, k, tx, s')
    case CatalogEvent(call) => CatalogStep(s, call, s')
  }

  ghost predicate SystemRun(cfg: Config, states: seq<System>, events: seq<Event>) {
    && |states| == |events| + 1 && states[0] == System(EMPTY_TABLES, [])
    && forall i :: 0 <= i < |events| ==> SystemStep(cfg, states[i], events[i], states[i + 1])
  }

  /** A transaction that lands is a step of the system. */
  lemma LandedIsStep(cfg: Config, s: System, k: Key, tx: Tx, landed: Session)
    requires HandlerAccepts(cfg, tx) && Grounded(s.tables.catalog, k, tx) && Landed(cfg, s.tables, k, tx, landed)
    ensures ConsentStep(cfg, s, k, tx, System(landed.tables, s.log + [Commit(landed.tables, landed.wrote)]))
  {
    var s' := System(landed.tables, s.log + [Commit(landed.tables, landed.wrote)]);
    assert ConsentLands(cfg, s, k, tx, s', landed.wrote);
  }

  lemma ConsentStepKeepsGood(cfg: Config, s: System, k: Key, tx: Tx, s': System)
    requires GoodSystem(cfg, s) && ConsentStep(cfg, s, k, tx, s')
    ensures GoodSystem(cfg, s') && s'.tables.catalog == s.tables.catalog
  {
    var wrote :| ConsentLands(cfg, s, k, tx, s', wrote);
    LandedKeepsGood(cfg, s.tables, s.log, k, tx, Session(s'.tables, wrote, INITIAL_VARS));
  }

  lemma CatalogStepKeepsGood(cfg: Config, s: System, call: CatalogTx, s': System)
    requires GoodSystem(cfg, s) && CatalogStep(s, call, s')
    ensures GoodSystem(cfg, s') && Frozen(s.tables.catalog, s'.tables.catalog)
  {
    AllowedKeepsGood(cfg, s.tables, s.log, call);
  }

  lemma NothingFreezes(cat: Catalog)
    ensures Frozen(cat, cat)
  {
  }

  lemma StepKeepsGood(cfg: Config, s: System, e: Event, s': System)
    requires GoodSystem(cfg, s) && SystemStep(cfg, s, e, s')
    ensures GoodSystem(cfg, s') && Frozen(s.tables.catalog, s'.tables.catalog)
  {
    match e {
      case ConsentEvent(k, tx) =>
        ConsentStepKeepsGood(cfg, s, k, tx, s');
        NothingFreezes(s.tables.catalog);
      case CatalogEvent(call) =>
        CatalogStepKeepsGood(cfg, s, call, s');
    }
  }

  /** In every state of every run: the lifecycle invariant, the audit chain, intact links, exact
      approval rows, unambiguous names and version numbers, and histories that replay. */
  lemma {:induction false} SystemRunKeepsGood(cfg: Config, states: seq<System>, events: seq<Event>, i: nat)
    requires WellFormed(cfg) && SystemRun(cfg, states, events) && i < |states|
    ensures GoodSystem(cfg, states[i])
  {
    if i == 0 {
      EmptyIsGood(cfg);
    } else {
      SystemRunKeepsGood(cfg, states, events, i - 1);
      StepKeepsGood(cfg, states[i - 1], events[i - 1], states[i]);
    }
  }

  ghost predicate LinkedThroughout(states: seq<System>, k: Key, pv: Id, i: nat, j: nat)
    requires i <= j < |states|
  {
    forall m :: i <= m <= j ==> (k, pv) in states[m].tables.links
  }

  lemma LinkedVersionExists(cfg: Config, states: seq<System>, events: seq<Event>, k: Key, pv: Id, i: nat)
    requires WellFormed(cfg) && SystemRun(cfg, states, events)
    requires i < |states| && (k, pv) in states[i].tables.links
    ensures pv in states[i].tables.catalog.purposes
  {
    SystemRunKeepsGood(cfg, states, events, i);
    GoodLinksExist(cfg, states[i].tables, states[i].log);
  }

  lemma RunFreezes(cfg: Config, states: seq<System>, events: seq<Event>, i: nat)
    requires WellFormed(cfg) && SystemRun(cfg, states, events) && i < |events|
    ensures Frozen(states[i].tables.catalog, states[i + 1].tables.catalog)
  {
    SystemRunKeepsGood(cfg, states, events, i);
    StepKeepsGood(cfg, states[i], events[i], states[i + 1]);
  }

  lemma LinkedVersionKept(cfg: Config, states: seq<System>, events: seq<Event>, k: Key, pv: Id, i: nat)
    requires WellFormed(cfg) && SystemRun(cfg, states, events) && i < |events|
    requires (k, pv) in states[i].tables.links && (k, pv) in states[i + 1].tables.links
    ensures VersionKept(states[i].tables.catalog, states[i + 1].tables.catalog, pv)
  {
    LinkedVersionExists(cfg, states, events, k, pv, i);
    LinkedVersionExists(cfg, states, events, k, pv, i + 1);
    RunFreezes(cfg, states, events, i);
  }

  lemma VersionKeptItself(cat: Catalog, pv: Id)
    requires pv in cat.purposes
    ensures VersionKept(cat, cat, pv)
  {
  }

  /** As long as a consent stays linked to a purpose version, that version, its elements and which of
      them are mandatory never change, whatever else the run does. */
  lemma {:induction false} LinkedVersionsNeverChange(cfg: Config, states: seq<System>, events: seq<Event>, k: Key,
                                                     pv: Id, i: nat, j: nat)
    requires WellFormed(cfg) && SystemRun(cfg, states, events)
    requires i <= j < |states| && LinkedThroughout(states, k, pv, i, j)
    ensures VersionKept(states[i].tables.catalog, states[j].tables.catalog, pv)
    decreases j - i
  {
    if i == j {
      LinkedVersionExists(cfg, states, events, k, pv, i);
      VersionKeptItself(states[i].tables.catalog, pv);
    } else {
      LinkedVersionsNeverChange(cfg, states, events, k, pv, i, j - 1);
      LinkedVersionKept(cfg, states, events, k, pv, j - 1);
      VersionKeptTransitive(states[i].tables.catalog, states[j - 1].tables.catalog, states[j].tables.catalog, pv);
    }
  }

  lemma VersionKeptTransitive(cat: Catalog, mid: Catalog, cat': Catalog, pv: Id)
    requires VersionKept(cat, mid, pv) && VersionKept(mid, cat', pv)
    ensures VersionKept(cat, cat', pv)
  {
    forall ev
      ensures MappingKept(cat, cat', pv, ev)
    {
      assert MappingKept(cat, mid, pv, ev) && MappingKept(mid, cat', pv, ev);
    }
  }
}
