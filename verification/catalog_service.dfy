/** The services of the catalogue: checks against the current rows, then one transaction. */
module CatalogService {
  import opened Wrappers
  import opened Like
  import opened Rows
  import opened Tables
  import opened CatalogStore
  import opened Transactions
  import opened Integrity
  import opened PurposeResolution
  import opened CatalogEffects
  import opened CatalogRuns
  import opened ConsentService
  import opened ElementReferences

  const MAX_NAME := 255
  const MAX_DESCRIPTION := 1024

  /** What a catalogue call takes from its surroundings. */
  datatype CatalogEnv = CatalogEnv(now: int, versionId: Id, id: Id, dialect: Dialect, readFails: bool, faults: Faults)

  predicate NoFaults(env: CatalogEnv) {
    !env.readFails && env.faults == NO_FAULTS
  }

  predicate DescriptionFits(description: Option<string>) {
    description.Some? ==> |description.value| <= MAX_DESCRIPTION
  }

  predicate NameFits(name: string) {
    name != "" && |name| <= MAX_NAME
  }

  /** What the writer of a catalogue call leaves behind: everything it does, and nothing else. */
  ghost predicate CallCommitted(t: Tables, log: seq<Commit>, reg: Registry, call: CatalogTx)
    reads reg
  {
    && Allowed(t, call)
    && reg.tables == t.(catalog := CatalogEffect(t.catalog, call))
    && reg.log == log + [Commit(reg.tables, {})]
  }

  ghost predicate Unchanged(t: Tables, log: seq<Commit>, reg: Registry)
    reads reg
  {
    reg.tables == t && reg.log == log
  }

  /** Runs the statements of an allowed call as one transaction. */
  method RunCall(reg: Registry, ws: seq<CatalogWrite>, faults: Faults, ghost call: CatalogTx)
    returns (r: Option<ServiceError>)
    requires Healthy(reg)
    requires Allowed(reg.tables, call)
    requires var r := RunCatalog(reg.tables.catalog, ws); r.Ok? ==> r.value == CatalogEffect(reg.tables.catalog, call)
    modifies reg
    ensures Healthy(reg)
    ensures r.None? ==>
      CallCommitted(old(reg.tables), old(reg.log), reg, call) && RunCatalog(old(reg.tables.catalog), ws).Ok?
    ensures r.Some? ==> Unchanged(old(reg.tables), old(reg.log), reg)
    ensures Hits(faults, |ws|) ==> r.Some?
    ensures !Hits(faults, |ws|) ==> r == if RunCatalog(old(reg.tables.catalog), ws).Ok? then None else Some(Duplicate)
  {
    TransactCatalog(reg.cfg, reg.tables, ws, faults);
    AllowedKeepsGood(reg.cfg, reg.tables, reg.log, call);
    var result := reg.ExecuteTransaction(OnCatalogAll(ws), faults);
    return if result.Ok? then None else Some(result.error);
  }

  /** The stores recognise a violated key on MySQL only, and answer it as a name conflict. */
  function StoreFailure(dialect: Dialect, e: ServiceError): ServiceError {
    if e.Duplicate? && dialect.MySQL? then AlreadyExists else Internal
  }

  // ---- Purposes ----

  /** A request to create a purpose or one of its versions. */
  datatype PurposeRequest = PurposeRequest(name: string, group: string, info: VersionInfo, elements: seq<ElementRef>)

  function NewPurpose(request: PurposeRequest, org: string, env: CatalogEnv): PurposeVersion {
    PurposeVersion(env.versionId, env.id, request.name, request.group, 1, request.info.(created := env.now), org)
  }

  function NextPurpose(latest: PurposeVersion, info: VersionInfo, org: string, env: CatalogEnv): PurposeVersion {
    PurposeVersion(env.versionId, latest.id, latest.name, latest.group, latest.num + 1, info.(created := env.now), org)
  }

  /** The first version of a purpose: everything but its identifiers and the time from the request. */
  predicate FirstPurpose(request: PurposeRequest, org: string, env: CatalogEnv, p: PurposeVersion) {
    && p.versionId == env.versionId && p.id == env.id && p.num == 1 && p.org == org
    && p.name == request.name && p.group == request.group && InfoStored(request.info, env.now, p.info)
  }

  predicate InfoStored(given: VersionInfo, now: int, stored: VersionInfo) {
    && stored.displayName == given.displayName && stored.description == given.description
    && stored.properties == given.properties && stored.created == now
  }

  lemma NewPurposeIsFirst(request: PurposeRequest, org: string, env: CatalogEnv)
    ensures FirstPurpose(request, org, env, NewPurpose(request, org, env))
  {
  }

  /** The new version maps exactly the element versions the references stand for, mandatory where they say so. */
  ghost predicate ReferencesMapped(cat: Catalog, cat': Catalog, org: string, pv: Id, refs: seq<ElementRef>) {
    && (forall ev :: (pv, ev) in cat'.mappings <==> Referred(cat, org, refs, ev))
    && (forall i, ev :: 0 <= i < |refs| && StandsFor(cat, org, refs[i], ev) ==>
          (pv, ev) in cat'.mappings && cat'.mappings[(pv, ev)].mandatory == refs[i].mandatory &&
          cat'.mappings[(pv, ev)].org == org)
  }

  ghost predicate Referred(cat: Catalog, org: string, refs: seq<ElementRef>, ev: Id) {
    exists i :: 0 <= i < |refs| && StandsFor(cat, org, refs[i], ev)
  }

  lemma StoredMappings(cat: Catalog, org: string, p: PurposeVersion, refs: seq<ElementRef>,
                       elements: seq<MappedElement>)
    requires CatalogSound(cat) && p.versionId !in cat.purposes && p.org == org
    requires AllStandFor(cat, org, refs, elements) && DistinctElements(elements)
    ensures ReferencesMapped(cat, WithPurpose(cat, p, elements), org, p.versionId, refs)
  {
    var cat' := WithPurpose(cat, p, elements);
    forall ev
      ensures (p.versionId, ev) in cat'.mappings <==> Referred(cat, org, refs, ev)
    {
      MappedExactlyOnce(cat, p, elements, ev);
      if i :| 0 <= i < |refs| && StandsFor(cat, org, refs[i], ev) {
        StandsForOne(cat, org, refs[i], ev, elements[i].elementVersion);
      }
    }
    forall i, ev | 0 <= i < |refs| && StandsFor(cat, org, refs[i], ev)
      ensures (p.versionId, ev) in cat'.mappings && cat'.mappings[(p.versionId, ev)] == Mapping(refs[i].mandatory, org)
    {
      StandsForOne(cat, org, refs[i], ev, elements[i].elementVersion);
      MappedExactlyOnce(cat, p, elements, ev);
    }
  }

  method BuildVersionWrites(p: PurposeVersion, elements: seq<MappedElement>) returns (ws: seq<CatalogWrite>)
    ensures ws == CreateVersionWrites(p, elements)
  {
    ws := [InsertPurposeVersion(p)];
    for i := 0 to |elements|
      invariant ws == [InsertPurposeVersion(p)] + MappingWrites(p, elements)[..i]
    {
      ws := ws + [InsertMapping(p.versionId, elements[i].elementVersion, Mapping(elements[i].mandatory, p.org))];
    }
  }

  /** Stores a version and its mappings: as a whole, or not at all when an element version comes twice. */
  method StoreVersion(reg: Registry, p: PurposeVersion, elements: seq<MappedElement>, env: CatalogEnv,
                      ghost call: CatalogTx)
    returns (r: Option<ServiceError>)
    requires Healthy(reg) && Allowed(reg.tables, call) && p.versionId !in reg.tables.catalog.purposes
    requires CatalogEffect(reg.tables.catalog, call) == WithPurpose(reg.tables.catalog, p, elements)
    modifies reg
    ensures Healthy(reg)
    ensures r.None? ==> CallCommitted(old(reg.tables), old(reg.log), reg, call) && DistinctElements(elements)
    ensures r.Some? ==> Unchanged(old(reg.tables), old(reg.log), reg)
    ensures env.faults == NO_FAULTS ==>
      r == if DistinctElements(elements) then None else Some(StoreFailure(env.dialect, Duplicate))
  {
    var ws := BuildVersionWrites(p, elements);
    RunCreateVersion(reg.tables.catalog, p, elements);
    var error := RunCall(reg, ws, env.faults, call);
    r := if error.None? then None else Some(StoreFailure(env.dialect, error.value));
  }

  method IsNameTaken(cat: Catalog, name: string, group: string, org: string) returns (taken: bool)
    ensures taken == NameTaken(cat, name, group, org)
  {
    if Named(cat, name, group, org) != {} {
      return true;
    }
    if group != org {
      return Named(cat, name, org, org) != {};
    }
    return NamedInOrg(cat, name, org);
  }

  /** The first reason to refuse a new purpose, in the order of the checks; that two references stand for the
      same version shows only when the mappings are stored. */
  ghost function PurposeRefusal(cat: Catalog, request: PurposeRequest, org: string,
                                dialect: Dialect): Option<ServiceError> {
    if !NameFits(request.name) || !DescriptionFits(request.info.description) then Some(ValidationFailed)
    else if NameTaken(cat, request.name, request.group, org) then Some(AlreadyExists)
    else if !Referable(cat, org, request.elements) then Some(ValidationFailed)
    else if SameVersionTwice(cat, org, request.elements) then Some(StoreFailure(dialect, Duplicate))
    else None
  }

  /** CreatePurpose succeeds exactly when the request is well formed, the name is free in the group and
      the organization, every element reference stands for a version, and no two for the same one. */
  method CreatePurpose(reg: Registry, request: PurposeRequest, org: string, env: CatalogEnv)
    returns (r: Result<PurposeVersion, ServiceError>, ghost elements: seq<MappedElement>)
    requires Healthy(reg)
    requires env.versionId !in reg.tables.catalog.purposes && FreshPurposeId(reg.tables.catalog, env.id)
    modifies reg
    ensures Healthy(reg)
    ensures r.Err? ==> Unchanged(old(reg.tables), old(reg.log), reg)
    ensures r.Ok? ==>
      && r.value == NewPurpose(request, org, env)
      && AllStandFor(old(reg.tables.catalog), org, request.elements, elements)
      && CallCommitted(old(reg.tables), old(reg.log), reg, AddPurpose(r.value, elements))
      && FirstPurpose(request, org, env, r.value)
      && ReferencesMapped(old(reg.tables.catalog), reg.tables.catalog, org, r.value.versionId, request.elements)
    ensures r.Ok? ==> PurposeRefusal(old(reg.tables.catalog), request, org, env.dialect) == None
    ensures NoFaults(env) ==>
      var refusal := PurposeRefusal(old(reg.tables.catalog), request, org, env.dialect);
      if refusal.None? then r.Ok? else r == Err(refusal.value)
    ensures
      && NameFits(request.name) && DescriptionFits(request.info.description) && !env.readFails
      && NameTaken(old(reg.tables.catalog), request.name, request.group, org)
      ==> r == Err(AlreadyExists)
  {
    elements := [];
    if !NameFits(request.name) || !DescriptionFits(request.info.description) {
      return Err(ValidationFailed), elements;
    }
    if env.readFails {
      return Err(Internal), elements;
    }
    var taken := IsNameTaken(reg.tables.catalog, request.name, request.group, org);
    if taken {
      return Err(AlreadyExists), elements;
    }
    var resolved := ResolveElements(reg.tables.catalog, org, request.elements);
    if resolved.None? {
      return Err(ValidationFailed), elements;
    }
    elements := resolved.value;
    var p := NewPurpose(request, org, env);
    DistinctVersions(reg.tables.catalog, org, request.elements, elements);
    ghost var cat := reg.tables.catalog;
    var error := StoreVersion(reg, p, resolved.value, env, AddPurpose(p, elements));
    if error.Some? {
      return Err(error.value), elements;
    }
    NewPurposeIsFirst(request, org, env);
    StoredMappings(cat, org, p, request.elements, elements);
    return Ok(p), elements;
  }

  ghost function VersionRefusal(cat: Catalog, purposeId: Id, info: VersionInfo, refs: seq<ElementRef>, org: string,
                                dialect: Dialect): Option<ServiceError> {
    if !DescriptionFits(info.description) then Some(ValidationFailed)
    else if VersionsOf(cat, purposeId, org) == {} then Some(NotFound)
    else if !Referable(cat, org, refs) then Some(ValidationFailed)
    else if SameVersionTwice(cat, org, refs) then Some(StoreFailure(dialect, Duplicate))
    else None
  }

  /** CreatePurposeVersion appends version `maximum + 1` under the purpose's own name and group. */
  method CreatePurposeVersion(reg: Registry, purposeId: Id, info: VersionInfo, refs: seq<ElementRef>, org: string,
                              env: CatalogEnv)
    returns (r: Result<PurposeVersion, ServiceError>, ghost elements: seq<MappedElement>)
    requires Healthy(reg)
    requires env.versionId !in reg.tables.catalog.purposes
    modifies reg
    ensures Healthy(reg)
    ensures r.Err? ==> Unchanged(old(reg.tables), old(reg.log), reg)
    ensures r.Ok? ==>
      && r.value.id == purposeId && r.value.versionId == env.versionId && r.value.org == org
      && r.value.info == info.(created := env.now)
      && AllStandFor(old(reg.tables.catalog), org, refs, elements)
      && CallCommitted(old(reg.tables), old(reg.log), reg, AddPurposeVersion(r.value, elements))
      && ReferencesMapped(old(reg.tables.catalog), reg.tables.catalog, org, r.value.versionId, refs)
    ensures r.Ok? ==> VersionRefusal(old(reg.tables.catalog), purposeId, info, refs, org, env.dialect) == None
    ensures NoFaults(env) ==>
      var refusal := VersionRefusal(old(reg.tables.catalog), purposeId, info, refs, org, env.dialect);
      if refusal.None? then r.Ok? else r == Err(refusal.value)
    ensures
      && DescriptionFits(info.description) && !env.readFails &&
        VersionsOf(old(reg.tables.catalog), purposeId, org) == {}
      ==> r == Err(NotFound)
  {
    elements := [];
    if !DescriptionFits(info.description) {
      return Err(ValidationFailed), elements;
    }
    if env.readFails {
      return Err(Internal), elements;
    }
    var latest := Latest(reg.tables.catalog, VersionsOf(reg.tables.catalog, purposeId, org));
    if latest.None? {
      return Err(NotFound), elements;
    }
    var resolved := ResolveElements(reg.tables.catalog, org, refs);
    if resolved.None? {
      return Err(ValidationFailed), elements;
    }
    elements := resolved.value;
    var p := NextPurpose(latest.value, info, org, env);
    DistinctVersions(reg.tables.catalog, org, refs, elements);
    ghost var cat := reg.tables.catalog;
    var error := StoreVersion(reg, p, resolved.value, env, AddPurposeVersion(p, elements));
    if error.Some? {
      return Err(error.value), elements;
    }
    StoredMappings(cat, org, p, refs, elements);
    return Ok(p), elements;
  }

  function VersionAt(cat: Catalog, id: Id, num: int, org: string): set<Id> {
    set v | v in VersionsOf(cat, id, org) && cat.purposes[v].num == num
  }

  lemma VersionAtIsOne(cat: Catalog, id: Id, num: int, org: string, u: Id, v: Id)
    requires CatalogSound(cat) && u in VersionAt(cat, id, num, org) && v in VersionAt(cat, id, num, org)
    ensures u == v
  {
    assert PurposesAgree(cat.purposes[u], cat.purposes[v]);
  }

  function DropVersionWrites(v: Id, id: Id, org: string, last: bool): seq<CatalogWrite> {
    [DeleteVersionRow(v, org)] + if last then [DeletePurposeRows(id, org)] else []
  }

  lemma KeepPurposesIsWithout(cat: Catalog, keep: set<Id>, gone: set<Id>)
    requires MappingsSound(cat) && gone == cat.purposes.Keys - keep
    ensures KeepPurposes(cat, keep) == WithoutPurposes(cat, gone)
  {
    forall p | p in cat.mappings
      ensures p.0 in keep || p.0 !in cat.purposes <==> p.0 !in gone
    {
      assert MappingSound(cat, p);
    }
  }

  /** Deleting a version deletes that row and its mappings; deleting the purpose with its last version
      deletes nothing more. */
  lemma RunDropVersion(cat: Catalog, v: Id, id: Id, org: string, last: bool)
    requires MappingsSound(cat) && v in VersionsOf(cat, id, org)
    requires last == (|VersionsOf(cat, id, org)| == 1)
    ensures RunCatalog(cat, DropVersionWrites(v, id, org, last)) == Ok(WithoutPurposes(cat, {v}))
  {
    var ws := DropVersionWrites(v, id, org, last);
    var keep := set u | u in cat.purposes && !(u == v && cat.purposes[u].org == org);
    KeepPurposesIsWithout(cat, keep, {v});
    var cat1 := WithoutPurposes(cat, {v});
    assert ExecuteCatalog(cat, ws[0]) == Ok(cat1);
    assert ws[1..] == if last then [DeletePurposeRows(id, org)] else [];
    if last {
      SingletonVersions(cat, v, id, org);
      NoVersionsLeft(cat1, id, org);
      assert ws[1..][1..] == [];
    }
    assert RunCatalog(cat1, ws[1..]) == Ok(cat1);
  }

  lemma NoVersionsLeft(cat: Catalog, id: Id, org: string)
    requires VersionsOf(cat, id, org) == {}
    ensures ExecuteCatalog(cat, DeletePurposeRows(id, org)) == Ok(cat)
  {
    forall u | u in cat.purposes
      ensures !(cat.purposes[u].id == id && cat.purposes[u].org == org)
    {
      assert u !in VersionsOf(cat, id, org);
    }
    var keep := set u | u in cat.purposes && !(cat.purposes[u].id == id && cat.purposes[u].org == org);
    assert keep == cat.purposes.Keys;
    assert KeepPurposes(cat, keep) == cat;
  }

  lemma SingletonVersions(cat: Catalog, v: Id, id: Id, org: string)
    requires v in VersionsOf(cat, id, org) && |VersionsOf(cat, id, org)| == 1
    ensures VersionsOf(cat, id, org) == {v}
  {
    var rest := VersionsOf(cat, id, org) - {v};
    assert |rest| == 0;
  }

  /** DeletePurposeVersion: not found, in use, or exactly that version gone. */
  method DeletePurposeVersion(reg: Registry, purposeId: Id, num: int, org: string, env: CatalogEnv)
    returns (r: Option<ServiceError>, v: Id)
    requires Healthy(reg)
    modifies reg
    ensures Healthy(reg)
    ensures r.Some? ==> Unchanged(old(reg.tables), old(reg.log), reg)
    ensures r.None? ==>
      && VersionAt(old(reg.tables.catalog), purposeId, num, org) == {v}
      && CallCommitted(old(reg.tables), old(reg.log), reg, DropPurposeVersions({v}, org))
    ensures !env.readFails ==> (r == Some(NotFound) <==> VersionAt(old(reg.tables.catalog), purposeId, num, org) == {})
    ensures !env.readFails ==>
      (r == Some(InUse) <==> old(exists u :: u in VersionAt(reg.tables.catalog, purposeId, num, org) &&
                                                                      UsedByConsents(reg.tables, u, org)))
    ensures r.Some? ==> r.value in {NotFound, InUse, Internal}
    ensures NoFaults(env) ==> r != Some(Internal)
  {
    v := "";
    if env.readFails {
      return Some(Internal), v;
    }
    var rows := Enumerate(VersionAt(reg.tables.catalog, purposeId, num, org));
    if rows == [] {
      return Some(NotFound), v;
    }
    v := rows[0];
    assert v in VersionAt(reg.tables.catalog, purposeId, num, org);
    forall u | u in VersionAt(reg.tables.catalog, purposeId, num, org)
      ensures u == v
    {
      VersionAtIsOne(reg.tables.catalog, purposeId, num, org, u, v);
    }
    if UsedByConsents(reg.tables, v, org) {
      return Some(InUse), v;
    }
    var last := |VersionsOf(reg.tables.catalog, purposeId, org)| == 1;
    RunDropVersion(reg.tables.catalog, v, purposeId, org, last);
    var error := RunCall(reg, DropVersionWrites(v, purposeId, org, last), env.faults, DropPurposeVersions({v}, org));
    r := if error.None? then None else Some(Internal);
  }

  /** Whether a version of the purpose is in use; any such version blocks the whole delete. */
  method AnyVersionUsed(t: Tables, id: Id, org: string) returns (used: bool)
    ensures used <==> exists v :: v in VersionsOf(t.catalog, id, org) && UsedByConsents(t, v, org)
  {
    var versions := Enumerate(VersionsOf(t.catalog, id, org));
    for i := 0 to |versions|
      invariant forall j :: 0 <= j < i ==> !UsedByConsents(t, versions[j], org)
    {
      if UsedByConsents(t, versions[i], org) {
        assert versions[i] in VersionsOf(t.catalog, id, org);
        return true;
      }
    }
    return false;
  }

  /** DeletePurpose: not found, in use, or all the versions of the purpose gone. */
  method DeletePurpose(reg: Registry, purposeId: Id, org: string, env: CatalogEnv) returns (r: Option<ServiceError>)
    requires Healthy(reg)
    modifies reg
    ensures Healthy(reg)
    ensures r.Some? ==> Unchanged(old(reg.tables), old(reg.log), reg)
    ensures r.None? ==>
      CallCommitted(old(reg.tables), old(reg.log), reg,
                    DropPurposeVersions(VersionsOf(old(reg.tables.catalog), purposeId, org), org))
    ensures !env.readFails ==> (r == Some(NotFound) <==> VersionsOf(old(reg.tables.catalog), purposeId, org) == {})
    ensures !env.readFails ==>
      (r == Some(InUse) <==> old(exists v :: v in VersionsOf(reg.tables.catalog, purposeId, org) &&
                                                                      UsedByConsents(reg.tables, v, org)))
    ensures r.Some? ==> r.value in {NotFound, InUse, Internal}
    ensures NoFaults(env) ==> r != Some(Internal)
  {
    if env.readFails {
      return Some(Internal);
    }
    var gone := VersionsOf(reg.tables.catalog, purposeId, org);
    if gone == {} {
      return Some(NotFound);
    }
    var used := AnyVersionUsed(reg.tables, purposeId, org);
    if used {
      return Some(InUse);
    }
    RunDropPurpose(reg.tables.catalog, purposeId, org);
    var error := RunCall(reg, [DeletePurposeRows(purposeId, org)], env.faults, DropPurposeVersions(gone, org));
    r := if error.None? then None else Some(Internal);
  }

  lemma RunDropPurpose(cat: Catalog, id: Id, org: string)
    requires MappingsSound(cat)
    ensures RunCatalog(cat, [DeletePurposeRows(id, org)]) == Ok(WithoutPurposes(cat, VersionsOf(cat, id, org)))
  {
    var ws := [DeletePurposeRows(id, org)];
    var keep := set u | u in cat.purposes && !(cat.purposes[u].id == id && cat.purposes[u].org == org);
    KeepPurposesIsWithout(cat, keep, VersionsOf(cat, id, org));
    assert ws[1..] == [];
  }
}
