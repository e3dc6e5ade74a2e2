/** The service of consent elements: batch creation, new versions and guarded deletion. */
module ElementService {
  import opened Wrappers
  import opened Rows
  import opened CatalogStore
  import opened Transactions
  import opened Integrity
  import opened PurposeResolution
  import opened CatalogEffects
  import opened CatalogRuns
  import opened ConsentService
  import opened ElementReferences
  import opened CatalogService

  datatype ElementRequest = ElementRequest(
    name: string, namespace: string, elementType: string, schema: Option<string>, info: VersionInfo)

  /** Whether schema and properties suit the element type; decided by the type's validator. */
  type TypeCheck = (string, Option<string>, map<string, string>) -> bool

  predicate RequestFits(request: ElementRequest, valid: TypeCheck) {
    && NameFits(request.name) && DescriptionFits(request.info.description)
    && request.elementType in {"basic", "json", "xml"}
    && valid(request.elementType, request.schema, request.info.properties)
  }

  function NewElement(request: ElementRequest, org: string, env: CatalogEnv): ElementVersion {
    ElementVersion(env.versionId, env.id, request.name, NamespaceOf(request.namespace), request.elementType, 1,
                   request.schema, request.info.(created := env.now), org)
  }

  /** The first version of an element: everything but its identifiers and the time from the request. */
  predicate FirstElement(request: ElementRequest, org: string, env: CatalogEnv, e: ElementVersion) {
    && e.versionId == env.versionId && e.id == env.id && e.num == 1 && e.org == org
    && e.name == request.name && e.elementType == request.elementType && e.schema == request.schema
    && e.namespace == (if request.namespace == "" then "default" else request.namespace)
    && InfoStored(request.info, env.now, e.info)
  }

  predicate Taken(cat: Catalog, request: ElementRequest, org: string) {
    ElementsNamed(cat, request.name, NamespaceOf(request.namespace), org) != {}
  }

  /** createSingleElement succeeds exactly when the request is well formed and the name is free in its
      namespace. */
  method CreateElement(reg: Registry, request: ElementRequest, valid: TypeCheck, org: string, env: CatalogEnv)
    returns (r: Result<ElementVersion, ServiceError>)
    requires Healthy(reg)
    requires env.versionId !in reg.tables.catalog.elements && FreshElementId(reg.tables.catalog, env.id)
    modifies reg
    ensures Healthy(reg)
    ensures r.Err? ==> Unchanged(old(reg.tables), old(reg.log), reg)
    ensures r.Ok? ==>
      r.value == NewElement(request, org, env) && CallCommitted(old(reg.tables), old(reg.log), reg, AddElement(r.value))
    ensures r.Ok? ==> FirstElement(request, org, env, r.value)
    ensures r.Ok? ==> RequestFits(request, valid) && !Taken(old(reg.tables.catalog), request, org)
    ensures RequestFits(request, valid) && !env.readFails && Taken(old(reg.tables.catalog), request, org) ==>
      r == Err(AlreadyExists)
    ensures RequestFits(request, valid) && NoFaults(env) && !Taken(old(reg.tables.catalog), request, org) ==> r.Ok?
  {
    if !RequestFits(request, valid) {
      return Err(ValidationFailed);
    }
    if env.readFails {
      return Err(Internal);
    }
    if Taken(reg.tables.catalog, request, org) {
      return Err(AlreadyExists);
    }
    var e := NewElement(request, org, env);
    RunAddElement(reg.tables.catalog, e);
    var error := RunCall(reg, [InsertElementVersion(e)], env.faults, AddElement(e));
    return if error.None? then Ok(e) else Err(Internal);
  }

  lemma RunAddElement(cat: Catalog, e: ElementVersion)
    requires e.versionId !in cat.elements
    ensures RunCatalog(cat, [InsertElementVersion(e)]) == Ok(WithElement(cat, e))
  {
    assert [InsertElementVersion(e)][1..] == [];
  }

  // ---- The batch ----

  /** The element rows once the successful items are in. */
  function WithSuccesses(rows: map<Id, ElementVersion>,
                         results: seq<Result<ElementVersion, ServiceError>>): map<Id, ElementVersion> {
    if results == [] then rows
    else
      var last := results[|results| - 1];
      var before := WithSuccesses(rows, results[..|results| - 1]);
      if last.Ok? then before[last.value.versionId := last.value] else before
  }

  /** Identifiers the generator hands out during one batch. */
  ghost predicate FreshIds(cat: Catalog, env: nat -> CatalogEnv, n: nat) {
    && (forall i :: 0 <= i < n ==> env(i).versionId !in cat.elements && FreshElementId(cat, env(i).id))
    && (forall i, j :: 0 <= i < j < n ==> env(i).versionId != env(j).versionId && env(i).id != env(j).id)
  }

  /** An earlier item of the batch created this name. */
  predicate CreatedBefore(results: seq<Result<ElementVersion, ServiceError>>, requests: seq<ElementRequest>, i: nat)
    requires i <= |results| && i < |requests|
  {
    exists j :: 0 <= j < i && results[j].Ok? && results[j].value.name == requests[i].name &&
                results[j].value.namespace == NamespaceOf(requests[i].namespace)
  }

  ghost predicate ItemAnswered(cat: Catalog, requests: seq<ElementRequest>, valid: TypeCheck, org: string,
                               env: nat -> CatalogEnv,
                               results: seq<Result<ElementVersion, ServiceError>>, i: nat)
    requires i < |requests| && i < |results|
  {
    var r := results[i];
    var fits := RequestFits(requests[i], valid) && !Taken(cat, requests[i], org) &&
      !CreatedBefore(results, requests, i);
    && (r.Ok? ==> fits && r.value == NewElement(requests[i], org, env(i)))
    && (r.Ok? ==> FirstElement(requests[i], org, env(i), r.value))
    && (fits && NoFaults(env(i)) ==> r.Ok?)
  }

  lemma {:induction false} SuccessRows(rows: map<Id, ElementVersion>,
                                       results: seq<Result<ElementVersion, ServiceError>>, v: Id)
    requires forall i, j :: 0 <= i < j < |results| && results[i].Ok? && results[j].Ok? ==>
               results[i].value.versionId != results[j].value.versionId
    requires forall i :: 0 <= i < |results| && results[i].Ok? ==> results[i].value.versionId !in rows
    ensures var rows' := WithSuccesses(rows, results);
            && (v in rows ==> v in rows' && rows'[v] == rows[v])
            && (forall i :: 0 <= i < |results| && results[i].Ok? && results[i].value.versionId == v ==>
                  v in rows' && rows'[v] == results[i].value)
            && (v in rows' && v !in rows ==>
                  exists i :: 0 <= i < |results| && results[i].Ok? && results[i].value.versionId == v)
    decreases |results|
  {
    if results != [] {
      SuccessRows(rows, results[..|results| - 1], v);
    }
  }

  ghost predicate BatchState(cat: Catalog, cat': Catalog, org: string, env: nat -> CatalogEnv,
                             results: seq<Result<ElementVersion, ServiceError>>) {
    && cat' == cat.(elements := WithSuccesses(cat.elements, results))
    && forall i :: 0 <= i < |results| && results[i].Ok? ==>
         results[i].value.versionId == env(i).versionId && results[i].value.id == env(i).id &&
           results[i].value.org == org
  }

  /** Seen by the next item: its identifiers are still new, and a name is taken when it was before the
      batch or an earlier item took it. */
  lemma NextItemSees(cat: Catalog, cat': Catalog, org: string, env: nat -> CatalogEnv,
                     results: seq<Result<ElementVersion, ServiceError>>,
                     requests: seq<ElementRequest>)
    requires |results| < |requests| && FreshIds(cat, env, |requests|) && BatchState(cat, cat', org, env, results)
    ensures env(|results|).versionId !in cat'.elements && FreshElementId(cat', env(|results|).id)
    ensures Taken(cat', requests[|results|], org) <==>
      Taken(cat, requests[|results|], org) || CreatedBefore(results, requests, |results|)
  {
    var request := requests[|results|];
    var named, named' := ElementsNamed(cat, request.name, NamespaceOf(request.namespace), org),
                         ElementsNamed(cat', request.name, NamespaceOf(request.namespace), org);
    forall v
      ensures v in cat.elements ==> v in cat'.elements && cat'.elements[v] == cat.elements[v]
      ensures v in cat'.elements && v !in cat.elements ==>
                exists i :: 0 <= i < |results| && results[i].Ok? && results[i].value == cat'.elements[v] &&
                  v == env(i).versionId
      ensures forall i :: 0 <= i < |results| && results[i].Ok? && env(i).versionId == v ==>
                v in cat'.elements && cat'.elements[v] == results[i].value
    {
      SuccessRows(cat.elements, results, v);
    }
    if Taken(cat, request, org) {
      var v :| v in named;
      assert v in named';
    }
    if CreatedBefore(results, requests, |results|) {
      var j :| 0 <= j < |results| && results[j].Ok? && results[j].value.name == request.name &&
               results[j].value.namespace == NamespaceOf(request.namespace);
      assert env(j).versionId in named';
    }
    if Taken(cat', request, org) && !Taken(cat, request, org) {
      var v :| v in named';
      assert v !in named;
    }
  }

  lemma CreatedBeforeAppend(results: seq<Result<ElementVersion, ServiceError>>, r: Result<ElementVersion, ServiceError>,
                            requests: seq<ElementRequest>, i: nat)
    requires i <= |results| && i < |requests|
    ensures CreatedBefore(results + [r], requests, i) <==> CreatedBefore(results, requests, i)
  {
    assert forall j :: 0 <= j < i ==> (results + [r])[j] == results[j];
  }

  lemma AnswersAppend(cat: Catalog, requests: seq<ElementRequest>, valid: TypeCheck, org: string,
                      env: nat -> CatalogEnv,
                      results: seq<Result<ElementVersion, ServiceError>>, r: Result<ElementVersion, ServiceError>,
                      i: nat)
    requires i < |results| <= |requests| && ItemAnswered(cat, requests, valid, org, env, results, i)
    ensures ItemAnswered(cat, requests, valid, org, env, results + [r], i)
  {
    CreatedBeforeAppend(results, r, requests, i);
  }

  ghost predicate AllAnswered(cat: Catalog, requests: seq<ElementRequest>, valid: TypeCheck, org: string,
                              env: nat -> CatalogEnv,
                              results: seq<Result<ElementVersion, ServiceError>>)
    requires |results| <= |requests|
  {
    forall i :: 0 <= i < |results| ==> ItemAnswered(cat, requests, valid, org, env, results, i)
  }

  /** How one item is answered against the catalogue as it finds it. */
  predicate AnsweredNow(cat: Catalog, request: ElementRequest, valid: TypeCheck, org: string, env: CatalogEnv,
                        r: Result<ElementVersion, ServiceError>) {
    && (r.Ok? ==> RequestFits(request, valid) && !Taken(cat, request, org) && r.value == NewElement(request, org, env))
    && (RequestFits(request, valid) && NoFaults(env) && !Taken(cat, request, org) ==> r.Ok?)
  }

  function After(cat: Catalog, r: Result<ElementVersion, ServiceError>): Catalog {
    if r.Ok? then WithElement(cat, r.value) else cat
  }

  lemma BatchStep(cat: Catalog, before: Catalog, requests: seq<ElementRequest>, valid: TypeCheck, org: string,
                  env: nat -> CatalogEnv,
                  results: seq<Result<ElementVersion, ServiceError>>, r: Result<ElementVersion, ServiceError>)
    requires |results| < |requests| && FreshIds(cat, env, |requests|)
    requires BatchState(cat, before, org, env, results) && AllAnswered(cat, requests, valid, org, env, results)
    requires AnsweredNow(before, requests[|results|], valid, org, env(|results|), r)
    ensures BatchState(cat, After(before, r), org, env, results + [r])
    ensures AllAnswered(cat, requests, valid, org, env, results + [r])
  {
    assert (results + [r])[..|results|] == results;
    NextItemSees(cat, before, org, env, results, requests);
    CreatedBeforeAppend(results, r, requests, |results|);
    forall i | 0 <= i < |results|
      ensures ItemAnswered(cat, requests, valid, org, env, results + [r], i)
    {
      AnswersAppend(cat, requests, valid, org, env, results, r, i);
    }
  }

  /** CreateElementsInBatch: every item is answered on its own; a name goes to the first item that asks
      for it and succeeds; a failed item leaves nothing behind. */
  method CreateElementsInBatch(reg: Registry, requests: seq<ElementRequest>, valid: TypeCheck, org: string,
                               env: nat -> CatalogEnv)
    returns (r: Option<seq<Result<ElementVersion, ServiceError>>>)
    requires Healthy(reg)
    requires FreshIds(reg.tables.catalog, env, |requests|)
    modifies reg
    ensures Healthy(reg)
    ensures r.None? <==> requests == []
    ensures r.None? ==> Unchanged(old(reg.tables), old(reg.log), reg)
    ensures r.Some? ==>
      && |r.value| == |requests|
      && reg.tables == old(reg.tables).(catalog := reg.tables.catalog)
      && BatchState(old(reg.tables.catalog), reg.tables.catalog, org, env, r.value)
      && AllAnswered(old(reg.tables.catalog), requests, valid, org, env, r.value)
  {
    if requests == [] {
      return None;
    }
    var results: seq<Result<ElementVersion, ServiceError>> := [];
    ghost var t := reg.tables;
    while |results| < |requests|
      invariant Healthy(reg) && |results| <= |requests|
      invariant reg.tables == t.(catalog := reg.tables.catalog)
      invariant BatchState(t.catalog, reg.tables.catalog, org, env, results)
      invariant AllAnswered(t.catalog, requests, valid, org, env, results)
    {
      var i := |results|;
      ghost var before := reg.tables.catalog;
      NextItemSees(t.catalog, before, org, env, results, requests);
      var result := CreateElement(reg, requests[i], valid, org, env(i));
      assert reg.tables.catalog == After(before, result);
      BatchStep(t.catalog, before, requests, valid, org, env, results, result);
      results := results + [result];
    }
    return Some(results);
  }

  // ---- Versions ----

  function NextElement(latest: ElementVersion, schema: Option<string>, info: VersionInfo, org: string,
                       env: CatalogEnv): ElementVersion {
    ElementVersion(env.versionId, latest.id, latest.name, latest.namespace, latest.elementType, latest.num + 1,
                   schema, info.(created := env.now), org)
  }

  predicate VersionFits(elementType: string, schema: Option<string>, info: VersionInfo, valid: TypeCheck) {
    DescriptionFits(info.description) && valid(elementType, schema, info.properties)
  }

  /** CreateElementVersion appends version `maximum + 1` under the element's own name and type. */
  method CreateElementVersion(reg: Registry, elementId: Id, schema: Option<string>, info: VersionInfo,
                              valid: TypeCheck, org: string,
                              env: CatalogEnv)
    returns (r: Result<ElementVersion, ServiceError>)
    requires Healthy(reg)
    requires env.versionId !in reg.tables.catalog.elements
    modifies reg
    ensures Healthy(reg)
    ensures r.Err? ==> Unchanged(old(reg.tables), old(reg.log), reg)
    ensures r.Ok? ==>
      && r.value.id == elementId && r.value.versionId == env.versionId && r.value.org == org && r.value.schema == schema
      && r.value.info == info.(created := env.now) && VersionFits(r.value.elementType, schema, info, valid)
      && CallCommitted(old(reg.tables), old(reg.log), reg, AddElementVersion(r.value))
    ensures !env.readFails ==>
      (r == Err(NotFound) <==> ElementVersionsOf(old(reg.tables.catalog), elementId, org) == {})
    ensures NoFaults(env) ==> r != Err(Internal)
  {
    if env.readFails {
      return Err(Internal);
    }
    var latest := LatestElement(reg.tables.catalog, ElementVersionsOf(reg.tables.catalog, elementId, org));
    if latest.None? {
      return Err(NotFound);
    }
    var row := reg.tables.catalog.elements[latest.value];
    if !VersionFits(row.elementType, schema, info, valid) {
      return Err(ValidationFailed);
    }
    var e := NextElement(row, schema, info, org, env);
    RunAddElement(reg.tables.catalog, e);
    var error := RunCall(reg, [InsertElementVersion(e)], env.faults, AddElementVersion(e));
    return if error.None? then Ok(e) else Err(Internal);
  }

  function ElementAt(cat: Catalog, id: Id, num: int, org: string): set<Id> {
    set v | v in ElementVersionsOf(cat, id, org) && cat.elements[v].num == num
  }

  function DropElementWrites(v: Id, id: Id, org: string, last: bool): seq<CatalogWrite> {
    [DeleteElementRow(v, org)] + if last then [DeleteElementRows(id, org)] else []
  }

  lemma NoElementsLeft(cat: Catalog, id: Id, org: string)
    requires ElementVersionsOf(cat, id, org) == {}
    ensures ExecuteCatalog(cat, DeleteElementRows(id, org)) == Ok(cat)
  {
    forall u | u in cat.elements
      ensures !(cat.elements[u].id == id && cat.elements[u].org == org)
    {
      assert u !in ElementVersionsOf(cat, id, org);
    }
    var keep := set u | u in cat.elements && !(cat.elements[u].id == id && cat.elements[u].org == org);
    assert keep == cat.elements.Keys;
    assert KeepElements(cat, keep) == cat;
  }

  lemma RunDropElement(cat: Catalog, v: Id, id: Id, org: string, last: bool)
    requires v in ElementVersionsOf(cat, id, org) && last == (|ElementVersionsOf(cat, id, org)| == 1)
    ensures RunCatalog(cat, DropElementWrites(v, id, org, last)) == Ok(WithoutElement(cat, v))
  {
    var ws := DropElementWrites(v, id, org, last);
    var cat1 := WithoutElement(cat, v);
    var keep := set u | u in cat.elements && !(u == v && cat.elements[u].org == org);
    assert keep == cat.elements.Keys - {v};
    assert KeepElements(cat, keep) == cat1;
    assert ExecuteCatalog(cat, ws[0]) == Ok(cat1);
    assert ws[1..] == if last then [DeleteElementRows(id, org)] else [];
    if last {
      var rest := ElementVersionsOf(cat, id, org) - {v};
      assert |rest| == 0;
      NoElementsLeft(cat1, id, org);
      assert ws[1..][1..] == [];
    }
    assert RunCatalog(cat1, ws[1..]) == Ok(cat1);
  }

  /** DeleteElementVersion: not found, referenced by a purpose, or exactly that version gone. */
  method DeleteElementVersion(reg: Registry, elementId: Id, num: int, org: string, env: CatalogEnv)
    returns (r: Option<ServiceError>, v: Id)
    requires Healthy(reg)
    modifies reg
    ensures Healthy(reg)
    ensures r.Some? ==> Unchanged(old(reg.tables), old(reg.log), reg)
    ensures r.None? ==>
      && ElementAt(old(reg.tables.catalog), elementId, num, org) == {v}
      && CallCommitted(old(reg.tables), old(reg.log), reg, DropElementVersion(v, org))
    ensures !env.readFails ==> (r == Some(NotFound) <==> ElementAt(old(reg.tables.catalog), elementId, num, org) == {})
    ensures !env.readFails ==>
      (r == Some(InUse) <==> old(exists u :: u in ElementAt(reg.tables.catalog, elementId, num, org) &&
                                                                      UsedByPurposes(reg.tables.catalog, u, org)))
    ensures r.Some? ==> r.value in {NotFound, InUse, Internal}
    ensures NoFaults(env) ==> r != Some(Internal)
  {
    v := "";
    if env.readFails {
      return Some(Internal), v;
    }
    var rows := Enumerate(ElementAt(reg.tables.catalog, elementId, num, org));
    if rows == [] {
      return Some(NotFound), v;
    }
    v := rows[0];
    assert v in ElementAt(reg.tables.catalog, elementId, num, org);
    forall u | u in ElementAt(reg.tables.catalog, elementId, num, org)
      ensures u == v
    {
      assert ElementsAgree(reg.tables.catalog.elements[u], reg.tables.catalog.elements[v]);
    }
    if UsedByPurposes(reg.tables.catalog, v, org) {
      return Some(InUse), v;
    }
    var last := |ElementVersionsOf(reg.tables.catalog, elementId, org)| == 1;
    RunDropElement(reg.tables.catalog, v, elementId, org, last);
    var error := RunCall(reg, DropElementWrites(v, elementId, org, last), env.faults, DropElementVersion(v, org));
    r := if error.None? then None else Some(Internal);
  }
}
