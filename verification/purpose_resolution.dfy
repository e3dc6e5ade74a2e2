/** How the purposes of a consent request become links: find the purpose by name, in the group first
    and then at organization level, pick the version, and build one approval per mapped element. */
module PurposeResolution {
  import opened Wrappers
  import opened Rows
  import opened Lifecycle
  import opened Integrity

  datatype ElementInput = ElementInput(name: string, namespace: string, approved: bool, value: Option<string>)

  datatype PurposeInput = PurposeInput(name: string, version: Option<int>, elements: seq<ElementInput>)

  /** Type, schema and value of an element; whether the value is acceptable is decided elsewhere. */
  type ValueCheck = (string, Option<string>, string) -> bool

  // ---- Store queries ----

  /** Some order of the rows a query returns. */
  method Enumerate<T(==)>(s: set<T>) returns (r: seq<T>)
    ensures forall x :: x in r <==> x in s
    ensures forall i, j :: 0 <= i < j < |r| ==> r[i] != r[j]
  {
    r := [];
    var rest := s;
    while rest != {}
      invariant rest <= s
      invariant forall x :: x in r <==> x in s - rest
      invariant forall i, j :: 0 <= i < j < |r| ==> r[i] != r[j]
      decreases rest
    {
      var x :| x in rest;
      assert forall i :: 0 <= i < |r| ==> r[i] in r && r[i] != x;
      r := r + [x];
      rest := rest - {x};
    }
  }

  function Named(cat: Catalog, name: string, group: string, org: string): set<Id> {
    set v | v in cat.purposes && cat.purposes[v].name == name && cat.purposes[v].group == group &&
      cat.purposes[v].org == org
  }

  function VersionsOf(cat: Catalog, id: Id, org: string): set<Id> {
    set v | v in cat.purposes && cat.purposes[v].id == id && cat.purposes[v].org == org
  }

  ghost predicate IsLatest(cat: Catalog, among: set<Id>, v: Id) {
    v in among && v in cat.purposes && forall u :: u in among && u in cat.purposes ==>
      cat.purposes[u].num <= cat.purposes[v].num
  }

  /** ORDER BY VERSION DESC LIMIT 1 */
  method Latest(cat: Catalog, among: set<Id>) returns (r: Option<PurposeVersion>)
    requires among <= cat.purposes.Keys
    ensures r.None? <==> among == {}
    ensures r.Some? ==> exists v :: IsLatest(cat, among, v) && cat.purposes[v] == r.value
  {
    var rows := Enumerate(among);
    r := None;
    ghost var best: Id := "";
    for i := 0 to |rows|
      invariant r.None? <==> i == 0
      invariant r.Some? ==> best in among && cat.purposes[best] == r.value
      invariant r.Some? ==> forall j :: 0 <= j < i ==> cat.purposes[rows[j]].num <= r.value.num
    {
      assert rows[i] in among;
      if r.None? || r.value.num < cat.purposes[rows[i]].num {
        r := Some(cat.purposes[rows[i]]);
        best := rows[i];
      }
    }
    if r.Some? {
      assert forall u :: u in among ==> u in rows;
      assert IsLatest(cat, among, best);
    } else {
      assert forall u :: u in among ==> u in rows;
    }
  }

  /** The element versions mapped to a purpose version: the mapping joined to ELEMENT. */
  function MappedTo(cat: Catalog, pv: Id, org: string): set<Id> {
    set p | p in cat.mappings && p.0 == pv && cat.mappings[p].org == org && p.1 in cat.elements :: p.1
  }

  lemma MappedExactly(cat: Catalog, pv: Id, ev: Id)
    requires CatalogSound(cat) && pv in cat.purposes
    ensures ev in MappedTo(cat, pv, cat.purposes[pv].org) <==> (pv, ev) in cat.mappings
  {
    if (pv, ev) in cat.mappings {
      assert MappingSound(cat, (pv, ev));
      assert (pv, ev).1 in MappedTo(cat, pv, cat.purposes[pv].org);
    }
  }

  // ---- What resolution means ----

  predicate Visible(p: PurposeVersion, name: string, group: string, org: string) {
    p.org == org && p.name == name && (p.group == group || p.group == org)
  }

  /** The version a reference stands for, in the union of the group's and the organization's purposes. */
  ghost predicate Chosen(cat: Catalog, group: string, org: string, pi: PurposeInput, v: Id) {
    && v in cat.purposes && Visible(cat.purposes[v], pi.name, group, org)
    && (pi.version.Some? ==> cat.purposes[v].num == pi.version.value)
    && (pi.version.None? ==> IsLatest(cat, VersionsOf(cat, cat.purposes[v].id, org), v))
  }

  /** Group first, then organization level, finds the same purpose as looking in both at once: a
      reference stands for at most one version. */
  lemma ChosenIsUnique(cat: Catalog, group: string, org: string, pi: PurposeInput, u: Id, v: Id)
    requires CatalogSound(cat) && Chosen(cat, group, org, pi, u) && Chosen(cat, group, org, pi, v)
    ensures u == v
  {
    var p, q := cat.purposes[u], cat.purposes[v];
    assert PurposesAgree(p, q) && PurposesAgree(q, p);
    assert p.id == q.id;
    if pi.version.None? {
      assert u in VersionsOf(cat, q.id, org) && v in VersionsOf(cat, p.id, org);
    }
  }

  /** The last entry of a request for an element; later entries override earlier ones. */
  function Requested(elements: seq<ElementInput>, name: string, namespace: string): Option<ElementInput> {
    if elements == [] then None
    else
      var last := elements[|elements| - 1];
      if last.name == name && last.namespace == namespace then Some(last)
      else Requested(elements[..|elements| - 1], name, namespace)
  }

  function RequestedFor(cat: Catalog, elements: seq<ElementInput>, ev: Id): Option<ElementInput>
    requires ev in cat.elements
  {
    Requested(elements, cat.elements[ev].name, cat.elements[ev].namespace)
  }

  /** The approval an element gets: what the request says, or not approved. */
  function ApprovalFor(cat: Catalog, elements: seq<ElementInput>, ev: Id): Approval
    requires ev in cat.elements
  {
    match RequestedFor(cat, elements, ev)
    case None => Approval(false, None)
    case Some(e) => Approval(e.approved, e.value)
  }

  /** An entry of a request is for this element. */
  predicate IsFor(e: ElementInput, row: ElementVersion) {
    e.name == row.name && e.namespace == row.namespace
  }

  ghost predicate LastFor(elements: seq<ElementInput>, row: ElementVersion, i: int) {
    && 0 <= i < |elements| && IsFor(elements[i], row)
    && forall j :: i < j < |elements| ==> !IsFor(elements[j], row)
  }

  /** The approval an element gets, by position: what the last entry for it says, and nothing without one. */
  ghost predicate ApprovalAsked(row: ElementVersion, elements: seq<ElementInput>, a: Approval) {
    && (forall i :: LastFor(elements, row, i) ==> a.approved == elements[i].approved && a.value == elements[i].value)
    && ((forall i :: 0 <= i < |elements| ==> !IsFor(elements[i], row)) ==> !a.approved && a.value == None)
  }

  /** The value the last entry gives, if any, suits the element. */
  ghost predicate ValueAccepted(row: ElementVersion, elements: seq<ElementInput>, valid: ValueCheck) {
    forall i :: LastFor(elements, row, i) && elements[i].value.Some? ==>
                  valid(row.elementType, row.schema, elements[i].value.value)
  }

  lemma {:induction false} RequestedIsLast(elements: seq<ElementInput>, row: ElementVersion)
    ensures var e := Requested(elements, row.name, row.namespace);
            if e.Some? then exists i :: LastFor(elements, row, i) && elements[i] == e.value
            else forall i :: 0 <= i < |elements| ==> !IsFor(elements[i], row)
    decreases |elements|
  {
    if elements != [] {
      var n := |elements| - 1;
      if IsFor(elements[n], row) {
        assert LastFor(elements, row, n);
      } else {
        RequestedIsLast(elements[..n], row);
        var e := Requested(elements, row.name, row.namespace);
        if e.Some? {
          var i :| LastFor(elements[..n], row, i) && elements[..n][i] == e.value;
          assert LastFor(elements, row, i);
        }
      }
    }
  }

  lemma LastIsOne(elements: seq<ElementInput>, row: ElementVersion, i: int, j: int)
    requires LastFor(elements, row, i) && LastFor(elements, row, j)
    ensures i == j
  {
  }

  lemma ApprovalIsAsked(cat: Catalog, elements: seq<ElementInput>, valid: ValueCheck, ev: Id)
    requires ev in cat.elements
    ensures ApprovalAsked(cat.elements[ev], elements, ApprovalFor(cat, elements, ev))
    ensures ValueFits(cat, elements, valid, ev) <==> ValueAccepted(cat.elements[ev], elements, valid)
  {
    var row := cat.elements[ev];
    RequestedIsLast(elements, row);
    if RequestedFor(cat, elements, ev).Some? {
      var i :| LastFor(elements, row, i) && elements[i] == RequestedFor(cat, elements, ev).value;
      forall j | LastFor(elements, row, j)
        ensures j == i
      {
        LastIsOne(elements, row, i, j);
      }
    }
  }

  predicate NamesElement(cat: Catalog, pv: Id, ev: Id, e: ElementInput) {
    (pv, ev) in cat.mappings && ev in cat.elements && cat.elements[ev].name == e.name &&
      cat.elements[ev].namespace == e.namespace
  }

  ghost predicate Covered(cat: Catalog, pv: Id, e: ElementInput) {
    exists ev :: NamesElement(cat, pv, ev, e)
  }

  ghost predicate RequestFits(cat: Catalog, pv: Id, elements: seq<ElementInput>) {
    forall i :: 0 <= i < |elements| ==> Covered(cat, pv, elements[i])
  }

  predicate ValueFits(cat: Catalog, elements: seq<ElementInput>, valid: ValueCheck, ev: Id)
    requires ev in cat.elements
  {
    var e := RequestedFor(cat, elements, ev);
    e.Some? && e.value.value.Some? ==> valid(cat.elements[ev].elementType, cat.elements[ev].schema, e.value.value.value)
  }

  ghost predicate ValuesFit(cat: Catalog, pv: Id, elements: seq<ElementInput>, valid: ValueCheck) {
    forall ev :: (pv, ev) in cat.mappings && ev in cat.elements ==> ValueFits(cat, elements, valid, ev)
  }

  ghost predicate Resolvable(cat: Catalog, group: string, org: string, valid: ValueCheck, pi: PurposeInput) {
    exists v :: Chosen(cat, group, org, pi, v) && RequestFits(cat, v, pi.elements) &&
      ValuesFit(cat, v, pi.elements, valid)
  }

  ghost predicate Resolves(cat: Catalog, group: string, org: string, valid: ValueCheck, pi: PurposeInput,
                           link: ResolvedLink) {
    && Chosen(cat, group, org, pi, link.purposeVersion)
    && RequestFits(cat, link.purposeVersion, pi.elements)
    && ValuesFit(cat, link.purposeVersion, pi.elements, valid)
    && LinkGrounded(cat, org, link)
    && DistinctApprovals(link.approvals)
    && forall i :: 0 <= i < |link.approvals| ==>
         && link.approvals[i].0 in cat.elements
         && link.approvals[i].1 == ApprovalFor(cat, pi.elements, link.approvals[i].0)
         && ApprovalAsked(cat.elements[link.approvals[i].0], pi.elements, link.approvals[i].1)
  }

  // ---- The loops ----

  ghost predicate VisibleVersion(cat: Catalog, name: string, group: string, org: string, v: Id) {
    v in cat.purposes && Visible(cat.purposes[v], name, group, org)
  }

  /** The group's purpose of that name, or else the organization's: the only one visible to the group. */
  method FindPurpose(cat: Catalog, name: string, group: string, org: string) returns (r: Option<PurposeVersion>)
    requires CatalogSound(cat)
    ensures r.Some? ==> exists v :: VisibleVersion(cat, name, group, org, v) && cat.purposes[v] == r.value
    ensures r.Some? ==> forall v :: VisibleVersion(cat, name, group, org, v) ==> cat.purposes[v].id == r.value.id
    ensures r.None? ==> forall v :: !VisibleVersion(cat, name, group, org, v)
  {
    r := Latest(cat, Named(cat, name, group, org));
    if r.None? {
      r := Latest(cat, Named(cat, name, org, org));
    }
    assert forall v :: VisibleVersion(cat, name, group, org, v) ==>
      v in Named(cat, name, group, org) || v in Named(cat, name, org, org);
    if r.Some? {
      ghost var u :| u in cat.purposes && cat.purposes[u] == r.value;
      assert VisibleVersion(cat, name, group, org, u);
      forall v | VisibleVersion(cat, name, group, org, v)
        ensures cat.purposes[v].id == r.value.id
      {
        assert PurposesAgree(cat.purposes[u], cat.purposes[v]) && PurposesAgree(cat.purposes[v], cat.purposes[u]);
      }
    }
  }

  /** Finds the version a reference stands for. */
  method FindVersion(cat: Catalog, group: string, org: string, pi: PurposeInput) returns (r: Option<Id>)
    requires CatalogSound(cat)
    ensures r.Some? ==> Chosen(cat, group, org, pi, r.value)
    ensures r.None? ==> forall v :: !Chosen(cat, group, org, pi, v)
  {
    var found := FindPurpose(cat, pi.name, group, org);
    assert forall v :: Chosen(cat, group, org, pi, v) ==> VisibleVersion(cat, pi.name, group, org, v);
    if found.None? {
      return None;
    }
    var p := found.value;
    ghost var u :| VisibleVersion(cat, pi.name, group, org, u) && cat.purposes[u] == p;
    var versions := VersionsOf(cat, p.id, org);
    if pi.version.Some? {
      versions := set v | v in versions && cat.purposes[v].num == pi.version.value;
    }
    assert pi.version.None? ==> u in versions;
    var chosen := Latest(cat, versions);
    assert forall v :: Chosen(cat, group, org, pi, v) ==> v in versions;
    if chosen.None? {
      return None;
    }
    ghost var w :| IsLatest(cat, versions, w) && cat.purposes[w] == chosen.value;
    assert PurposesAgree(p, cat.purposes[w]);
    return Some(chosen.value.versionId);
  }

  /** Later entries of a request for the same element overwrite earlier ones. */
  method IndexRequest(elements: seq<ElementInput>) returns (m: map<(string, string), ElementInput>)
    ensures forall n, s :: (n, s) in m <==> Requested(elements, n, s).Some?
    ensures forall n, s :: (n, s) in m ==> m[(n, s)] == Requested(elements, n, s).value
  {
    m := map[];
    for i := 0 to |elements|
      invariant forall n, s :: (n, s) in m <==> Requested(elements[..i], n, s).Some?
      invariant forall n, s :: (n, s) in m ==> m[(n, s)] == Requested(elements[..i], n, s).value
    {
      assert elements[..i + 1][..i] == elements[..i];
      m := m[(elements[i].name, elements[i].namespace) := elements[i]];
    }
    assert elements[..|elements|] == elements;
  }

  lemma {:induction false} RequestedIsAsked(elements: seq<ElementInput>, name: string, namespace: string)
    ensures Requested(elements, name, namespace).Some? <==>
            exists i :: 0 <= i < |elements| && elements[i].name == name && elements[i].namespace == namespace
    decreases |elements|
  {
    if elements != [] {
      var n := |elements| - 1;
      RequestedIsAsked(elements[..n], name, namespace);
      if i :| 0 <= i < |elements| && elements[i].name == name && elements[i].namespace == namespace {
        if i < n {
          assert elements[..n][i] == elements[i];
        }
      }
    }
  }

  method RequestIsCovered(cat: Catalog, pv: Id, rows: seq<Id>, elements: seq<ElementInput>) returns (ok: bool)
    requires forall ev :: ev in rows ==> ev in cat.elements
    requires forall ev :: ev in rows <==> (pv, ev) in cat.mappings
    ensures ok <==> RequestFits(cat, pv, elements)
  {
    var known: set<(string, string)> := {};
    for i := 0 to |rows|
      invariant forall n, s :: (n, s) in known <==>
                  exists j :: 0 <= j < i && cat.elements[rows[j]].name == n && cat.elements[rows[j]].namespace == s
    {
      known := known + {(cat.elements[rows[i]].name, cat.elements[rows[i]].namespace)};
    }
    for i := 0 to |elements|
      invariant forall j :: 0 <= j < i ==> Covered(cat, pv, elements[j])
    {
      var e := elements[i];
      if (e.name, e.namespace) !in known {
        assert forall ev :: NamesElement(cat, pv, ev, e) ==> ev in rows;
        assert !Covered(cat, pv, e);
        return false;
      }
      var j :| 0 <= j < |rows| && cat.elements[rows[j]].name == e.name &&
        cat.elements[rows[j]].namespace == e.namespace;
      assert NamesElement(cat, pv, rows[j], e);
    }
    return true;
  }

  /** One approval row per mapped element, from the request where it names the element. */
  method BuildApprovals(cat: Catalog, rows: seq<Id>, elements: seq<ElementInput>, valid: ValueCheck)
    returns (r: Option<seq<(Id, Approval)>>)
    requires forall ev :: ev in rows ==> ev in cat.elements
    ensures r.Some? <==> forall ev :: ev in rows ==> ValueFits(cat, elements, valid, ev)
    ensures r.Some? ==> |r.value| == |rows|
    ensures r.Some? ==> forall i :: 0 <= i < |rows| ==> r.value[i] == (rows[i], ApprovalFor(cat, elements, rows[i]))
    ensures r.Some? <==> forall ev :: ev in rows ==> ValueAccepted(cat.elements[ev], elements, valid)
    ensures r.Some? ==> forall i :: 0 <= i < |rows| ==> ApprovalAsked(cat.elements[rows[i]], elements, r.value[i].1)
  {
    forall ev | ev in rows
      ensures ApprovalAsked(cat.elements[ev], elements, ApprovalFor(cat, elements, ev))
      ensures ValueFits(cat, elements, valid, ev) <==> ValueAccepted(cat.elements[ev], elements, valid)
    {
      ApprovalIsAsked(cat, elements, valid, ev);
    }
    var asked := IndexRequest(elements);
    var approvals: seq<(Id, Approval)> := [];
    for i := 0 to |rows|
      invariant |approvals| == i
      invariant forall j :: 0 <= j < i ==> approvals[j] == (rows[j], ApprovalFor(cat, elements, rows[j]))
      invariant forall j :: 0 <= j < i ==> ValueFits(cat, elements, valid, rows[j])
    {
      var row := cat.elements[rows[i]];
      var approval := Approval(false, None);
      if (row.name, row.namespace) in asked {
        var e := asked[(row.name, row.namespace)];
        if e.value.Some? && !valid(row.elementType, row.schema, e.value.value) {
          assert !ValueFits(cat, elements, valid, rows[i]);
          return None;
        }
        approval := Approval(e.approved, e.value);
      }
      approvals := approvals + [(rows[i], approval)];
    }
    return Some(approvals);
  }

  method ResolvePurpose(cat: Catalog, group: string, org: string, pi: PurposeInput, valid: ValueCheck)
    returns (r: Option<ResolvedLink>)
    requires CatalogSound(cat)
    ensures r.Some? <==> Resolvable(cat, group, org, valid, pi)
    ensures r.Some? ==> Resolves(cat, group, org, valid, pi, r.value)
  {
    var found := FindVersion(cat, group, org, pi);
    if found.None? {
      return None;
    }
    var pv := found.value;
    forall v | Chosen(cat, group, org, pi, v)
      ensures v == pv
    {
      ChosenIsUnique(cat, group, org, pi, v, pv);
    }
    var rows := Enumerate(MappedTo(cat, pv, org));
    forall ev
      ensures ev in rows <==> (pv, ev) in cat.mappings
      ensures ev in rows ==> ev in cat.elements
    {
      MappedExactly(cat, pv, ev);
    }
    var covered := RequestIsCovered(cat, pv, rows, pi.elements);
    if !covered {
      return None;
    }
    var approvals := BuildApprovals(cat, rows, pi.elements, valid);
    if approvals.None? {
      return None;
    }
    var link := ResolvedLink(pv, approvals.value);
    forall ev
      ensures HasApproval(link.approvals, ev) <==> (pv, ev) in cat.mappings
    {
      if ev in rows {
        var i :| 0 <= i < |rows| && rows[i] == ev;
        assert link.approvals[i].0 == ev;
      }
    }
    return Some(link);
  }

  ghost predicate AllResolve(cat: Catalog, group: string, org: string, valid: ValueCheck, purposes: seq<PurposeInput>,
                             links: seq<ResolvedLink>) {
    |links| == |purposes| && forall i :: 0 <= i < |purposes| ==> Resolves(cat, group, org, valid, purposes[i], links[i])
  }

  /** validatePurposesAndResolve: one link per purpose, or the first failure. */
  method ResolvePurposes(cat: Catalog, group: string, org: string, purposes: seq<PurposeInput>, valid: ValueCheck)
    returns (r: Option<seq<ResolvedLink>>)
    requires CatalogSound(cat)
    ensures r.Some? <==> forall i :: 0 <= i < |purposes| ==> Resolvable(cat, group, org, valid, purposes[i])
    ensures r.Some? ==> AllResolve(cat, group, org, valid, purposes, r.value)
    ensures r.Some? ==> LinksGrounded(cat, org, r.value)
  {
    var links: seq<ResolvedLink> := [];
    for i := 0 to |purposes|
      invariant |links| == i
      invariant forall j :: 0 <= j < i ==> Resolvable(cat, group, org, valid, purposes[j])
      invariant forall j :: 0 <= j < i ==> Resolves(cat, group, org, valid, purposes[j], links[j])
    {
      var link := ResolvePurpose(cat, group, org, purposes[i], valid);
      if link.None? {
        return None;
      }
      links := links + [link.value];
    }
    return Some(links);
  }
}
