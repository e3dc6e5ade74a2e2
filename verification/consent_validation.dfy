/** ValidateConsent: whether a consent may be used for data access right now. */
module ConsentValidation {
  import opened Wrappers
  import opened Config
  import opened Rows
  import opened Records
  import opened Tables
  import opened Transactions
  import opened Lifecycle
  import opened TableRuns
  import opened Integrity
  import opened ReadModel
  import opened PurposeResolution
  import opened ConsentService

  datatype ElementOutput = ElementOutput(elementVersion: Id, view: ElementView)

  datatype PurposeOutput = PurposeOutput(purposeVersion: Id, elements: seq<ElementOutput>)

  datatype Verdict = Verdict(valid: bool, code: nat, unapproved: seq<string>, info: ConsentView)

  const INVALID_STATUS: nat := 401
  const NOT_APPROVED: nat := 403

  /** What validity asks of the approvals: every mandatory element mapped to a linked purpose version
      is approved. */
  ghost predicate MandatoryApproved(rec: Record, cat: Catalog) {
    forall p: (Id, Id) :: p.0 in rec.links && p in cat.mappings && cat.mappings[p].mandatory ==>
      p in rec.approvals && rec.approvals[p].approved
  }

  // ---- The read model as the validation loop sees it ----

  function PurposeRows(rec: Record, cat: Catalog, org: string): set<Id> {
    set pv | pv in rec.links && pv in cat.purposes && cat.purposes[pv].org == org
  }

  function ApprovalKeys(rec: Record, cat: Catalog, org: string): set<(Id, Id)> {
    set p | p in rec.approvals && Joined(cat, p, org)
  }

  /** No linked version and no approval is lost in the joins. */
  lemma JoinsLoseNothing(rec: Record, cat: Catalog, org: string)
    requires CatalogSound(cat) && LinksIntact(rec, cat, org)
    ensures PurposeRows(rec, cat, org) == rec.links
    ensures ApprovalKeys(rec, cat, org) == rec.approvals.Keys
  {
    forall p | p in rec.approvals
      ensures Joined(cat, p, org)
    {
      assert MappingSound(cat, p);
    }
  }

  /** The approvals indexed by purpose version. */
  method IndexApprovals(rows: seq<(Id, Id)>) returns (index: map<Id, seq<Id>>)
    ensures forall pv, ev :: (pv in index && ev in index[pv]) <==> (pv, ev) in rows
  {
    index := map[];
    for i := 0 to |rows|
      invariant forall pv, ev :: (pv in index && ev in index[pv]) <==> (pv, ev) in rows[..i]
    {
      var (pv, ev) := rows[i];
      assert rows[..i + 1] == rows[..i] + [(pv, ev)];
      index := index[pv := (if pv in index then index[pv] else []) + [ev]];
    }
    assert rows[..|rows|] == rows;
  }

  predicate OutputOf(rec: Record, cat: Catalog, pv: Id, e: ElementOutput) {
    && (pv, e.elementVersion) in rec.approvals && (pv, e.elementVersion) in cat.mappings &&
      e.elementVersion in cat.elements
    && e.view == ViewElement(cat.elements[e.elementVersion], cat.mappings[(pv, e.elementVersion)].mandatory,
                             rec.approvals[(pv, e.elementVersion)])
  }

  ghost predicate HasElement(elements: seq<ElementOutput>, ev: Id) {
    exists i :: 0 <= i < |elements| && elements[i].elementVersion == ev
  }

  ghost predicate ShowsPurpose(rec: Record, cat: Catalog, p: PurposeOutput) {
    && (forall i :: 0 <= i < |p.elements| ==> OutputOf(rec, cat, p.purposeVersion, p.elements[i]))
    && (forall ev :: (p.purposeVersion, ev) in rec.approvals ==> HasElement(p.elements, ev))
  }

  ghost predicate ShowsConsent(rec: Record, cat: Catalog, purposes: seq<PurposeOutput>) {
    && (forall i :: 0 <= i < |purposes| ==> ShowsPurpose(rec, cat, purposes[i]))
    && (forall pv :: pv in rec.links ==> exists i :: 0 <= i < |purposes| && purposes[i].purposeVersion == pv)
    && (forall i :: 0 <= i < |purposes| ==> purposes[i].purposeVersion in rec.links)
  }

  method BuildElements(rec: Record, cat: Catalog, pv: Id, evs: seq<Id>) returns (elements: seq<ElementOutput>)
    requires MappingsSound(cat) && forall p :: p in rec.approvals ==> p in cat.mappings
    requires forall ev :: ev in evs <==> (pv, ev) in rec.approvals
    ensures ShowsPurpose(rec, cat, PurposeOutput(pv, elements))
  {
    elements := [];
    for i := 0 to |evs|
      invariant |elements| == i
      invariant forall j :: 0 <= j < i ==> elements[j].elementVersion == evs[j]
      invariant forall j :: 0 <= j < i ==> OutputOf(rec, cat, pv, elements[j])
    {
      var ev := evs[i];
      assert ev in evs;
      assert (pv, ev) in cat.mappings;
      assert MappingSound(cat, (pv, ev));
      elements := elements + [ElementOutput(ev, ViewElement(cat.elements[ev], cat.mappings[(pv, ev)].mandatory,
                                                            rec.approvals[(pv, ev)]))];
    }
    forall ev | (pv, ev) in rec.approvals
      ensures HasElement(elements, ev)
    {
      assert ev in evs;
      var i :| 0 <= i < |evs| && evs[i] == ev;
      assert elements[i].elementVersion == ev;
    }
  }

  /** buildConsentOutput, as far as purposes and elements go. */
  method BuildPurposes(rec: Record, cat: Catalog, org: string) returns (purposes: seq<PurposeOutput>)
    requires CatalogSound(cat) && LinksIntact(rec, cat, org)
    ensures ShowsConsent(rec, cat, purposes)
  {
    JoinsLoseNothing(rec, cat, org);
    var purposeRows := Enumerate(PurposeRows(rec, cat, org));
    var approvalRows := Enumerate(ApprovalKeys(rec, cat, org));
    var index := IndexApprovals(approvalRows);
    purposes := [];
    for i := 0 to |purposeRows|
      invariant |purposes| == i
      invariant forall j :: 0 <= j < i ==> purposes[j].purposeVersion == purposeRows[j]
      invariant forall j :: 0 <= j < i ==> ShowsPurpose(rec, cat, purposes[j])
    {
      var pv := purposeRows[i];
      var evs := if pv in index then index[pv] else [];
      forall ev
        ensures ev in evs <==> (pv, ev) in rec.approvals
      {
        assert (pv, ev) in approvalRows <==> (pv, ev) in rec.approvals;
      }
      var elements := BuildElements(rec, cat, pv, evs);
      purposes := purposes + [PurposeOutput(pv, elements)];
    }
    forall pv | pv in rec.links
      ensures exists i :: 0 <= i < |purposes| && purposes[i].purposeVersion == pv
    {
      var i :| 0 <= i < |purposeRows| && purposeRows[i] == pv;
      assert purposes[i].purposeVersion == pv;
    }
  }

  predicate Blocks(e: ElementOutput) {
    e.view.mandatory && !e.view.approval.approved
  }

  ghost predicate NothingBlocks(purposes: seq<PurposeOutput>) {
    forall i, j :: 0 <= i < |purposes| && 0 <= j < |purposes[i].elements| ==> !Blocks(purposes[i].elements[j])
  }

  predicate BlocksAs(purposes: seq<PurposeOutput>, i: int, j: int, name: string) {
    && 0 <= i < |purposes| && 0 <= j < |purposes[i].elements|
    && Blocks(purposes[i].elements[j]) && purposes[i].elements[j].view.name == name
  }

  /** In front of the `j`-th element of the `i`-th purpose. */
  predicate Earlier(x: int, y: int, i: int, j: int) {
    x < i || (x == i && y < j)
  }

  ghost predicate NamesSoFar(purposes: seq<PurposeOutput>, names: seq<string>, i: int, j: int) {
    forall n :: n in names <==> exists x, y :: Earlier(x, y, i, j) && BlocksAs(purposes, x, y, n)
  }

  /** Exactly the names of the blocking elements. */
  ghost predicate NamesBlocked(purposes: seq<PurposeOutput>, names: seq<string>) {
    forall n :: n in names <==> exists i, j :: BlocksAs(purposes, i, j, n)
  }

  lemma NextPurpose(purposes: seq<PurposeOutput>, names: seq<string>, i: nat)
    requires i < |purposes| && NamesSoFar(purposes, names, i, |purposes[i].elements|)
    ensures NamesSoFar(purposes, names, i + 1, 0)
  {
    forall n
      ensures n in names <==> exists x, y :: Earlier(x, y, i + 1, 0) && BlocksAs(purposes, x, y, n)
    {
      if x, y :| Earlier(x, y, i + 1, 0) && BlocksAs(purposes, x, y, n) {
        assert x == i ==> y < |purposes[i].elements|;
        assert Earlier(x, y, i, |purposes[i].elements|);
      }
      if n in names {
        var x, y :| Earlier(x, y, i, |purposes[i].elements|) && BlocksAs(purposes, x, y, n);
        assert Earlier(x, y, i + 1, 0);
      }
    }
  }

  lemma NextElement(purposes: seq<PurposeOutput>, names: seq<string>, i: nat, j: nat)
    requires i < |purposes| && j < |purposes[i].elements| && NamesSoFar(purposes, names, i, j)
    ensures var e := purposes[i].elements[j];
            NamesSoFar(purposes, if Blocks(e) then names + [e.view.name] else names, i, j + 1)
  {
    var e := purposes[i].elements[j];
    var names' := if Blocks(e) then names + [e.view.name] else names;
    forall n
      ensures n in names' <==> exists x, y :: Earlier(x, y, i, j + 1) && BlocksAs(purposes, x, y, n)
    {
      if x, y :| Earlier(x, y, i, j + 1) && BlocksAs(purposes, x, y, n) {
        assert Earlier(x, y, i, j) || (x == i && y == j);
      }
      if n in names {
        var x, y :| Earlier(x, y, i, j) && BlocksAs(purposes, x, y, n);
        assert Earlier(x, y, i, j + 1);
      } else if n in names' {
        assert Earlier(i, j, i, j + 1) && BlocksAs(purposes, i, j, n);
      }
    }
  }

  lemma NamesComplete(purposes: seq<PurposeOutput>, names: seq<string>)
    requires NamesSoFar(purposes, names, |purposes|, 0)
    ensures NamesBlocked(purposes, names)
    ensures names == [] <==> NothingBlocks(purposes)
  {
    forall n
      ensures n in names <==> exists i, j :: BlocksAs(purposes, i, j, n)
    {
      if i, j :| BlocksAs(purposes, i, j, n) {
        assert Earlier(i, j, |purposes|, 0);
      }
    }
    if names == [] {
      forall i, j | 0 <= i < |purposes| && 0 <= j < |purposes[i].elements|
        ensures !Blocks(purposes[i].elements[j])
      {
        var n := purposes[i].elements[j].view.name;
        assert n !in names;
        assert !BlocksAs(purposes, i, j, n);
      }
    } else {
      assert names[0] in names;
    }
  }

  /** The double loop that collects the names of mandatory elements without approval. */
  method CollectUnapproved(purposes: seq<PurposeOutput>) returns (names: seq<string>)
    ensures names == [] <==> NothingBlocks(purposes)
    ensures NamesBlocked(purposes, names)
  {
    names := [];
    for i := 0 to |purposes|
      invariant NamesSoFar(purposes, names, i, 0)
    {
      for j := 0 to |purposes[i].elements|
        invariant NamesSoFar(purposes, names, i, j)
      {
        NextElement(purposes, names, i, j);
        if purposes[i].elements[j].view.mandatory && !purposes[i].elements[j].view.approval.approved {
          names := names + [purposes[i].elements[j].view.name];
        }
      }
      NextPurpose(purposes, names, i);
    }
    NamesComplete(purposes, names);
  }

  /** A mandatory element of a linked version without approval. */
  predicate Unapproved(rec: Record, cat: Catalog, p: (Id, Id)) {
    && p.0 in rec.links && p in cat.mappings && cat.mappings[p].mandatory && p.1 in cat.elements
    && !(p in rec.approvals && rec.approvals[p].approved)
  }

  predicate UnapprovedAs(rec: Record, cat: Catalog, p: (Id, Id), name: string) {
    Unapproved(rec, cat, p) && cat.elements[p.1].name == name
  }

  lemma BlockedIsUnapproved(rec: Record, cat: Catalog, purposes: seq<PurposeOutput>, i: int, j: int, name: string)
    requires ShowsConsent(rec, cat, purposes) && BlocksAs(purposes, i, j, name)
    ensures exists p :: UnapprovedAs(rec, cat, p, name)
  {
    assert ShowsPurpose(rec, cat, purposes[i]);
    assert OutputOf(rec, cat, purposes[i].purposeVersion, purposes[i].elements[j]);
    assert UnapprovedAs(rec, cat, (purposes[i].purposeVersion, purposes[i].elements[j].elementVersion), name);
  }

  lemma UnapprovedBlocks(rec: Record, cat: Catalog, org: string, purposes: seq<PurposeOutput>, p: (Id, Id),
                         name: string)
    requires LinksIntact(rec, cat, org) && ShowsConsent(rec, cat, purposes) && UnapprovedAs(rec, cat, p, name)
    ensures exists i, j :: BlocksAs(purposes, i, j, name)
  {
    var i :| 0 <= i < |purposes| && purposes[i].purposeVersion == p.0;
    assert ShowsPurpose(rec, cat, purposes[i]);
    assert (purposes[i].purposeVersion, p.1) == p && p in rec.approvals;
    assert HasElement(purposes[i].elements, p.1);
    var j :| 0 <= j < |purposes[i].elements| && purposes[i].elements[j].elementVersion == p.1;
    assert OutputOf(rec, cat, p.0, purposes[i].elements[j]);
    assert BlocksAs(purposes, i, j, name);
  }

  /** The collected names are those of the mandatory elements the tables hold no approval for. */
  lemma OutputNamesUnapproved(rec: Record, cat: Catalog, org: string, purposes: seq<PurposeOutput>, name: string)
    requires LinksIntact(rec, cat, org) && ShowsConsent(rec, cat, purposes)
    ensures (exists i, j :: BlocksAs(purposes, i, j, name)) <==> exists p :: UnapprovedAs(rec, cat, p, name)
  {
    if i, j :| BlocksAs(purposes, i, j, name) {
      BlockedIsUnapproved(rec, cat, purposes, i, j, name);
    }
    if p :| UnapprovedAs(rec, cat, p, name) {
      UnapprovedBlocks(rec, cat, org, purposes, p, name);
    }
  }

  /** The loop over the read model decides what the tables say. */
  lemma OutputDecidesMandatory(rec: Record, cat: Catalog, org: string, purposes: seq<PurposeOutput>)
    requires CatalogSound(cat) && LinksIntact(rec, cat, org) && ShowsConsent(rec, cat, purposes)
    ensures NothingBlocks(purposes) <==> MandatoryApproved(rec, cat)
  {
    if NothingBlocks(purposes) {
      forall p: (Id, Id) | p.0 in rec.links && p in cat.mappings && cat.mappings[p].mandatory
        ensures p in rec.approvals && rec.approvals[p].approved
      {
        UnblockedIsApproved(rec, cat, purposes, p);
      }
    }
    if MandatoryApproved(rec, cat) {
      forall i, j | 0 <= i < |purposes| && 0 <= j < |purposes[i].elements|
        ensures !Blocks(purposes[i].elements[j])
      {
        ApprovedDoesNotBlock(rec, cat, purposes, i, j);
      }
    }
  }

  lemma UnblockedIsApproved(rec: Record, cat: Catalog, purposes: seq<PurposeOutput>, p: (Id, Id))
    requires ShowsConsent(rec, cat, purposes) && NothingBlocks(purposes)
    requires forall q :: q in rec.approvals <==> q.0 in rec.links && q in cat.mappings
    requires p.0 in rec.links && p in cat.mappings && cat.mappings[p].mandatory
    ensures p in rec.approvals && rec.approvals[p].approved
  {
    var i :| 0 <= i < |purposes| && purposes[i].purposeVersion == p.0;
    assert ShowsPurpose(rec, cat, purposes[i]);
    assert (purposes[i].purposeVersion, p.1) == p;
    assert HasElement(purposes[i].elements, p.1);
    var j :| 0 <= j < |purposes[i].elements| && purposes[i].elements[j].elementVersion == p.1;
    assert OutputOf(rec, cat, p.0, purposes[i].elements[j]);
    assert !Blocks(purposes[i].elements[j]);
  }

  lemma ApprovedDoesNotBlock(rec: Record, cat: Catalog, purposes: seq<PurposeOutput>, i: nat, j: nat)
    requires ShowsConsent(rec, cat, purposes) && MandatoryApproved(rec, cat)
    requires forall q :: q in rec.approvals <==> q.0 in rec.links && q in cat.mappings
    requires i < |purposes| && j < |purposes[i].elements|
    ensures !Blocks(purposes[i].elements[j])
  {
    assert ShowsPurpose(rec, cat, purposes[i]);
    assert OutputOf(rec, cat, purposes[i].purposeVersion, purposes[i].elements[j]);
    var p := (purposes[i].purposeVersion, purposes[i].elements[j].elementVersion);
    assert p.0 in rec.links && p in cat.mappings;
  }

  /** Exactly the names of the mandatory elements without approval. */
  ghost predicate NamesUnapproved(rec: Record, cat: Catalog, names: seq<string>) {
    forall n :: n in names <==> exists p :: UnapprovedAs(rec, cat, p, n)
  }

  method FindUnapproved(rec: Record, cat: Catalog, org: string, purposes: seq<PurposeOutput>)
    returns (names: seq<string>)
    requires CatalogSound(cat) && LinksIntact(rec, cat, org) && ShowsConsent(rec, cat, purposes)
    ensures names == [] <==> MandatoryApproved(rec, cat)
    ensures NamesUnapproved(rec, cat, names)
  {
    names := CollectUnapproved(purposes);
    OutputDecidesMandatory(rec, cat, org, purposes);
    NamesAgree(rec, cat, org, purposes, names);
  }

  lemma NamesAgree(rec: Record, cat: Catalog, org: string, purposes: seq<PurposeOutput>, names: seq<string>)
    requires LinksIntact(rec, cat, org) && ShowsConsent(rec, cat, purposes) && NamesBlocked(purposes, names)
    ensures NamesUnapproved(rec, cat, names)
  {
    forall n
      ensures n in names <==> exists p :: UnapprovedAs(rec, cat, p, n)
    {
      OutputNamesUnapproved(rec, cat, org, purposes, n);
    }
  }

  /** ValidateConsent: valid exactly when the consent it finds is active, every mandatory element of every
      linked version is approved, and it is not overdue or expiring it runs into a store failure. When no
      store call fails that is: active, not overdue, all mandatory elements approved. */
  method ValidateConsent(reg: Registry, k: Key, env: Env) returns (r: Result<Verdict, ServiceError>)
    requires Healthy(reg)
    modifies reg
    ensures Healthy(reg) && reg.tables.catalog == old(reg.tables.catalog) && SameExcept(old(reg.tables), reg.tables, k)
    ensures if && k.id != "" && !env.lookupFails && ExpiryDue(reg.cfg, old(Project(reg.tables, k)), env.now)
               && !Hits(env.expiryFaults, EXPIRE_STEPS)
            then Project(reg.tables, k) == Expired(reg.cfg, reg.tables.catalog, old(Project(reg.tables, k)), env)
            else reg.tables == old(reg.tables)
    ensures k.id == "" ==> r == Err(ValidationFailed)
    ensures k.id != "" && !env.lookupFails && old(Lookup(reg.tables, k)).None? ==> r == Err(NotFound)
    ensures k.id != "" && !env.lookupFails && !env.readFails && old(Lookup(reg.tables, k)).Some? ==> r.Ok?
    ensures r.Ok? ==>
      var c := old(Project(reg.tables, k)).consent;
      && c.Some? && Lookup(reg.tables, k).Some?
      && r.value.info == View(Project(reg.tables, k), reg.tables.catalog) && Shows(reg.tables, k, r.value.info)
      && (r.value.valid <==> r.value.code == 0)
      && (r.value.code == INVALID_STATUS <==> Lookup(reg.tables, k).value.status != reg.cfg.consent.active)
      && (r.value.code == 0 || r.value.code == INVALID_STATUS || r.value.code == NOT_APPROVED)
      && (r.value.code == NOT_APPROVED ==>
            NamesUnapproved(Project(reg.tables, k), reg.tables.catalog, r.value.unapproved))
      && (r.value.valid <==>
            && c.value.status == reg.cfg.consent.active
            && (Overdue(c.value, env.now) ==> Hits(env.expiryFaults, EXPIRE_STEPS))
            && MandatoryApproved(old(Project(reg.tables, k)), reg.tables.catalog))
  {
    SameExceptItself(reg.tables, k);
    if k.id == "" {
      return Err(ValidationFailed);
    }
    if env.lookupFails {
      return Err(Internal);
    }
    var found := Lookup(reg.tables, k);
    if found.None? {
      return Err(NotFound);
    }
    ghost var rec := Project(reg.tables, k);
    var expired := AutoExpire(reg, k, found.value, env);
    var c := Lookup(reg.tables, k).value;
    var code: nat := 0;
    if c.status != reg.cfg.consent.active {
      code := INVALID_STATUS;
    }
    if env.readFails {
      return Err(Internal);
    }
    var rec' := Project(reg.tables, k);
    assert ConsentGood(reg.cfg, reg.tables, k);
    var purposes := BuildPurposes(rec', reg.tables.catalog, k.org);
    var unapproved: seq<string> := [];
    if code == 0 {
      unapproved := FindUnapproved(rec', reg.tables.catalog, k.org, purposes);
      if |unapproved| > 0 {
        code := NOT_APPROVED;
      }
    }
    ExpiryIsVisible(reg.cfg, reg.tables.catalog, rec, env);
    var view := ReadConsent(reg, k);
    return Ok(Verdict(code == 0, code, unapproved, view));
  }

  lemma ExpiryIsVisible(cfg: Config, cat: Catalog, rec: Record, env: Env)
    requires WellFormed(cfg) && rec.consent.Some?
    ensures ExpiryDue(cfg, rec, env.now) ==>
      Expired(cfg, cat, rec, env).consent.Some? &&
        Expired(cfg, cat, rec, env).consent.value.status == cfg.consent.expired
  {
  }
}
