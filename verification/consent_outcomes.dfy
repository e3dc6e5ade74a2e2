/** What calls in a row lead to: an expired consent renewed, and a created consent validated. */
module ConsentOutcomes {
  import opened Wrappers
  import opened Config
  import opened Rows
  import opened Records
  import opened Tables
  import opened Transactions
  import opened Lifecycle
  import opened Invariants
  import opened RunnableSteps
  import opened Integrity
  import opened StoredFields
  import opened PurposeResolution
  import opened ConsentService
  import opened ConsentValidation

  // ---- Renewal ----

  /** Renewed: the requested expiration is stored and the consent is open again. */
  predicate Renewed(cfg: Config, c: Consent, expiration: Option<int>) {
    c.expiration == expiration && c.status != cfg.consent.expired
  }

  lemma RenewalOutcome(cfg: Config, cat: Catalog, k: Key, rec: Record, tx: Tx)
    requires WellFormed(cfg) && tx.Update? && Effect(cfg, cat, k, rec, tx).Ok?
    requires rec.consent.Some? && rec.consent.value.status == cfg.consent.expired
    requires tx.update.expiration.Some? && !IsConsentExpired(tx.update.expiration.value, tx.now)
    ensures var rec' := Effect(cfg, cat, k, rec, tx).value;
            && rec'.consent.Some? && Renewed(cfg, rec'.consent.value, tx.update.expiration)
            && !Overdue(rec'.consent.value, tx.now)
  {
    UpdateStoresRow(cfg, cat, k, rec, tx);
    UpdateStoresStatus(cfg, cat, k, rec, tx);
  }

  /** An expired consent updated with an expiration that has not passed keeps that expiration and is expired no
      more, whatever else the update does; with nothing else in the request it succeeds. */
  method Renew(reg: Registry, k: Key, group: string, input: UpdateInput, purposes: Option<seq<PurposeInput>>,
               valid: ValueCheck, env: Env)
    returns (r: Result<ConsentView, ServiceError>)
    requires Healthy(reg) && Project(reg.tables, k).consent.Some?
    requires Project(reg.tables, k).consent.value.status == reg.cfg.consent.expired
    requires input.expiration.Some? && (input.expiration.value == 0 || env.now <= input.expiration.value)
    modifies reg
    ensures Healthy(reg) && (r.Err? && reg.log == old(reg.log) ==> reg.tables == old(reg.tables))
    ensures reg.log != old(reg.log) ==>
      && Project(reg.tables, k).consent.Some?
      && Renewed(reg.cfg, Project(reg.tables, k).consent.value, input.expiration)
    ensures r.Ok? ==> Renewed(reg.cfg, r.value.consent, input.expiration)
    ensures
      && input.auths.None? && purposes.None? && group == old(Project(reg.tables, k).consent.value.group)
      && env.faults == NO_FAULTS && !env.lookupFails && !env.readFails
      ==> r.Ok?
  {
    ghost var rec := Project(reg.tables, k);
    ghost var links;
    r, links := UpdateConsent(reg, k, group, input, purposes, valid, env);
    if reg.log != old(reg.log) {
      RenewalOutcome(reg.cfg, reg.tables.catalog, k, rec, UpdateTx(group, input, links, env));
    }
  }

  // ---- Creation, then validation ----

  /** The last entry of a request for an element approves it. */
  ghost predicate Approves(elements: seq<ElementInput>, row: ElementVersion) {
    exists j :: LastFor(elements, row, j) && elements[j].approved
  }

  /** Every mandatory element of a version that a purpose of the request stands for is approved by it. */
  ghost predicate MandatoryAsked(cat: Catalog, group: string, org: string, purposes: seq<PurposeInput>) {
    forall i, v, ev :: 0 <= i < |purposes| && NeedsApproval(cat, group, org, purposes[i], v, ev) ==>
                         Approves(purposes[i].elements, cat.elements[ev])
  }

  ghost predicate NeedsApproval(cat: Catalog, group: string, org: string, pi: PurposeInput, v: Id, ev: Id) {
    Chosen(cat, group, org, pi, v) && (v, ev) in cat.mappings && cat.mappings[(v, ev)].mandatory && ev in cat.elements
  }

  /** One stored approval is what the last entry of its purpose says. */
  lemma StoredIsAsked(cat: Catalog, group: string, org: string, valid: ValueCheck, pi: PurposeInput,
                      link: ResolvedLink, j: nat)
    requires Resolves(cat, group, org, valid, pi, link) && j < |link.approvals|
    ensures link.approvals[j].0 in cat.elements
    ensures link.approvals[j].1.approved <==> Approves(pi.elements, cat.elements[link.approvals[j].0])
  {
    var row, a := cat.elements[link.approvals[j].0], link.approvals[j].1;
    assert ApprovalAsked(row, pi.elements, a);
    RequestedIsLast(pi.elements, row);
    if i :| LastFor(pi.elements, row, i) {
      forall n | LastFor(pi.elements, row, n)
        ensures n == i
      {
        LastIsOne(pi.elements, row, i, n);
      }
    } else {
      assert forall i :: 0 <= i < |pi.elements| ==> !IsFor(pi.elements[i], row);
    }
  }

  /** A created consent has an approved row for every mandatory element exactly when the request approves it. */
  lemma StoredApprovalsAreAsked(cat: Catalog, group: string, org: string, valid: ValueCheck,
                                purposes: seq<PurposeInput>, links: seq<ResolvedLink>, rec: Record)
    requires CatalogSound(cat) && AllResolve(cat, group, org, valid, purposes, links) && LinksStored(links, rec)
    ensures MandatoryApproved(rec, cat) <==> MandatoryAsked(cat, group, org, purposes)
  {
    if MandatoryApproved(rec, cat) {
      forall i, v, ev | 0 <= i < |purposes| && NeedsApproval(cat, group, org, purposes[i], v, ev)
        ensures Approves(purposes[i].elements, cat.elements[ev])
      {
        AskedFromStored(cat, group, org, valid, purposes, links, rec, i, v, ev);
      }
    }
    if MandatoryAsked(cat, group, org, purposes) {
      forall p: (Id, Id) | p.0 in rec.links && p in cat.mappings && cat.mappings[p].mandatory
        ensures p in rec.approvals && rec.approvals[p].approved
      {
        StoredFromAsked(cat, group, org, valid, purposes, links, rec, p);
      }
    }
  }

  lemma AskedFromStored(cat: Catalog, group: string, org: string, valid: ValueCheck, purposes: seq<PurposeInput>,
                        links: seq<ResolvedLink>, rec: Record, i: nat, v: Id, ev: Id)
    requires CatalogSound(cat) && AllResolve(cat, group, org, valid, purposes, links) && LinksStored(links, rec)
    requires MandatoryApproved(rec, cat)
    requires i < |purposes| && NeedsApproval(cat, group, org, purposes[i], v, ev)
    ensures Approves(purposes[i].elements, cat.elements[ev])
  {
    assert Resolves(cat, group, org, valid, purposes[i], links[i]);
    ChosenIsUnique(cat, group, org, purposes[i], v, links[i].purposeVersion);
    assert v in rec.links;
    assert HasApproval(links[i].approvals, ev);
    var j :| 0 <= j < |links[i].approvals| && links[i].approvals[j].0 == ev;
    var p := (links[i].purposeVersion, links[i].approvals[j].0);
    assert p == (v, ev) && p in rec.approvals && rec.approvals[p] == links[i].approvals[j].1;
    StoredIsAsked(cat, group, org, valid, purposes[i], links[i], j);
  }

  lemma StoredFromAsked(cat: Catalog, group: string, org: string, valid: ValueCheck, purposes: seq<PurposeInput>,
                        links: seq<ResolvedLink>, rec: Record, p: (Id, Id))
    requires CatalogSound(cat) && AllResolve(cat, group, org, valid, purposes, links) && LinksStored(links, rec)
    requires MandatoryAsked(cat, group, org, purposes)
    requires p.0 in rec.links && p in cat.mappings && cat.mappings[p].mandatory
    ensures p in rec.approvals && rec.approvals[p].approved
  {
    var i :| 0 <= i < |links| && links[i].purposeVersion == p.0;
    assert Resolves(cat, group, org, valid, purposes[i], links[i]);
    assert (links[i].purposeVersion, p.1) == p;
    assert HasApproval(links[i].approvals, p.1);
    var j :| 0 <= j < |links[i].approvals| && links[i].approvals[j].0 == p.1;
    StoredIsAsked(cat, group, org, valid, purposes[i], links[i], j);
    assert NeedsApproval(cat, group, org, purposes[i], p.0, p.1);
    assert (links[i].purposeVersion, links[i].approvals[j].0) == p;
  }

  /** Expiring leaves links and approvals alone. */
  lemma CreatedLinks(cfg: Config, cat: Catalog, k: Key, rec: Record, tx: Tx, rec': Record, n: nat, env: Env)
    requires WellFormed(cfg) && tx.Create? && ThenExpiry(cfg, cat, k, rec, tx, rec', n, env)
    ensures LinksStored(tx.newLinks, rec')
  {
    CreateStores(cfg, cat, k, rec, tx);
    var effect := Effect(cfg, cat, k, rec, tx).value;
    LinksStoredSame(tx.newLinks, effect, rec');
  }

  lemma LinksStoredSame(links: seq<ResolvedLink>, rec: Record, rec': Record)
    requires LinksStored(links, rec) && rec'.links == rec.links && rec'.approvals == rec.approvals
    ensures LinksStored(links, rec')
  {
  }

  /** A consent created and then validated is valid exactly when it was created active, the request approves
      every mandatory element of its purposes, and it is not overdue by then or its expiry runs into a store
      failure. */
  method CreateThenValidate(reg: Registry, k: Key, input: CreateInput, purposes: seq<PurposeInput>, valid: ValueCheck,
                            env: Env, later: Env)
    returns (created: Result<ConsentView, ServiceError>, r: Result<Verdict, ServiceError>)
    requires Healthy(reg)
    modifies reg
    ensures Healthy(reg)
    ensures created.Ok? && r.Ok? ==>
      (r.value.valid <==>
         && created.value.consent.status == reg.cfg.consent.active
         && (Overdue(created.value.consent, later.now) ==> Hits(later.expiryFaults, EXPIRE_STEPS))
         && MandatoryAsked(reg.tables.catalog, input.group, k.org, purposes))
    ensures created.Ok? && k.id != "" && !later.lookupFails && !later.readFails ==> r.Ok?
  {
    ghost var rec := Project(reg.tables, k);
    ghost var links;
    created, links := CreateConsent(reg, k, input, purposes, valid, env);
    if created.Ok? {
      ghost var stored, cat := Project(reg.tables, k), reg.tables.catalog;
      ghost var tx := Create(input, links, AuthIds(env, |input.auths|), env.auditId, env.now);
      CreatedLinks(reg.cfg, cat, k, rec, tx, stored, |reg.log| - |old(reg.log)|, env);
      StoredApprovalsAreAsked(cat, input.group, k.org, valid, purposes, links, stored);
    }
    r := ValidateConsent(reg, k, later);
  }

  // ---- Fresh identifiers ----

  /** Generated identifiers that differ and that no authorization has. */
  ghost predicate FreshAuthIds(t: Tables, env: Env, n: nat) {
    && (forall i, j :: 0 <= i < j < n ==> env.uuid(i) != env.uuid(j))
    && (forall i, j :: 0 <= i < n && 0 <= j < |t.auths| ==> t.auths[j].val.id != env.uuid(i))
  }

  lemma FreshIdsSuffice(cfg: Config, t: Tables, k: Key, inputs: seq<AuthInput>, env: Env)
    requires FreshAuthIds(t, env, |inputs|)
    ensures DistinctIds(AuthIds(env, |inputs|))
    ensures AuthsFree(t, k, BuildAuths(cfg, inputs, AuthIds(env, |inputs|), env.now))
  {
    var auths := BuildAuths(cfg, inputs, AuthIds(env, |inputs|), env.now);
    forall i | 0 <= i < |auths|
      ensures OwnedBy(t, k, auths[i].id)
    {
      assert auths[i].id == env.uuid(i);
    }
  }

  /** With fresh identifiers and no store failure, creating a consent succeeds exactly when its authorizations
      are accepted, its purposes resolve, and no two of them stand for the same version. */
  method CreateFresh(reg: Registry, k: Key, input: CreateInput, purposes: seq<PurposeInput>, valid: ValueCheck,
                     env: Env)
    returns (r: Result<ConsentView, ServiceError>)
    requires Healthy(reg) && k.id !in reg.tables.consents && FreshAuthIds(reg.tables, env, |input.auths|)
    requires env.faults == NO_FAULTS && !env.readFails
    modifies reg
    ensures Healthy(reg)
    ensures r.Ok? <==>
      && AuthsAccepted(reg.cfg, input.auths)
      && AllResolvable(old(reg.tables.catalog), input.group, k.org, valid, purposes)
      && !SameVersionChosen(old(reg.tables.catalog), input.group, k.org, purposes)
  {
    ghost var t := reg.tables;
    ghost var links;
    FreshIdsSuffice(reg.cfg, t, k, input.auths, env);
    r, links := CreateConsent(reg, k, input, purposes, valid, env);
    if AllResolvable(t.catalog, input.group, k.org, valid, purposes) && AuthsAccepted(reg.cfg, input.auths) {
      LinksDifferExactly(t.catalog, input.group, k.org, valid, purposes, links);
    }
  }

  /** Two purposes of a request that stand for one version. */
  ghost predicate SameVersionChosen(cat: Catalog, group: string, org: string, purposes: seq<PurposeInput>) {
    exists i, j, v :: 0 <= i < j < |purposes| && Chosen(cat, group, org, purposes[i], v) &&
                      Chosen(cat, group, org, purposes[j], v)
  }

  lemma LinksDifferExactly(cat: Catalog, group: string, org: string, valid: ValueCheck, purposes: seq<PurposeInput>,
                           links: seq<ResolvedLink>)
    requires CatalogSound(cat) && AllResolve(cat, group, org, valid, purposes, links)
    ensures DistinctLinks(links) <==> !SameVersionChosen(cat, group, org, purposes)
  {
    if SameVersionChosen(cat, group, org, purposes) {
      var i, j, v :| 0 <= i < j < |purposes| && Chosen(cat, group, org, purposes[i], v) &&
                     Chosen(cat, group, org, purposes[j], v);
      assert Resolves(cat, group, org, valid, purposes[i], links[i]);
      assert Resolves(cat, group, org, valid, purposes[j], links[j]);
      ChosenIsUnique(cat, group, org, purposes[i], v, links[i].purposeVersion);
      ChosenIsUnique(cat, group, org, purposes[j], v, links[j].purposeVersion);
    } else {
      forall i, j | 0 <= i < j < |links|
        ensures links[i].purposeVersion != links[j].purposeVersion
      {
        assert Resolves(cat, group, org, valid, purposes[i], links[i]);
        assert Resolves(cat, group, org, valid, purposes[j], links[j]);
      }
      forall i | 0 <= i < |links|
        ensures DistinctApprovals(links[i].approvals)
      {
        assert Resolves(cat, group, org, valid, purposes[i], links[i]);
      }
    }
  }
}
