/** The consent service: each call reads, builds its step list and runs it as one transaction, and
    expires a consent it finds overdue. */
module ConsentService {
  import opened Wrappers
  import opened Config
  import opened StatusDerivation
  import opened AuthRules
  import opened Rows
  import opened Records
  import opened Tables
  import opened Transactions
  import opened Lifecycle
  import opened Invariants
  import opened Refinement
  import opened StepLists
  import opened TableRuns
  import opened RunnableSteps
  import opened Integrity
  import opened ReadModel
  import opened PurposeResolution
  import opened CatalogRuns

  /** What a call takes from its surroundings: the clock, generated identifiers, and which of its
      store calls fail: in its own transaction, in the expiry that may follow, in the lookup before
      them or in the reads after them. */
  datatype Env = Env(
    now: int, uuid: nat -> Id, auditId: Id, historyId: Id, faults: Faults,
    expiryAuditId: Id, expiryHistoryId: Id, expiryFaults: Faults, lookupFails: bool, readFails: bool)

  /** How many closures the fixed step lists have. */
  const EXPIRE_STEPS: nat := 4
  const REVOKE_STEPS: nat := 4

  function AuthIds(env: Env, n: nat): seq<Id> {
    seq(n, i requires 0 <= i < n => env.uuid(i))
  }

  function ExpiryTx(env: Env): Tx {
    Expire(env.expiryAuditId, env.expiryHistoryId, env.now)
  }

  ghost predicate Healthy(reg: Registry)
    reads reg
  {
    Good(reg.cfg, reg.tables, reg.log)
  }

  /** A server starts with an empty, healthy database. */
  method Open(cfg: Config) returns (reg: Registry)
    requires WellFormed(cfg)
    ensures fresh(reg) && reg.cfg == cfg && reg.tables == EMPTY_TABLES && Healthy(reg)
  {
    reg := new Registry(cfg);
    EmptyIsGood(cfg);
  }

  ghost predicate Committed(log: seq<Commit>, log': seq<Commit>, n: nat) {
    |log'| == |log| + n && log <= log'
  }

  /** The record an expiry leads to when the consent is overdue and not yet expired. */
  predicate ExpiryDue(cfg: Config, rec: Record, now: int) {
    rec.consent.Some? && Overdue(rec.consent.value, now) && rec.consent.value.status != cfg.consent.expired
  }

  function Expired(cfg: Config, cat: Catalog, rec: Record, env: Env): Record
    requires rec.consent.Some?
  {
    ExpireEffect(cfg, cat, rec, ExpiryTx(env)).value
  }

  /** Runs a step list that implements `tx` on one consent: it lands as a whole or not at all, and
      without store failures and key clashes it answers as the transaction does. */
  method RunFor(reg: Registry, k: Key, ghost tx: Tx, steps: seq<Step>, faults: Faults) returns (r: Option<ServiceError>)
    requires Healthy(reg)
    requires HandlerAccepts(reg.cfg, tx) && Grounded(reg.tables.catalog, k, tx)
    requires Runnable(reg.tables, k, steps)
    requires Implements(reg.cfg, reg.tables.catalog, k, Project(reg.tables, k), steps, tx)
    modifies reg
    ensures Healthy(reg) && reg.tables.catalog == old(reg.tables.catalog) && SameExcept(old(reg.tables), reg.tables, k)
    ensures r.Some? ==> reg.tables == old(reg.tables) && reg.log == old(reg.log)
    ensures r.None? ==>
      && Effect(reg.cfg, reg.tables.catalog, k, old(Project(reg.tables, k)), tx) == Ok(Project(reg.tables, k))
      && Committed(old(reg.log), reg.log, 1)
    ensures r.None? ==>
      ConsentStep(reg.cfg, System(old(reg.tables), old(reg.log)), k, tx, System(reg.tables, reg.log))
    ensures Hits(faults, |steps|) ==> r.Some?
    ensures !Hits(faults, |steps|) && old(ClearToRun(reg.tables, k, steps)) ==>
      var effect := Effect(reg.cfg, reg.tables.catalog, k, old(Project(reg.tables, k)), tx);
      r == if effect.Ok? then None else Some(effect.error)
  {
    ghost var t, log := reg.tables, reg.log;
    FaultsDecide(reg.cfg, t, OnAll(k, steps), faults);
    ImplementedLands(reg.cfg, t, k, tx, steps, faults);
    var result := reg.ExecuteTransaction(OnAll(k, steps), faults);
    if result.Err? {
      SameExceptItself(t, k);
      return Some(result.error);
    }
    ghost var s := Transact(reg.cfg, t, OnAll(k, steps), faults).value;
    LandedKeepsGood(reg.cfg, t, log, k, tx, s);
    LandedIsStep(reg.cfg, System(t, log), k, tx, s);
    return None;
  }

  lemma SameExceptItself(t: Tables, k: Key)
    ensures SameExcept(t, t, k)
  {
    forall k' | k' != k
      ensures Untouched(t, t, k')
    {
    }
  }

  lemma ExpireImplemented(cfg: Config, cat: Catalog, k: Key, rec: Record, tx: Tx)
    requires tx.Expire?
    ensures Implements(cfg, cat, k, rec, ExpireSteps(cfg, tx), tx)
  {
    ExpireRefines(cfg, cat, rec, tx);
  }

  /** ExpireConsent: under the row lock, expire the consent unless it already is; all or nothing. */
  method ExpireConsent(reg: Registry, k: Key, auditId: Id, historyId: Id, now: int, faults: Faults)
    returns (r: Option<ServiceError>)
    requires Healthy(reg)
    modifies reg
    ensures Healthy(reg) && reg.tables.catalog == old(reg.tables.catalog) && SameExcept(old(reg.tables), reg.tables, k)
    ensures r.Some? ==> reg.tables == old(reg.tables) && reg.log == old(reg.log)
    ensures r.None? ==>
      && Effect(reg.cfg, reg.tables.catalog, k, old(Project(reg.tables, k)),
                Expire(auditId, historyId, now)) == Ok(Project(reg.tables, k))
      && Committed(old(reg.log), reg.log, 1)
    ensures r.None? ==>
      ConsentStep(reg.cfg, System(old(reg.tables), old(reg.log)), k, Expire(auditId, historyId, now),
                  System(reg.tables, reg.log))
    ensures old(Lookup(reg.tables, k)).Some? ==> (r.Some? <==> Hits(faults, EXPIRE_STEPS))
  {
    var tx := Expire(auditId, historyId, now);
    ExpireImplemented(reg.cfg, reg.tables.catalog, k, Project(reg.tables, k), tx);
    ExpireRunnable(reg.cfg, reg.tables, k, tx);
    r := RunFor(reg, k, tx, ExpireSteps(reg.cfg, tx), faults);
  }

  lemma ExpiryIs(cfg: Config, cat: Catalog, k: Key, rec: Record, env: Env)
    requires rec.consent.Some?
    ensures Effect(cfg, cat, k, rec, Expire(env.expiryAuditId, env.expiryHistoryId, env.now)) ==
            Ok(Expired(cfg, cat, rec, env))
    ensures Expired(cfg, cat, rec, env).consent.Some?
  {
  }

  /** The expiry block create, read, update and validate share. */
  method AutoExpire(reg: Registry, k: Key, c: Consent, env: Env) returns (expired: bool)
    requires Healthy(reg) && Lookup(reg.tables, k) == Some(c)
    modifies reg
    ensures Healthy(reg) && reg.tables.catalog == old(reg.tables.catalog) && SameExcept(old(reg.tables), reg.tables, k)
    ensures !expired ==> reg.tables == old(reg.tables) && reg.log == old(reg.log)
    ensures expired ==>
      && ExpiryDue(reg.cfg, old(Project(reg.tables, k)), env.now)
      && Project(reg.tables, k) == Expired(reg.cfg, reg.tables.catalog, old(Project(reg.tables, k)), env)
      && Committed(old(reg.log), reg.log, 1)
    ensures expired <==>
      ExpiryDue(reg.cfg, old(Project(reg.tables, k)), env.now) && !Hits(env.expiryFaults, EXPIRE_STEPS)
    ensures Project(reg.tables, k).consent.Some?
  {
    if c.expiration.Some? && IsConsentExpired(c.expiration.value, env.now) {
      if c.status != reg.cfg.consent.expired {
        ghost var rec := Project(reg.tables, k);
        var error := ExpireConsent(reg, k, env.expiryAuditId, env.expiryHistoryId, env.now, env.expiryFaults);
        ExpiryIs(reg.cfg, reg.tables.catalog, k, rec, env);
        return error.None?;
      }
    }
    SameExceptItself(reg.tables, k);
    return false;
  }

  /** The authorization part of request validation. */
  method ValidateAuthorizations(cfg: Config, inputs: seq<AuthInput>) returns (ok: bool)
    requires WellFormed(cfg)
    ensures ok == AuthsAccepted(cfg, inputs)
  {
    for i := 0 to |inputs|
      invariant forall j :: 0 <= j < i ==> inputs[j].status == "" || !IsSystemStatus(cfg, inputs[j].status)
    {
      if inputs[i].status != "" && IsSystemStatus(cfg, inputs[i].status) {
        return false;
      }
    }
    var violation := ValidateAuthTypeConstraints(cfg, TypedInputs(inputs));
    return violation.None?;
  }

  method CollectStatuses(inputs: seq<AuthInput>) returns (statuses: seq<string>)
    ensures statuses == InputStatuses(inputs)
  {
    statuses := [];
    for i := 0 to |inputs|
      invariant statuses == InputStatuses(inputs)[..i]
    {
      statuses := statuses + [inputs[i].status];
    }
  }

  /** Appends one insert per authorization. */
  method BuildAuthInserts(cfg: Config, inputs: seq<AuthInput>, ids: seq<Id>, now: int) returns (steps: seq<Step>)
    requires |ids| == |inputs|
    ensures steps == InsertAuthSteps(BuildAuths(cfg, inputs, ids, now))
  {
    steps := [];
    for i := 0 to |inputs|
      invariant steps == InsertAuthSteps(BuildAuths(cfg, inputs, ids, now))[..i]
    {
      steps := steps + [Statement(InsertAuth(BuildAuth(cfg, inputs[i], ids[i], now)))];
    }
  }

  lemma {:induction false} LinkStepsAppend(links: seq<ResolvedLink>, link: ResolvedLink)
    ensures LinkSteps(links + [link]) == LinkSteps(links) + ([Statement(InsertLink(link.purposeVersion))] +
                                         InsertApprovalSteps(link.purposeVersion, link.approvals))
    decreases |links|
  {
    if links == [] {
      assert (links + [link])[1..] == [];
    } else {
      assert (links + [link])[1..] == links[1..] + [link];
      LinkStepsAppend(links[1..], link);
    }
  }

  /** Appends one link and its approvals per resolved purpose. */
  method BuildLinkInserts(links: seq<ResolvedLink>) returns (steps: seq<Step>)
    ensures steps == LinkSteps(links)
  {
    steps := [];
    for i := 0 to |links|
      invariant steps == LinkSteps(links[..i])
    {
      var link := links[i];
      assert links[..i + 1] == links[..i] + [link];
      LinkStepsAppend(links[..i], link);
      var inserts := [Statement(InsertLink(link.purposeVersion))];
      for j := 0 to |link.approvals|
        invariant inserts == [Statement(InsertLink(link.purposeVersion))] +
                             InsertApprovalSteps(link.purposeVersion, link.approvals)[..j]
      {
        inserts := inserts + [Statement(InsertApproval(link.purposeVersion, link.approvals[j].0, link.approvals[j].1))];
      }
      steps := steps + inserts;
    }
    assert links[..|links|] == links;
  }

  /** Reads the rows of a consent and assembles the answer of a call. */
  method ReadConsent(reg: Registry, k: Key) returns (view: ConsentView)
    requires Healthy(reg) && Project(reg.tables, k).consent.Some?
    ensures view == View(Project(reg.tables, k), reg.tables.catalog) && Shows(reg.tables, k, view)
  {
    ViewShows(reg.cfg, reg.tables, reg.log, k);
    view := View(Project(reg.tables, k), reg.tables.catalog);
  }

  // ---- CreateConsent ----

  lemma CreateImplemented(cfg: Config, cat: Catalog, k: Key, rec: Record, tx: Tx)
    requires tx.Create? && |tx.authIds| == |tx.create.auths| && Orphanless(rec)
    ensures Implements(cfg, cat, k, rec, CreateSteps(cfg, k, tx), tx)
  {
    CreateRefines(cfg, cat, k, rec, tx);
  }

  /** One transaction on a consent, followed by an expiry if the outcome is overdue: what `n` commits
      made of the record. */
  ghost predicate ThenExpiry(cfg: Config, cat: Catalog, k: Key, rec: Record, tx: Tx, rec': Record, n: nat, env: Env) {
    var effect := Effect(cfg, cat, k, rec, tx);
    effect.Ok? && effect.value.consent.Some? &&
    if ExpiryDue(cfg, effect.value, env.now) && !Hits(env.expiryFaults, EXPIRE_STEPS)
    then n == 2 && rec' == Expired(cfg, cat, effect.value, env)
    else n == 1 && rec' == effect.value
  }

  /** The transaction of a create or update call and the expiry that may follow it. */
  method RunThenExpire(reg: Registry, k: Key, ghost tx: Tx, steps: seq<Step>, env: Env)
    returns (r: Option<ServiceError>)
    requires Healthy(reg)
    requires HandlerAccepts(reg.cfg, tx) && Grounded(reg.tables.catalog, k, tx)
    requires Runnable(reg.tables, k, steps)
    requires Implements(reg.cfg, reg.tables.catalog, k, Project(reg.tables, k), steps, tx)
    modifies reg
    ensures Healthy(reg) && reg.tables.catalog == old(reg.tables.catalog) && SameExcept(old(reg.tables), reg.tables, k)
    ensures r.Some? ==> reg.tables == old(reg.tables) && reg.log == old(reg.log)
    ensures r.None? ==>
      && Project(reg.tables, k).consent.Some?
      && |old(reg.log)| < |reg.log| && old(reg.log) <= reg.log
      && ThenExpiry(reg.cfg, reg.tables.catalog, k, old(Project(reg.tables, k)), tx, Project(reg.tables, k),
                    |reg.log| - |old(reg.log)|, env)
    ensures Hits(env.faults, |steps|) ==> r.Some?
    ensures !Hits(env.faults, |steps|) && old(ClearToRun(reg.tables, k, steps)) ==>
      var effect := Effect(reg.cfg, reg.tables.catalog, k, old(Project(reg.tables, k)), tx);
      r == if effect.Ok? then None else Some(effect.error)
  {
    ghost var t, rec := reg.tables, Project(reg.tables, k);
    r := RunFor(reg, k, tx, steps, env.faults);
    if r.None? {
      ghost var t1, rec1 := reg.tables, Project(reg.tables, k);
      EffectHasConsent(reg.cfg, t.catalog, k, rec, tx);
      var expired := AutoExpire(reg, k, Lookup(reg.tables, k).value, env);
      SameExceptTransitive(t, t1, reg.tables, k);
    }
  }

  lemma EffectHasConsent(cfg: Config, cat: Catalog, k: Key, rec: Record, tx: Tx)
    requires Effect(cfg, cat, k, rec, tx).Ok?
    ensures Effect(cfg, cat, k, rec, tx).value.consent.Some?
  {
  }

  method PrepareCreate(cfg: Config, k: Key, input: CreateInput, links: seq<ResolvedLink>, env: Env)
    returns (steps: seq<Step>)
    requires WellFormed(cfg)
    ensures steps == CreateSteps(cfg, k, Create(input, links, AuthIds(env, |input.auths|), env.auditId, env.now))
  {
    var statuses := CollectStatuses(input.auths);
    var status := Evaluate(cfg, statuses);
    var c := Consent(k.id, k.org, input.group, input.consentType, status, input.frequency, input.expiration,
                     input.recurring, input.validity, env.now, env.now);
    var attributes := if |input.attributes| > 0 then [Statement(InsertAttributes(input.attributes))] else [];
    var audit := [Statement(InsertAudit(Audit(env.auditId, status, None, env.now, CREATED_AUDIT, Some(input.group))))];
    var auths := BuildAuthInserts(cfg, input.auths, AuthIds(env, |input.auths|), env.now);
    var linked := BuildLinkInserts(links);
    steps := [Statement(InsertConsent(c))] + (attributes + (audit + (auths + linked)));
  }

  ghost predicate AllResolvable(cat: Catalog, group: string, org: string, valid: ValueCheck,
                                purposes: seq<PurposeInput>) {
    forall i :: 0 <= i < |purposes| ==> Resolvable(cat, group, org, valid, purposes[i])
  }

  /** CreateConsent with the request validation in front of it. Nothing is stored unless everything
      is; what is stored is the create effect, expired at once when the consent is created overdue. */
  method CreateConsent(reg: Registry, k: Key, input: CreateInput, purposes: seq<PurposeInput>, valid: ValueCheck,
                       env: Env)
    returns (r: Result<ConsentView, ServiceError>, ghost links: seq<ResolvedLink>)
    requires Healthy(reg)
    modifies reg
    ensures Healthy(reg) && reg.tables.catalog == old(reg.tables.catalog) && SameExcept(old(reg.tables), reg.tables, k)
    ensures (|| !AuthsAccepted(reg.cfg, input.auths)
             || !AllResolvable(reg.tables.catalog, input.group, k.org, valid, purposes)) ==>
      r == Err(ValidationFailed) && reg.log == old(reg.log)
    ensures (&& AuthsAccepted(reg.cfg, input.auths)
             && AllResolvable(reg.tables.catalog, input.group, k.org, valid, purposes)) ==>
      AllResolve(reg.tables.catalog, input.group, k.org, valid, purposes, links)
    ensures reg.log == old(reg.log) ==> reg.tables == old(reg.tables) && r.Err?
    ensures reg.log != old(reg.log) ==>
      && AllResolve(reg.tables.catalog, input.group, k.org, valid, purposes, links)
      && old(reg.log) <= reg.log
      && ThenExpiry(reg.cfg, reg.tables.catalog, k, old(Project(reg.tables, k)),
                    Create(input, links, AuthIds(env, |input.auths|), env.auditId, env.now),
                    Project(reg.tables, k), |reg.log| - |old(reg.log)|, env)
    ensures r.Ok? ==>
      Project(reg.tables, k).consent.Some? && r.value == View(Project(reg.tables, k), reg.tables.catalog)
    ensures r.Ok? ==> Shows(reg.tables, k, r.value)
    ensures
      && AuthsAccepted(reg.cfg, input.auths) && AllResolvable(reg.tables.catalog, input.group, k.org, valid, purposes)
      && env.faults == NO_FAULTS && !env.readFails
      && old(AtHome(reg.tables, k) && AuthsFree(reg.tables, k,
                                                BuildAuths(reg.cfg, input.auths, AuthIds(env, |input.auths|), env.now)))
      && Effect(reg.cfg, reg.tables.catalog, k, old(Project(reg.tables, k)),
                Create(input, links, AuthIds(env, |input.auths|), env.auditId, env.now)).Ok?
      ==> r.Ok?
  {
    links := [];
    var ok := ValidateAuthorizations(reg.cfg, input.auths);
    if !ok {
      SameExceptItself(reg.tables, k);
      return Err(ValidationFailed), links;
    }
    var resolved := ResolvePurposes(reg.tables.catalog, input.group, k.org, purposes, valid);
    if resolved.None? {
      SameExceptItself(reg.tables, k);
      return Err(ValidationFailed), links;
    }
    links := resolved.value;
    var steps := PrepareCreate(reg.cfg, k, input, resolved.value, env);
    ghost var tx := Create(input, links, AuthIds(env, |input.auths|), env.auditId, env.now);
    assert ConsentGood(reg.cfg, reg.tables, k);
    CreateImplemented(reg.cfg, reg.tables.catalog, k, Project(reg.tables, k), tx);
    CreateRunnable(reg.cfg, reg.tables, k, tx);
    var error := RunThenExpire(reg, k, tx, steps, env);
    if error.Some? || env.readFails {
      return Err(Internal), links;
    }
    var view := ReadConsent(reg, k);
    return Ok(view), links;
  }

  lemma SameExceptTransitive(t: Tables, t1: Tables, t2: Tables, k: Key)
    requires SameExcept(t, t1, k) && SameExcept(t1, t2, k)
    ensures SameExcept(t, t2, k)
  {
    forall k' | k' != k
      ensures Untouched(t, t2, k')
    {
      assert Untouched(t, t1, k') && Untouched(t1, t2, k');
    }
  }

  // ---- GetConsent ----

  /** GetConsent: the current state, after expiring the consent if it is overdue. */
  method GetConsent(reg: Registry, k: Key, env: Env) returns (r: Result<ConsentView, ServiceError>)
    requires Healthy(reg)
    modifies reg
    ensures Healthy(reg) && reg.tables.catalog == old(reg.tables.catalog) && SameExcept(old(reg.tables), reg.tables, k)
    ensures r.Ok? ==>
      Project(reg.tables, k).consent.Some? && r.value == View(Project(reg.tables, k), reg.tables.catalog)
    ensures r.Ok? ==> Shows(reg.tables, k, r.value)
    ensures Project(reg.tables, k) ==
            if && !env.lookupFails && ExpiryDue(reg.cfg, old(Project(reg.tables, k)), env.now)
               && !Hits(env.expiryFaults, EXPIRE_STEPS)
            then Expired(reg.cfg, reg.tables.catalog, old(Project(reg.tables, k)), env)
            else old(Project(reg.tables, k))
    ensures !env.lookupFails && old(Lookup(reg.tables, k)).None? ==> r == Err(NotFound)
    ensures !env.lookupFails && !env.readFails && old(Lookup(reg.tables, k)).Some? ==> r.Ok?
  {
    SameExceptItself(reg.tables, k);
    if env.lookupFails {
      return Err(Internal);
    }
    var found := Lookup(reg.tables, k);
    if found.None? {
      return Err(NotFound);
    }
    var expired := AutoExpire(reg, k, found.value, env);
    if env.readFails {
      return Err(Internal);
    }
    var view := ReadConsent(reg, k);
    return Ok(view);
  }

  // ---- UpdateConsent ----

  function UpdateTx(group: string, input: UpdateInput, links: Option<seq<ResolvedLink>>, env: Env): Tx {
    var ids := if input.auths.Some? then AuthIds(env, |input.auths.value|) else [];
    Update(group, input, links, ids, env.auditId, env.historyId, env.now)
  }

  lemma UpdateImplemented(cfg: Config, cat: Catalog, k: Key, rec: Record, tx: Tx)
    requires tx.Update? && rec.consent.Some? && rec.consent.value.group == tx.group
    requires tx.update.auths.Some? ==> |tx.authIds| == |tx.update.auths.value|
    ensures Implements(cfg, cat, k, rec, UpdateSteps(cfg, rec, tx), tx)
  {
    UpdateRefines(cfg, cat, rec, tx);
  }

  /** The status decision of an update, read off the stored authorizations when an expired consent is
      renewed without replacing them. */
  method DecideStatus(cfg: Config, rec: Record, input: UpdateInput, now: int) returns (status: string)
    requires WellFormed(cfg) && rec.consent.Some?
    ensures status == UpdatedStatus(cfg, rec, input, now)
  {
    var c := rec.consent.value;
    var expiration := c.expiration;
    if input.expiration.Some? {
      expiration := input.expiration;
    }
    if input.auths.Some? {
      var statuses := CollectStatuses(input.auths.value);
      status := Evaluate(cfg, statuses);
    } else if c.status == cfg.consent.expired && (expiration.None? || !IsConsentExpired(expiration.value, now)) {
      status := Evaluate(cfg, Statuses(rec.auths));
    } else {
      status := c.status;
    }
  }

  method PrepareAttributes(attributes: Option<map<string, string>>) returns (steps: seq<Step>)
    ensures steps == ReplaceAttributes(attributes)
  {
    steps := [];
    if attributes.Some? {
      steps := [Statement(DeleteAttributes)];
      if |attributes.value| > 0 {
        steps := steps + [Statement(InsertAttributes(attributes.value))];
      }
    }
  }

  method PrepareAuths(cfg: Config, inputs: Option<seq<AuthInput>>, env: Env) returns (steps: seq<Step>)
    ensures steps == ReplaceAuths(
      if inputs.None? then None else Some(BuildAuths(cfg, inputs.value, AuthIds(env, |inputs.value|), env.now)))
  {
    steps := [];
    if inputs.Some? {
      var inserts := BuildAuthInserts(cfg, inputs.value, AuthIds(env, |inputs.value|), env.now);
      steps := [Statement(DeleteAuths)] + inserts;
    }
  }

  method PrepareLinks(links: Option<seq<ResolvedLink>>) returns (steps: seq<Step>)
    ensures steps == ReplaceLinks(links)
  {
    steps := [];
    if links.Some? {
      var inserts := BuildLinkInserts(links.value);
      steps := [Statement(DeleteLinks), Statement(DeleteApprovals)] + inserts;
    }
  }

  method PrepareUpdate(cfg: Config, rec: Record, group: string, input: UpdateInput, links: Option<seq<ResolvedLink>>,
                       env: Env)
    returns (steps: seq<Step>)
    requires WellFormed(cfg) && rec.consent.Some?
    ensures steps == UpdateSteps(cfg, rec, UpdateTx(group, input, links, env))
  {
    var c := rec.consent.value;
    var status := DecideStatus(cfg, rec, input, env.now);
    var change: seq<Step> := [];
    if status != c.status {
      change := [Statement(SetStatus(status, env.now)),
                 Statement(InsertAudit(Audit(env.auditId, status, Some(c.status), env.now, UPDATED_AUDIT,
                                             Some(c.group))))];
    }
    var attributes := PrepareAttributes(input.attributes);
    var auths := PrepareAuths(cfg, input.auths, env);
    var linked := PrepareLinks(links);
    steps := [RecordHistory(env.historyId, env.now, Some(group), UPDATED_HISTORY)] +
             ([Statement(UpdateFields(MergedConsent(c, input, env.now)))] + (change + (attributes + (auths + linked))));
  }

  ghost predicate UpdateAccepted(cfg: Config, cat: Catalog, k: Key, rec: Record, group: string, input: UpdateInput,
                                 purposes: Option<seq<PurposeInput>>, valid: ValueCheck) {
    && (input.auths.Some? ==> AuthsAccepted(cfg, input.auths.value))
    && rec.consent.Some? && rec.consent.value.group == group
    && (purposes.Some? ==> AllResolvable(cat, rec.consent.value.group, k.org, valid, purposes.value))
  }

  /** Everything an update checks and resolves before its transaction. */
  method CheckUpdate(cfg: Config, t: Tables, k: Key, group: string, input: UpdateInput,
                     purposes: Option<seq<PurposeInput>>,
                     valid: ValueCheck, lookupFails: bool)
    returns (r: Result<Option<seq<ResolvedLink>>, ServiceError>)
    requires WellFormed(cfg) && CatalogSound(t.catalog)
    ensures r.Ok? <==> !lookupFails && UpdateAccepted(cfg, t.catalog, k, Project(t, k), group, input, purposes, valid)
    ensures r.Ok? ==> (r.value.Some? <==> purposes.Some?)
    ensures r.Ok? && purposes.Some? ==>
      AllResolve(t.catalog, group, k.org, valid, purposes.value, r.value.value) &&
        LinksGrounded(t.catalog, k.org, r.value.value)
    ensures r.Err? ==>
      r.error == if input.auths.Some? && !AuthsAccepted(cfg, input.auths.value) then ValidationFailed
                 else if lookupFails then Internal
                 else if Lookup(t, k).None? then NotFound
                 else ValidationFailed
  {
    if input.auths.Some? {
      var ok := ValidateAuthorizations(cfg, input.auths.value);
      if !ok {
        return Err(ValidationFailed);
      }
    }
    if lookupFails {
      return Err(Internal);
    }
    var found := Lookup(t, k);
    if found.None? {
      return Err(NotFound);
    }
    if found.value.group != group {
      return Err(ValidationFailed);
    }
    if purposes.None? {
      return Ok(None);
    }
    var resolved := ResolvePurposes(t.catalog, found.value.group, k.org, purposes.value, valid);
    if resolved.None? {
      return Err(ValidationFailed);
    }
    return Ok(resolved);
  }

  /** The transaction of an update that passed its checks. */
  method RunUpdate(reg: Registry, k: Key, group: string, input: UpdateInput, links: Option<seq<ResolvedLink>>, env: Env)
    returns (r: Option<ServiceError>)
    requires Healthy(reg) && (input.auths.Some? ==> AuthsAccepted(reg.cfg, input.auths.value))
    requires Project(reg.tables, k).consent.Some? && Project(reg.tables, k).consent.value.group == group
    requires links.Some? ==> LinksGrounded(reg.tables.catalog, k.org, links.value)
    modifies reg
    ensures Healthy(reg) && reg.tables.catalog == old(reg.tables.catalog) && SameExcept(old(reg.tables), reg.tables, k)
    ensures r.Some? ==> reg.tables == old(reg.tables) && reg.log == old(reg.log)
    ensures r.None? ==>
      && Project(reg.tables, k).consent.Some?
      && |old(reg.log)| < |reg.log| && old(reg.log) <= reg.log
      && ThenExpiry(reg.cfg, reg.tables.catalog, k, old(Project(reg.tables, k)), UpdateTx(group, input, links, env),
                    Project(reg.tables, k), |reg.log| - |old(reg.log)|, env)
    ensures
      && env.faults == NO_FAULTS
      && (input.auths.Some? ==>
            old(AuthsFree(reg.tables, k, BuildAuths(reg.cfg, input.auths.value, AuthIds(env, |input.auths.value|),
                                                    env.now))))
      && Effect(reg.cfg, reg.tables.catalog, k, old(Project(reg.tables, k)), UpdateTx(group, input, links, env)).Ok?
      ==> r.None?
  {
    var steps := PrepareUpdate(reg.cfg, Project(reg.tables, k), group, input, links, env);
    ghost var tx := UpdateTx(group, input, links, env);
    UpdateImplemented(reg.cfg, reg.tables.catalog, k, Project(reg.tables, k), tx);
    UpdateRunnable(reg.cfg, reg.tables, k, Project(reg.tables, k), tx);
    r := RunThenExpire(reg, k, tx, steps, env);
  }

  /** UpdateConsent with the request validation in front of it. */
  method UpdateConsent(reg: Registry, k: Key, group: string, input: UpdateInput, purposes: Option<seq<PurposeInput>>,
                       valid: ValueCheck, env: Env)
    returns (r: Result<ConsentView, ServiceError>, ghost links: Option<seq<ResolvedLink>>)
    requires Healthy(reg)
    modifies reg
    ensures Healthy(reg) && reg.tables.catalog == old(reg.tables.catalog) && SameExcept(old(reg.tables), reg.tables, k)
    ensures reg.log == old(reg.log) ==> reg.tables == old(reg.tables) && r.Err?
    ensures !UpdateAccepted(reg.cfg, reg.tables.catalog, k, old(Project(reg.tables, k)), group, input, purposes, valid)
      ==>
      r.Err? && reg.log == old(reg.log)
    ensures
      && UpdateAccepted(reg.cfg, reg.tables.catalog, k, old(Project(reg.tables, k)), group, input, purposes, valid)
      && !env.lookupFails ==>
      && (links.Some? <==> purposes.Some?)
      && (purposes.Some? ==> AllResolve(reg.tables.catalog, group, k.org, valid, purposes.value, links.value))
    ensures reg.log != old(reg.log) ==>
      && (links.Some? <==> purposes.Some?)
      && (purposes.Some? ==> AllResolve(reg.tables.catalog, group, k.org, valid, purposes.value, links.value))
      && old(reg.log) <= reg.log
      && ThenExpiry(reg.cfg, reg.tables.catalog, k, old(Project(reg.tables, k)), UpdateTx(group, input, links, env),
                    Project(reg.tables, k), |reg.log| - |old(reg.log)|, env)
    ensures r.Ok? ==>
      Project(reg.tables, k).consent.Some? && r.value == View(Project(reg.tables, k), reg.tables.catalog)
    ensures r.Ok? ==> Shows(reg.tables, k, r.value)
    ensures
      && UpdateAccepted(reg.cfg, reg.tables.catalog, k, old(Project(reg.tables, k)), group, input, purposes, valid)
      && env.faults == NO_FAULTS && !env.lookupFails && !env.readFails
      && (input.auths.Some? ==>
            old(AuthsFree(reg.tables, k, BuildAuths(reg.cfg, input.auths.value, AuthIds(env, |input.auths.value|),
                                                    env.now))))
      && Effect(reg.cfg, reg.tables.catalog, k, old(Project(reg.tables, k)), UpdateTx(group, input, links, env)).Ok?
      ==> r.Ok?
  {
    links := None;
    SameExceptItself(reg.tables, k);
    var checked := CheckUpdate(reg.cfg, reg.tables, k, group, input, purposes, valid, env.lookupFails);
    if checked.Err? {
      return Err(checked.error), links;
    }
    links := checked.value;
    var error := RunUpdate(reg, k, group, input, checked.value, env);
    if error.Some? || env.readFails {
      return Err(Internal), links;
    }
    var view := ReadConsent(reg, k);
    return Ok(view), links;
  }

  // ---- RevokeConsent ----

  lemma RevokeImplemented(cfg: Config, cat: Catalog, k: Key, rec: Record, tx: Tx)
    requires tx.Revoke? && tx.actor != "" && rec.consent.Some? && rec.consent.value.status != cfg.consent.revoked
    ensures Implements(cfg, cat, k, rec, RevokeSteps(cfg, rec.consent.value, tx), tx)
  {
    RevokeRefines(cfg, cat, rec, tx);
  }

  /** RevokeConsent answers, and without store failures acts, exactly as the revoke effect. */
  method RevokeConsent(reg: Registry, k: Key, actor: string, reason: string, env: Env) returns (r: Option<ServiceError>)
    requires Healthy(reg)
    modifies reg
    ensures Healthy(reg) && reg.tables.catalog == old(reg.tables.catalog) && SameExcept(old(reg.tables), reg.tables, k)
    ensures r.Some? ==> reg.tables == old(reg.tables) && reg.log == old(reg.log)
    ensures r.None? ==>
      && Effect(reg.cfg, reg.tables.catalog, k, old(Project(reg.tables, k)),
                Revoke(actor, reason, env.auditId, env.historyId, env.now)) == Ok(Project(reg.tables, k))
      && Committed(old(reg.log), reg.log, 1)
    ensures r.None? ==>
      ConsentStep(reg.cfg, System(old(reg.tables), old(reg.log)), k,
                  Revoke(actor, reason, env.auditId, env.historyId, env.now), System(reg.tables, reg.log))
    ensures Hits(env.faults, REVOKE_STEPS) ==> r.Some?
    ensures !Hits(env.faults, REVOKE_STEPS) && !env.lookupFails ==>
      var effect := Effect(reg.cfg, reg.tables.catalog, k, old(Project(reg.tables, k)),
                           Revoke(actor, reason, env.auditId, env.historyId, env.now));
      r == if effect.Ok? then None else Some(effect.error)
  {
    SameExceptItself(reg.tables, k);
    if actor == "" {
      return Some(ValidationFailed);
    }
    if env.lookupFails {
      return Some(Internal);
    }
    var found := Lookup(reg.tables, k);
    if found.None? {
      return Some(NotFound);
    }
    if found.value.status == reg.cfg.consent.revoked {
      return Some(AlreadyRevoked);
    }
    var tx := Revoke(actor, reason, env.auditId, env.historyId, env.now);
    RevokeImplemented(reg.cfg, reg.tables.catalog, k, Project(reg.tables, k), tx);
    RevokeRunnable(reg.cfg, reg.tables, k, found.value, tx);
    r := RunFor(reg, k, tx, RevokeSteps(reg.cfg, found.value, tx), env.faults);
  }
}
