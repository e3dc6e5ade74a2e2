/** The authorization service: adding and changing one authorization of a consent. */
module AuthService {
  import opened Wrappers
  import opened Config
  import opened AuthRules
  import opened Rows
  import opened Records
  import opened Tables
  import opened Transactions
  import opened Lifecycle
  import opened Invariants
  import opened StepLists
  import opened TableRuns
  import opened RunnableSteps
  import opened Integrity
  import opened StoredFields
  import opened ConsentService

  /** How many closures an authorization write has. */
  const AUTH_STEPS: nat := 4

  lemma AddImplemented(cfg: Config, cat: Catalog, k: Key, rec: Record, tx: Tx)
    requires tx.AddAuth? && !IsSystemStatus(cfg, BuildAuth(cfg, tx.add, tx.authId, tx.now).status)
    ensures Implements(cfg, cat, k, rec, AddAuthSteps(cfg, tx), tx)
  {
    AddAuthRefines(cfg, cat, rec, tx);
  }

  lemma AddAuthOutcome(cfg: Config, cat: Catalog, k: Key, rec: Record, tx: Tx)
    requires tx.AddAuth?
    ensures var auth := BuildAuth(cfg, tx.add, tx.authId, tx.now);
            && (IsSystemStatus(cfg, auth.status) ==> Effect(cfg, cat, k, rec, tx) == Err(ValidationFailed))
            && (Effect(cfg, cat, k, rec, tx).Ok? ==> Effect(cfg, cat, k, rec, tx).value.auths == rec.auths + [auth])
            && |AddAuthSteps(cfg, tx)| == AUTH_STEPS
  {
  }

  /** CreateAuthResource: under the row lock, check the set the new authorization would complete, add
      it and move the consent to the status the set derives. */
  method CreateAuthResource(reg: Registry, k: Key, authId: Id, input: AuthInput, env: Env)
    returns (r: Result<Auth, ServiceError>)
    requires Healthy(reg)
    modifies reg
    ensures Healthy(reg) && reg.tables.catalog == old(reg.tables.catalog) && SameExcept(old(reg.tables), reg.tables, k)
    ensures r.Err? ==> reg.tables == old(reg.tables) && reg.log == old(reg.log)
    ensures r.Ok? ==>
      && Effect(reg.cfg, reg.tables.catalog, k, old(Project(reg.tables, k)),
                AddAuth(authId, input, env.auditId, env.historyId, env.now)) == Ok(Project(reg.tables, k))
      && Committed(old(reg.log), reg.log, 1)
      && Project(reg.tables, k).auths == old(Project(reg.tables, k)).auths + [r.value]
      && NewAuthRow(reg.cfg, input, authId, env.now, r.value)
    ensures Hits(env.faults, AUTH_STEPS) ==> r.Err?
    ensures !Hits(env.faults, AUTH_STEPS) && old(OwnedBy(reg.tables, k, authId)) ==>
      var effect := Effect(reg.cfg, reg.tables.catalog, k, old(Project(reg.tables, k)),
                           AddAuth(authId, input, env.auditId, env.historyId, env.now));
      if effect.Ok? then r.Ok? else r == Err(effect.error)
  {
    var auth := BuildAuth(reg.cfg, input, authId, env.now);
    BuiltRow(reg.cfg, input, authId, env.now);
    var tx := AddAuth(authId, input, env.auditId, env.historyId, env.now);
    AddAuthOutcome(reg.cfg, reg.tables.catalog, k, Project(reg.tables, k), tx);
    if IsSystemStatus(reg.cfg, auth.status) {
      SameExceptItself(reg.tables, k);
      return Err(ValidationFailed);
    }
    AddImplemented(reg.cfg, reg.tables.catalog, k, Project(reg.tables, k), tx);
    AddAuthRunnable(reg.cfg, reg.tables, k, tx);
    var error := RunFor(reg, k, tx, AddAuthSteps(reg.cfg, tx), env.faults);
    if error.Some? {
      return Err(error.value);
    }
    return Ok(auth);
  }

  /** SELECT ... WHERE AUTH_ID = ? AND ORG_ID = ? */
  function AuthById(rows: seq<Row<Auth>>, id: Id, org: string): Option<Row<Auth>> {
    if rows == [] then None
    else if rows[0].val.id == id && rows[0].key.org == org then Some(rows[0])
    else AuthById(rows[1..], id, org)
  }

  /** Looking an authorization up by identifier and then checking whose it is finds exactly the
      authorization of that consent. */
  lemma {:induction false} AuthByIdFinds(rows: seq<Row<Auth>>, k: Key, id: Id)
    requires UniqueRows(rows)
    ensures var row := AuthById(rows, id, k.org);
            FindAuth(Select(rows, k), id) == if row.Some? && row.value.key.id == k.id then Some(row.value.val) else None
  {
    if rows != [] {
      var rest := rows[1..];
      AuthByIdFinds(rest, k, id);
      FoundAuth(Select(rest, k), id);
      if rows[0].key == k {
        assert Select(rows, k)[1..] == Select(rest, k);
      } else {
        assert Select(rows, k) == Select(rest, k);
        if rows[0].val.id == id && FindAuth(Select(rest, k), id).Some? {
          SelectContents(rest, k, FindAuth(Select(rest, k), id).value);
        }
      }
    }
  }

  lemma ChangeImplemented(cfg: Config, cat: Catalog, k: Key, rec: Record, tx: Tx)
    requires tx.ChangeAuth? && FindAuth(rec.auths, tx.authId).Some?
    requires tx.change.status == "" || !IsSystemStatus(cfg, tx.change.status)
    ensures Implements(cfg, cat, k, rec, ChangeAuthSteps(FindAuth(rec.auths, tx.authId).value, tx), tx)
  {
    ChangeAuthRefines(cfg, cat, rec, tx);
  }

  /** An answered update, in terms of the request: the answer is the authorization as asked for, the stored one
      is that but for its type, every other is as it was, and the consent has the status they stand for. */
  ghost predicate UpdatedAsAsked(cfg: Config, rec: Record, rec': Record, authId: Id, input: AuthInput, now: int,
                                 answer: Auth) {
    exists i :: 0 <= i < |rec.auths| && ChangedAt(cfg, rec, rec', authId, input, now, answer, i)
  }

  ghost predicate ChangedAt(cfg: Config, rec: Record, rec': Record, authId: Id, input: AuthInput, now: int,
                            answer: Auth, i: nat)
    requires i < |rec.auths|
  {
    && rec.auths[i].id == authId && AuthAsked(rec.auths[i], input, now, answer)
    && |rec'.auths| == |rec.auths| && AuthChanged(rec.auths[i], input, now, rec'.auths[i])
    && (forall j :: 0 <= j < |rec.auths| && j != i ==> rec'.auths[j] == rec.auths[j])
    && rec.consent.Some? && rec'.consent.Some? && OnlyStatus(rec.consent.value, now, rec'.consent.value)
    && Decided(cfg, rec'.auths, rec'.consent.value.status)
    && (input.status != "" && EqualFold(input.status, cfg.auth.rejected) ==>
          rec'.consent.value.status == cfg.consent.rejected)
  }

  lemma ChangeIsAsAsked(cfg: Config, t: Tables, log: seq<Commit>, k: Key, tx: Tx)
    requires Good(cfg, t, log) && tx.ChangeAuth? && Effect(cfg, t.catalog, k, Project(t, k), tx).Ok?
    ensures FindAuth(Project(t, k).auths, tx.authId).Some?
    ensures UpdatedAsAsked(cfg, Project(t, k), Effect(cfg, t.catalog, k, Project(t, k), tx).value, tx.authId, tx.change,
                           tx.now, RequestedAuth(FindAuth(Project(t, k).auths, tx.authId).value, tx.change, tx.now))
  {
    var rec := Project(t, k);
    assert ConsentGood(cfg, t, k);
    FoundAuth(rec.auths, tx.authId);
    var stored := FindAuth(rec.auths, tx.authId).value;
    var i :| 0 <= i < |rec.auths| && rec.auths[i] == stored;
    ChangeStores(cfg, t.catalog, k, rec, tx, i);
    AskedIsRequested(stored, tx.change, tx.now);
    var rec' := Effect(cfg, t.catalog, k, rec, tx).value;
    assert ChangedAt(cfg, rec, rec', tx.authId, tx.change, tx.now, RequestedAuth(stored, tx.change, tx.now), i);
  }

  /** The transaction of an update that found its authorization. */
  method RunChange(reg: Registry, k: Key, stored: Auth, authId: Id, input: AuthInput, env: Env)
    returns (r: Option<ServiceError>)
    requires Healthy(reg) && FindAuth(Project(reg.tables, k).auths, authId) == Some(stored)
    requires input.status == "" || !IsSystemStatus(reg.cfg, input.status)
    modifies reg
    ensures Healthy(reg) && reg.tables.catalog == old(reg.tables.catalog) && SameExcept(old(reg.tables), reg.tables, k)
    ensures r.Some? ==> reg.tables == old(reg.tables) && reg.log == old(reg.log)
    ensures r.None? ==>
      && Effect(reg.cfg, reg.tables.catalog, k, old(Project(reg.tables, k)),
                ChangeAuth(authId, input, env.auditId, env.historyId, env.now)) == Ok(Project(reg.tables, k))
      && Committed(old(reg.log), reg.log, 1)
    ensures Hits(env.faults, AUTH_STEPS) ==> r.Some?
    ensures !Hits(env.faults, AUTH_STEPS) ==>
      var effect := Effect(reg.cfg, reg.tables.catalog, k, old(Project(reg.tables, k)),
                           ChangeAuth(authId, input, env.auditId, env.historyId, env.now));
      r == if effect.Ok? then None else Some(effect.error)
  {
    var tx := ChangeAuth(authId, input, env.auditId, env.historyId, env.now);
    FoundAuth(Project(reg.tables, k).auths, authId);
    assert HasAuth(Select(reg.tables.auths, k), authId);
    FoundAuthOwned(reg.tables, k, authId);
    ChangeImplemented(reg.cfg, reg.tables.catalog, k, Project(reg.tables, k), tx);
    ChangeAuthRunnable(reg.cfg, reg.tables, k, stored, tx);
    r := RunFor(reg, k, tx, ChangeAuthSteps(stored, tx), env.faults);
  }

  /** UpdateAuthResource: change one authorization and, if its status changed, the consent's. */
  method UpdateAuthResource(reg: Registry, k: Key, authId: Id, input: AuthInput, env: Env)
    returns (r: Result<Auth, ServiceError>)
    requires Healthy(reg)
    modifies reg
    ensures Healthy(reg) && reg.tables.catalog == old(reg.tables.catalog) && SameExcept(old(reg.tables), reg.tables, k)
    ensures r.Err? ==> reg.tables == old(reg.tables) && reg.log == old(reg.log)
    ensures r.Ok? ==>
      && Effect(reg.cfg, reg.tables.catalog, k, old(Project(reg.tables, k)),
                ChangeAuth(authId, input, env.auditId, env.historyId, env.now)) == Ok(Project(reg.tables, k))
      && Committed(old(reg.log), reg.log, 1)
      && old(FindAuth(Project(reg.tables, k).auths, authId)).Some?
      && r.value == RequestedAuth(old(FindAuth(Project(reg.tables, k).auths, authId)).value, input, env.now)
    ensures r.Ok? ==>
      UpdatedAsAsked(reg.cfg, old(Project(reg.tables, k)), Project(reg.tables, k), authId, input, env.now, r.value)
    ensures Hits(env.faults, AUTH_STEPS) ==> r.Err?
    ensures !Hits(env.faults, AUTH_STEPS) && !env.lookupFails ==>
      var effect := Effect(reg.cfg, reg.tables.catalog, k, old(Project(reg.tables, k)),
                           ChangeAuth(authId, input, env.auditId, env.historyId, env.now));
      if effect.Ok? then r.Ok? else r == Err(effect.error)
  {
    ghost var t, log := reg.tables, reg.log;
    SameExceptItself(reg.tables, k);
    if env.lookupFails {
      return Err(Internal);
    }
    AuthByIdFinds(reg.tables.auths, k, authId);
    var row := AuthById(reg.tables.auths, authId, k.org);
    if row.None? || row.value.key.id != k.id {
      return Err(NotFound);
    }
    var stored := row.value.val;
    if input.status != "" && IsSystemStatus(reg.cfg, input.status) {
      return Err(ValidationFailed);
    }
    ghost var tx := ChangeAuth(authId, input, env.auditId, env.historyId, env.now);
    FoundAuth(Project(reg.tables, k).auths, authId);
    var error := RunChange(reg, k, stored, authId, input, env);
    if error.Some? {
      return Err(error.value);
    }
    ChangeIsAsAsked(reg.cfg, t, log, k, tx);
    return Ok(RequestedAuth(stored, input, env.now));
  }

  /** The answer of an authorization update is not always what was stored: it is exactly when the
      request leaves the type as it is, because the update statement does not write the type. */
  lemma UpdateReadsBackExactly(cfg: Config, cat: Catalog, k: Key, rec: Record, tx: Tx)
    requires tx.ChangeAuth? && DistinctAuths(rec.auths) && Effect(cfg, cat, k, rec, tx).Ok?
    ensures var stored := FindAuth(rec.auths, tx.authId).value;
            FindAuth(Effect(cfg, cat, k, rec, tx).value.auths, tx.authId) ==
              Some(RequestedAuth(stored, tx.change, tx.now)) <==>
            (tx.change.authType == "" || NormalizeAuthType(tx.change.authType) == stored.authType)
  {
    var stored := FindAuth(rec.auths, tx.authId).value;
    var requested := RequestedAuth(stored, tx.change, tx.now);
    var auths' := Effect(cfg, cat, k, rec, tx).value.auths;
    FoundAuth(rec.auths, tx.authId);
    var i :| 0 <= i < |rec.auths| && rec.auths[i] == stored;
    EffectKeepsDistinctAuths(cfg, cat, k, rec, tx);
    assert auths'[i] == WithAuth(stored, requested);
    FoundIsUnique(auths', tx.authId, i);
  }

  /** A type change that is accepted and silently dropped. */
  lemma TypeChangeIsDropped(cfg: Config, cat: Catalog, k: Key, rec: Record, now: int)
    requires WellFormed(cfg) && rec.consent.Some? && AcceptsAuthWrites(cfg, rec.consent.value)
    requires rec.auths == [Auth("a", PRIMARY, None, cfg.auth.approved, 0, None)]
    ensures var tx := ChangeAuth("a", AuthInput("agent", None, "", None), "u", "h", now);
            var effect := Effect(cfg, cat, k, rec, tx);
            effect.Ok? && effect.value.auths[0].authType == PRIMARY
  {
    assert ToLower("agent") == "agent";
    assert !EqualFold(cfg.auth.approved, cfg.auth.recorded);
    var tx := ChangeAuth("a", AuthInput("agent", None, "", None), "u", "h", now);
    var change := ChangeOf(rec.auths[0], tx.change, now);
    var typed := Typed(Replace(rec.auths, change.updated));
    assert typed[0] == TypedStatus("agent", cfg.auth.approved);
    assert HasParticipation(cfg, typed);
  }
}
