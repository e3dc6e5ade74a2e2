/** An overdue consent that is called valid. */
module OverdueConsent {
  import opened Wrappers
  import opened Config
  import opened AuthRules
  import opened Rows
  import opened Records
  import opened Tables
  import opened Transactions
  import opened Lifecycle
  import opened Invariants
  import opened RunnableSteps
  import opened ConsentService
  import StatusDerivation
  import ConsentValidation

  const FAILING_EXPIRY := Faults(false, {1}, false)

  function At(now: int, expiryFaults: Faults): Env {
    Env(now, i => "a", "u", "h", NO_FAULTS, "eu", "eh", expiryFaults, false, false)
  }

  /** One approved authorization and no purposes, expiring at ten. */
  const SHORT_LIVED := CreateInput("group", "accounts", Some(10), None, None, None, map[],
                                   [AuthInput("", None, "", None)])

  lemma OmittedStatusApproves(cfg: Config)
    requires WellFormed(cfg)
    ensures StatusDerivation.Participates(cfg, "")
  {
    assert |ToUpper("")| == 0;
    assert |ToUpper(cfg.auth.recorded)| == |cfg.auth.recorded|;
    assert |ToUpper(cfg.auth.sysExpired)| == |cfg.auth.sysExpired|;
    assert |ToUpper(cfg.auth.sysRevoked)| == |cfg.auth.sysRevoked|;
  }

  lemma ShortLivedIsAccepted(cfg: Config)
    requires WellFormed(cfg)
    ensures AuthsAccepted(cfg, SHORT_LIVED.auths)
    ensures StatusDerivation.Derive(cfg, InputStatuses(SHORT_LIVED.auths)) == cfg.consent.active
  {
    var statuses, typed := InputStatuses(SHORT_LIVED.auths), TypedInputs(SHORT_LIVED.auths);
    assert statuses == [""] && "" in statuses;
    OmittedStatusApproves(cfg);
    StatusDerivation.DeriveCharacterised(cfg, statuses);
    assert typed == [TypedStatus(PRIMARY, "")];
    assert |PRIMARY| == 7 && |DELEGATE| == 8 && |DELEGATE_SUBJECT| == 16;
    assert typed[0].status == "";
  }

  const CREATED_AT_ZERO := Create(SHORT_LIVED, [], ["a"], "u", 0)

  /** What the creation stores. */
  lemma ShortLivedIsActive(cfg: Config, k: Key)
    requires WellFormed(cfg)
    ensures var effect := Effect(cfg, EMPTY_CATALOG, k, EMPTY, CREATED_AT_ZERO);
            && effect.Ok? && effect.value.consent.Some? && effect.value.links == {}
            && effect.value.consent.value.status == cfg.consent.active
            && effect.value.consent.value.expiration == Some(10)
  {
    ShortLivedIsAccepted(cfg);
    assert LinkIds([]) == {};
  }

  lemma ShortLivedIsFree(cfg: Config, k: Key)
    ensures AtHome(EMPTY_TABLES, k) && Project(EMPTY_TABLES, k) == EMPTY
    ensures AuthsFree(EMPTY_TABLES, k, BuildAuths(cfg, SHORT_LIVED.auths, ["a"], 0))
  {
  }

  method CreateShortLived(reg: Registry, k: Key)
    requires Healthy(reg) && reg.tables == EMPTY_TABLES
    modifies reg
    ensures Healthy(reg) && reg.tables.catalog == EMPTY_CATALOG
    ensures Effect(reg.cfg, EMPTY_CATALOG, k, EMPTY, CREATED_AT_ZERO) == Ok(Project(reg.tables, k))
  {
    var env := At(0, NO_FAULTS);
    ShortLivedIsAccepted(reg.cfg);
    ShortLivedIsActive(reg.cfg, k);
    ShortLivedIsFree(reg.cfg, k);
    assert AuthIds(env, 1) == ["a"];
    var created, links := CreateConsent(reg, k, SHORT_LIVED, [], (elementType, schema, value) => true, env);
    assert links == [];
  }

  /** Created at time zero with an expiry of ten and validated at eleven while the second closure of its
      expiry fails: overdue, and valid. */
  method OverdueIsCalledValid(cfg: Config) returns (r: Result<ConsentValidation.Verdict, ServiceError>)
    requires WellFormed(cfg)
    ensures r.Ok? && r.value.valid && Overdue(r.value.info.consent, 11)
  {
    var reg := Open(cfg);
    var k := Key("c", "org");
    CreateShortLived(reg, k);
    ShortLivedIsActive(cfg, k);
    assert 1 in FAILING_EXPIRY.steps && Hits(FAILING_EXPIRY, EXPIRE_STEPS);
    ghost var rec := Project(reg.tables, k);
    assert rec.consent == Lookup(reg.tables, k);
    assert ConsentValidation.MandatoryApproved(rec, reg.tables.catalog);
    r := ConsentValidation.ValidateConsent(reg, k, At(11, FAILING_EXPIRY));
  }
}
