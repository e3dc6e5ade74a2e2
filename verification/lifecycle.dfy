/** The life of one consent as a state machine: what each service transaction does to everything
    the database holds about the consent, stated as one net change. */
module Lifecycle {
  import opened Wrappers
  import opened Config
  import opened StatusDerivation
  import opened AuthRules
  import opened Rows
  import opened Records
  import opened Transactions

  datatype AuthInput = AuthInput(authType: string, user: Option<string>, status: string, resources: Option<string>)

  /** A purpose of a request after resolution: the version to link and one approval per element. */
  datatype ResolvedLink = ResolvedLink(purposeVersion: Id, approvals: seq<(Id, Approval)>)

  datatype CreateInput = CreateInput(
    group: string, consentType: string, expiration: Option<int>, frequency: Option<int>,
    recurring: Option<bool>, validity: Option<int>, attributes: map<string, string>, auths: seq<AuthInput>)

  /** None stands for a field the caller left out; a present but empty collection replaces. */
  datatype UpdateInput = UpdateInput(
    consentType: string, expiration: Option<int>, frequency: Option<int>, recurring: Option<bool>,
    validity: Option<int>, attributes: Option<map<string, string>>, auths: Option<seq<AuthInput>>)

  /** One transaction on one consent, with the generated identifiers and the clock it uses. */
  datatype Tx =
    | Create(create: CreateInput, newLinks: seq<ResolvedLink>, authIds: seq<Id>, auditId: Id, now: int)
    | Update(group: string, update: UpdateInput, links: Option<seq<ResolvedLink>>, authIds: seq<Id>,
             auditId: Id, historyId: Id, now: int)
    | Revoke(actor: string, reason: string, auditId: Id, historyId: Id, now: int)
    | Expire(auditId: Id, historyId: Id, now: int)
    | AddAuth(authId: Id, add: AuthInput, auditId: Id, historyId: Id, now: int)
    | ChangeAuth(authId: Id, change: AuthInput, auditId: Id, historyId: Id, now: int)

  /** IsConsentExpired: a zero expiration means none. */
  predicate IsConsentExpired(expiration: int, now: int) {
    expiration != 0 && now > expiration
  }

  predicate Overdue(c: Consent, now: int) {
    c.expiration.Some? && IsConsentExpired(c.expiration.value, now)
  }

  // ---- Building rows from input ----

  function BuildAuth(cfg: Config, input: AuthInput, id: Id, now: int): Auth {
    Auth(id, EffectiveAuthType(input.authType), input.user,
         if input.status == "" then cfg.auth.approved else input.status, now, input.resources)
  }

  function BuildAuths(cfg: Config, inputs: seq<AuthInput>, ids: seq<Id>, now: int): seq<Auth>
    requires |ids| == |inputs|
  {
    seq(|inputs|, i requires 0 <= i < |inputs| => BuildAuth(cfg, inputs[i], ids[i], now))
  }

  function InputStatuses(inputs: seq<AuthInput>): seq<string> {
    seq(|inputs|, i requires 0 <= i < |inputs| => inputs[i].status)
  }

  function NewConsent(cfg: Config, k: Key, input: CreateInput, now: int): Consent {
    Consent(k.id, k.org, input.group, input.consentType, Derive(cfg, InputStatuses(input.auths)),
            input.frequency, input.expiration, input.recurring, input.validity, now, now)
  }

  function LinkApprovals(pv: Id, approvals: seq<(Id, Approval)>): map<(Id, Id), Approval> {
    if approvals == [] then map[]
    else map[(pv, approvals[0].0) := approvals[0].1] + LinkApprovals(pv, approvals[1..])
  }

  function ApprovalRows(links: seq<ResolvedLink>): map<(Id, Id), Approval> {
    if links == [] then map[]
    else LinkApprovals(links[0].purposeVersion, links[0].approvals) + ApprovalRows(links[1..])
  }

  function LinkIds(links: seq<ResolvedLink>): set<Id> {
    set i | 0 <= i < |links| :: links[i].purposeVersion
  }

  /** No purpose version twice, and no element version twice within one. */
  predicate DistinctLinks(links: seq<ResolvedLink>) {
    && (forall i, j :: 0 <= i < j < |links| ==> links[i].purposeVersion != links[j].purposeVersion)
    && (forall i :: 0 <= i < |links| ==> DistinctApprovals(links[i].approvals))
  }

  predicate DistinctApprovals(approvals: seq<(Id, Approval)>) {
    forall i, j :: 0 <= i < j < |approvals| ==> approvals[i].0 != approvals[j].0
  }

  predicate DistinctIds(ids: seq<Id>) {
    forall i, j :: 0 <= i < j < |ids| ==> ids[i] != ids[j]
  }

  function FindAuth(auths: seq<Auth>, id: Id): Option<Auth> {
    if auths == [] then None
    else if auths[0].id == id then Some(auths[0])
    else FindAuth(auths[1..], id)
  }

  // ---- The status an update leads to ----

  function UpdatedStatus(cfg: Config, rec: Record, input: UpdateInput, now: int): string
    requires rec.consent.Some?
  {
    var c := rec.consent.value;
    var expiration := if input.expiration.Some? then input.expiration else c.expiration;
    if input.auths.Some? then Derive(cfg, InputStatuses(input.auths.value))
    else if c.status == cfg.consent.expired && (expiration.None? || !IsConsentExpired(expiration.value, now)) then
      Derive(cfg, Statuses(rec.auths))
    else c.status
  }

  function MergedConsent(c: Consent, input: UpdateInput, now: int): Consent {
    c.(updated := now,
       consentType := if input.consentType != "" then input.consentType else c.consentType,
       expiration := if input.expiration.Some? then input.expiration else c.expiration,
       frequency := if input.frequency.Some? then input.frequency else c.frequency,
       recurring := if input.recurring.Some? then input.recurring else c.recurring,
       validity := if input.validity.Some? then input.validity else c.validity)
  }

  /** The row an authorization update asks for; empty fields leave the stored value. */
  function RequestedAuth(stored: Auth, input: AuthInput, now: int): Auth {
    Auth(stored.id,
         if input.authType != "" then NormalizeAuthType(input.authType) else stored.authType,
         if input.user.Some? then input.user else stored.user,
         if input.status != "" then input.status else stored.status,
         now,
         if input.resources.Some? then input.resources else stored.resources)
  }

  function ChangeOf(stored: Auth, input: AuthInput, now: int): AuthChange {
    var updated := RequestedAuth(stored, input, now);
    Changing(updated, input.status != "" && stored.status != input.status,
             input.authType != "" && stored.authType != updated.authType)
  }

  // ---- Net effects ----

  const CREATED_AUDIT := "Initial consent creation"
  const UPDATED_AUDIT := "Consent status updated based on authorization states"
  const UPDATED_HISTORY := "Consent updated"
  const REVOKED_HISTORY := "Consent revoked"
  const AUTH_ADDED_HISTORY := "Consent authorizations added"
  const AUTH_UPDATED_HISTORY := "Consent authorizations updated"
  const AUTH_STATUS_AUDIT := "authorization status"

  function PreImage(cfg: Config, cat: Catalog, rec: Record, id: Id, time: int, actor: Option<string>,
                    reason: string): seq<History>
    requires rec.consent.Some?
  {
    if cfg.historyEnabled then [History(id, time, actor, reason, View(rec, cat))] else []
  }

  /** A status change carries the audit row that records it. */
  function Transition(rec: Record, status: string, now: int, auditId: Id, reason: string, actor: Option<string>): Record
    requires rec.consent.Some?
  {
    var c := rec.consent.value;
    if status == c.status then rec
    else rec.(consent := Some(c.(status := status, updated := now)),
              audits := rec.audits + [Audit(auditId, status, Some(c.status), now, reason, actor)])
  }

  function CreateEffect(cfg: Config, k: Key, rec: Record, tx: Tx): Result<Record, ServiceError>
    requires tx.Create?
  {
    if rec.consent.Some? || |tx.authIds| != |tx.create.auths| || !DistinctIds(tx.authIds) || !DistinctLinks(tx.newLinks)
    then Err(Internal)
    else
      var c := NewConsent(cfg, k, tx.create, tx.now);
      Ok(Record(
        Some(c), tx.create.attributes, BuildAuths(cfg, tx.create.auths, tx.authIds, tx.now),
        [Audit(tx.auditId, c.status, None, tx.now, CREATED_AUDIT, Some(tx.create.group))], [],
        LinkIds(tx.newLinks), ApprovalRows(tx.newLinks)))
  }

  function UpdateEffect(cfg: Config, cat: Catalog, rec: Record, tx: Tx): Result<Record, ServiceError>
    requires tx.Update?
  {
    if rec.consent.None? then Err(NotFound)
    else if rec.consent.value.group != tx.group then Err(ValidationFailed)
    else if || (tx.update.auths.Some? && (|tx.authIds| != |tx.update.auths.value| || !DistinctIds(tx.authIds)))
            || (tx.links.Some? && !DistinctLinks(tx.links.value))
    then Err(Internal)
    else
      var c := rec.consent.value;
      var status := UpdatedStatus(cfg, rec, tx.update, tx.now);
      var moved := Transition(rec.(consent := Some(MergedConsent(c, tx.update, tx.now))), status, tx.now,
                              tx.auditId, UPDATED_AUDIT, Some(c.group));
      Ok(moved.(
        history := rec.history + PreImage(cfg, cat, rec, tx.historyId, tx.now, Some(tx.group), UPDATED_HISTORY),
        attributes := tx.update.attributes.GetOr(rec.attributes),
        auths :=
          if tx.update.auths.Some? then BuildAuths(cfg, tx.update.auths.value, tx.authIds, tx.now) else rec.auths,
        links := if tx.links.Some? then LinkIds(tx.links.value) else rec.links,
        approvals := if tx.links.Some? then ApprovalRows(tx.links.value) else rec.approvals))
  }

  function RevokeEffect(cfg: Config, cat: Catalog, rec: Record, tx: Tx): Result<Record, ServiceError>
    requires tx.Revoke?
  {
    if tx.actor == "" then Err(ValidationFailed)
    else if rec.consent.None? then Err(NotFound)
    else if rec.consent.value.status == cfg.consent.revoked then Err(AlreadyRevoked)
    else
      Ok(Transition(rec, cfg.consent.revoked, tx.now, tx.auditId, tx.reason, Some(tx.actor)).(
        auths := Restatus(rec.auths, cfg.auth.sysRevoked, tx.now),
        history := rec.history + PreImage(cfg, cat, rec, tx.historyId, tx.now, Some(tx.actor), REVOKED_HISTORY)))
  }

  function ExpireEffect(cfg: Config, cat: Catalog, rec: Record, tx: Tx): Result<Record, ServiceError>
    requires tx.Expire?
  {
    if rec.consent.None? then Err(Internal)
    else if rec.consent.value.status == cfg.consent.expired then Ok(rec)
    else
      Ok(Transition(rec, cfg.consent.expired, tx.now, tx.auditId, EXPIRED_AUDIT, Some(SYSTEM_ACTOR)).(
        auths := Restatus(rec.auths, cfg.auth.sysExpired, tx.now),
        history := rec.history + PreImage(cfg, cat, rec, tx.historyId, tx.now, Some(SYSTEM_ACTOR), EXPIRED_HISTORY)))
  }

  function AddAuthEffect(cfg: Config, cat: Catalog, rec: Record, tx: Tx): Result<Record, ServiceError>
    requires tx.AddAuth?
  {
    var auth := BuildAuth(cfg, tx.add, tx.authId, tx.now);
    if IsSystemStatus(cfg, auth.status) then Err(ValidationFailed)
    else if rec.consent.None? then Err(NotFound)
    else if !AcceptsAuthWrites(cfg, rec.consent.value) then Err(ValidationFailed)
    else if !WellShaped(cfg, Typed([auth] + rec.auths)) then Err(ValidationFailed)
    else if HasAuth(rec.auths, tx.authId) then Err(Internal)
    else
      Ok(Transition(rec, Derive(cfg, Statuses([auth] + rec.auths)), tx.now, tx.auditId, AUTH_STATUS_AUDIT, None).(
        auths := rec.auths + [auth],
        history := rec.history + PreImage(cfg, cat, rec, tx.historyId, tx.now, None, AUTH_ADDED_HISTORY)))
  }

  function ChangeAuthEffect(cfg: Config, cat: Catalog, rec: Record, tx: Tx): Result<Record, ServiceError>
    requires tx.ChangeAuth?
  {
    var found := FindAuth(rec.auths, tx.authId);
    if found.None? then Err(NotFound)
    else if tx.change.status != "" && IsSystemStatus(cfg, tx.change.status) then Err(ValidationFailed)
    else if rec.consent.None? then Err(NotFound)
    else if !AcceptsAuthWrites(cfg, rec.consent.value) then Err(ValidationFailed)
    else
      var change := ChangeOf(found.value, tx.change, tx.now);
      var requested := Replace(rec.auths, change.updated);
      if (change.statusChanged || change.typeChanged) && !WellShaped(cfg, Typed(requested)) then Err(ValidationFailed)
      else
        var status := if change.statusChanged then Derive(cfg, Statuses(requested)) else rec.consent.value.status;
        Ok(Transition(rec, status, tx.now, tx.auditId, AUTH_STATUS_AUDIT, None).(
          auths := UpdateAuths(rec.auths, change.updated),
          history := rec.history + PreImage(cfg, cat, rec, tx.historyId, tx.now, None, AUTH_UPDATED_HISTORY)))
  }

  function Effect(cfg: Config, cat: Catalog, k: Key, rec: Record, tx: Tx): Result<Record, ServiceError> {
    match tx
    case Create(_, _, _, _, _) => CreateEffect(cfg, k, rec, tx)
    case Update(_, _, _, _, _, _, _) => UpdateEffect(cfg, cat, rec, tx)
    case Revoke(_, _, _, _, _) => RevokeEffect(cfg, cat, rec, tx)
    case Expire(_, _, _) => ExpireEffect(cfg, cat, rec, tx)
    case AddAuth(_, _, _, _, _) => AddAuthEffect(cfg, cat, rec, tx)
    case ChangeAuth(_, _, _, _, _) => ChangeAuthEffect(cfg, cat, rec, tx)
  }
}
