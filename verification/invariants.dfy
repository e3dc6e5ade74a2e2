/** What every reachable record of a consent satisfies, and that every transaction keeps it. */
module Invariants {
  import opened Wrappers
  import opened Config
  import opened StatusDerivation
  import opened AuthRules
  import opened Rows
  import opened Records
  import opened Transactions
  import opened Lifecycle

  /** No row survives or precedes its consent. */
  predicate Orphanless(rec: Record) {
    rec.consent.None? ==> rec == EMPTY
  }

  ghost predicate DistinctAuths(auths: seq<Auth>) {
    forall i, j :: 0 <= i < j < |auths| ==> auths[i].id != auths[j].id
  }

  ghost predicate AllHave(auths: seq<Auth>, status: string) {
    forall i :: 0 <= i < |auths| ==> auths[i].status == status
  }

  /** The consent's status agrees with its authorizations: an expired or revoked consent has marked
      them all, and any other status is the one they derive. */
  ghost predicate StatusAgrees(cfg: Config, rec: Record) {
    rec.consent.Some? ==>
      var status := rec.consent.value.status;
      if status == cfg.consent.expired then AllHave(rec.auths, cfg.auth.sysExpired)
      else if status == cfg.consent.revoked then AllHave(rec.auths, cfg.auth.sysRevoked)
      else status == Derive(cfg, Statuses(rec.auths))
  }

  /** The audit rows in append order form a chain ending in the current status. */
  ghost predicate AuditChain(rec: Record) {
    rec.consent.Some? ==> ChainTo(rec.audits, rec.consent.value.status)
  }

  ghost predicate ChainTo(audits: seq<Audit>, status: string) {
    && audits != []
    && audits[0].previous == None
    && audits[|audits| - 1].current == status
    && forall i :: 0 < i < |audits| ==>
         audits[i].previous == Some(audits[i - 1].current) && audits[i].current != audits[i - 1].current
  }

  ghost predicate CanonicalTypes(auths: seq<Auth>) {
    forall i :: 0 <= i < |auths| ==> EffectiveAuthType(auths[i].authType) == auths[i].authType
  }

  ghost predicate Audited(audits: seq<Audit>, status: string) {
    exists i :: 0 <= i < |audits| && audits[i].current == status
  }

  /** A system status on an authorization was put there by an expire or a revoke on record. */
  ghost predicate SystemStatusesExplained(cfg: Config, rec: Record) {
    forall i :: 0 <= i < |rec.auths| && IsSystemStatus(cfg, rec.auths[i].status) ==>
      || (rec.auths[i].status == cfg.auth.sysExpired && Audited(rec.audits, cfg.consent.expired))
      || (rec.auths[i].status == cfg.auth.sysRevoked && Audited(rec.audits, cfg.consent.revoked))
  }

  ghost predicate RecordInvariant(cfg: Config, rec: Record) {
    && Orphanless(rec)
    && DistinctAuths(rec.auths)
    && StatusAgrees(cfg, rec)
    && AuditChain(rec)
    && CanonicalTypes(rec.auths)
    && WellShaped(cfg, Typed(rec.auths))
    && SystemStatusesExplained(cfg, rec)
  }

  /** What the handler checks of the authorizations in a create or update request. */
  predicate AuthsAccepted(cfg: Config, inputs: seq<AuthInput>) {
    && (forall i :: 0 <= i < |inputs| ==> inputs[i].status == "" || !IsSystemStatus(cfg, inputs[i].status))
    && WellShaped(cfg, TypedInputs(inputs))
  }

  function TypedInputs(inputs: seq<AuthInput>): seq<TypedStatus> {
    seq(|inputs|, i requires 0 <= i < |inputs| => TypedStatus(EffectiveAuthType(inputs[i].authType), inputs[i].status))
  }

  predicate HandlerAccepts(cfg: Config, tx: Tx) {
    && (tx.Create? ==> AuthsAccepted(cfg, tx.create.auths))
    && (tx.Update? && tx.update.auths.Some? ==> AuthsAccepted(cfg, tx.update.auths.value))
  }

  // ---- Facts about authorization lists ----

  lemma DeriveOnSameElements(cfg: Config, a: seq<string>, b: seq<string>)
    requires forall s :: s in a <==> s in b
    ensures Derive(cfg, a) == Derive(cfg, b)
  {
    forall s
      ensures s in a ==> exists s' :: s' in b && EqualFold(s, s')
      ensures s in b ==> exists s' :: s' in a && EqualFold(s, s')
    {
      assert EqualFold(s, s);
    }
    DeriveSeesOnlyParticipants(cfg, a, b);
  }

  lemma DeriveOfAppended(cfg: Config, auths: seq<Auth>, a: Auth)
    ensures Derive(cfg, Statuses([a] + auths)) == Derive(cfg, Statuses(auths + [a]))
  {
    var x, y := Statuses([a] + auths), Statuses(auths + [a]);
    forall s
      ensures s in x <==> s in y
    {
      if s in x {
        var i :| 0 <= i < |x| && x[i] == s;
        assert y[if i == 0 then |auths| else i - 1] == s;
      }
      if s in y {
        var i :| 0 <= i < |y| && y[i] == s;
        assert x[if i == |auths| then 0 else i + 1] == s;
      }
    }
    DeriveOnSameElements(cfg, x, y);
  }

  lemma {:induction false} FoundAuth(auths: seq<Auth>, id: Id)
    ensures FindAuth(auths, id).None? <==> forall i :: 0 <= i < |auths| ==> auths[i].id != id
    ensures FindAuth(auths, id).Some? ==> FindAuth(auths, id).value in auths && FindAuth(auths, id).value.id == id
  {
    if auths != [] {
      FoundAuth(auths[1..], id);
      assert auths == [auths[0]] + auths[1..];
    }
  }

  lemma FoundIsUnique(auths: seq<Auth>, id: Id, i: nat)
    requires DistinctAuths(auths) && i < |auths| && auths[i].id == id
    ensures FindAuth(auths, id) == Some(auths[i])
  {
    FoundAuth(auths, id);
    var j :| 0 <= j < |auths| && auths[j] == FindAuth(auths, id).value;
    assert j == i;
  }

  /** The set the rules are checked against and the set stored differ at most in one type. */
  lemma StoredVersusRequested(auths: seq<Auth>, requested: Auth)
    ensures Statuses(UpdateAuths(auths, requested)) == Statuses(Replace(auths, requested))
  {
  }

  lemma UnchangedStatuses(auths: seq<Auth>, stored: Auth, requested: Auth)
    requires DistinctAuths(auths) && FindAuth(auths, requested.id) == Some(stored)
    requires requested.status == stored.status
    ensures Statuses(UpdateAuths(auths, requested)) == Statuses(auths)
  {
    forall i | 0 <= i < |auths|
      ensures WithAuth(auths[i], requested).status == auths[i].status
    {
      if auths[i].id == requested.id {
        FoundIsUnique(auths, requested.id, i);
      }
    }
  }

  lemma SystemStatusesDoNotParticipate(cfg: Config, auths: seq<Auth>, status: string)
    requires IsSystemStatus(cfg, status) && AllHave(auths, status)
    ensures Derive(cfg, Statuses(auths)) == cfg.consent.created
  {
    forall s | s in Statuses(auths)
      ensures !Participates(cfg, s)
    {
    }
    DeriveWithoutParticipants(cfg, Statuses(auths));
  }

  lemma DeriveIsOpen(cfg: Config, statuses: seq<string>)
    requires WellFormed(cfg)
    ensures Derive(cfg, statuses) != cfg.consent.expired && Derive(cfg, statuses) != cfg.consent.revoked
  {
    DeriveCharacterised(cfg, statuses);
  }

  lemma InputsDeriveLikeRows(cfg: Config, inputs: seq<AuthInput>, ids: seq<Id>, now: int)
    requires WellFormed(cfg) && |ids| == |inputs|
    ensures Derive(cfg, InputStatuses(inputs)) == Derive(cfg, Statuses(BuildAuths(cfg, inputs, ids, now)))
  {
    DefaultingKeepsDerivation(cfg, InputStatuses(inputs), Statuses(BuildAuths(cfg, inputs, ids, now)));
  }

  // ---- Status agreement ----

  /** Create, update, revoke, expire and authorization writes all leave the status in agreement,
      whatever the request; only the names have to be well formed. */
  lemma EffectKeepsStatusAgreement(cfg: Config, cat: Catalog, k: Key, rec: Record, tx: Tx)
    requires WellFormed(cfg) && DistinctAuths(rec.auths) && StatusAgrees(cfg, rec)
    requires Effect(cfg, cat, k, rec, tx).Ok?
    ensures StatusAgrees(cfg, Effect(cfg, cat, k, rec, tx).value)
  {
    match tx
    case Create(input, links, ids, _, now) =>
      InputsDeriveLikeRows(cfg, input.auths, ids, now);
      DeriveIsOpen(cfg, InputStatuses(input.auths));
    case Update(_, _, _, _, _, _, _) => UpdateKeepsStatusAgreement(cfg, cat, k, rec, tx);
    case Revoke(_, _, _, _, _) =>
    case Expire(_, _, _) =>
    case AddAuth(_, _, _, _, _) => AddKeepsStatusAgreement(cfg, cat, k, rec, tx);
    case ChangeAuth(_, _, _, _, _) => ChangeKeepsStatusAgreement(cfg, cat, k, rec, tx);
  }

  lemma UpdateKeepsStatusAgreement(cfg: Config, cat: Catalog, k: Key, rec: Record, tx: Tx)
    requires WellFormed(cfg) && StatusAgrees(cfg, rec)
    requires tx.Update? && Effect(cfg, cat, k, rec, tx).Ok?
    ensures StatusAgrees(cfg, Effect(cfg, cat, k, rec, tx).value)
  {
    if tx.update.auths.Some? {
      InputsDeriveLikeRows(cfg, tx.update.auths.value, tx.authIds, tx.now);
      DeriveIsOpen(cfg, InputStatuses(tx.update.auths.value));
    } else {
      DeriveIsOpen(cfg, Statuses(rec.auths));
    }
  }

  lemma AddKeepsStatusAgreement(cfg: Config, cat: Catalog, k: Key, rec: Record, tx: Tx)
    requires WellFormed(cfg) && StatusAgrees(cfg, rec)
    requires tx.AddAuth? && Effect(cfg, cat, k, rec, tx).Ok?
    ensures StatusAgrees(cfg, Effect(cfg, cat, k, rec, tx).value)
  {
    var auth := BuildAuth(cfg, tx.add, tx.authId, tx.now);
    DeriveOfAppended(cfg, rec.auths, auth);
    DeriveIsOpen(cfg, Statuses([auth] + rec.auths));
  }

  lemma ChangeKeepsStatusAgreement(cfg: Config, cat: Catalog, k: Key, rec: Record, tx: Tx)
    requires WellFormed(cfg) && DistinctAuths(rec.auths) && StatusAgrees(cfg, rec)
    requires tx.ChangeAuth? && Effect(cfg, cat, k, rec, tx).Ok?
    ensures StatusAgrees(cfg, Effect(cfg, cat, k, rec, tx).value)
  {
    var stored := FindAuth(rec.auths, tx.authId).value;
    var change := ChangeOf(stored, tx.change, tx.now);
    FoundAuth(rec.auths, tx.authId);
    StoredVersusRequested(rec.auths, change.updated);
    if change.statusChanged {
      DeriveIsOpen(cfg, Statuses(Replace(rec.auths, change.updated)));
    } else {
      UnchangedStatuses(rec.auths, stored, change.updated);
      assert AcceptsAuthWrites(cfg, rec.consent.value);
    }
  }

  // ---- Audit chain ----

  lemma TransitionExtendsChain(rec: Record, status: string, now: int, auditId: Id, reason: string,
                               actor: Option<string>)
    requires rec.consent.Some? && ChainTo(rec.audits, rec.consent.value.status)
    ensures ChainTo(Transition(rec, status, now, auditId, reason, actor).audits, status)
    ensures rec.audits <= Transition(rec, status, now, auditId, reason, actor).audits
  {
  }

  /** Every status change appends the audit row that continues the chain; nothing else touches it. */
  lemma EffectKeepsAuditChain(cfg: Config, cat: Catalog, k: Key, rec: Record, tx: Tx)
    requires AuditChain(rec)
    requires Effect(cfg, cat, k, rec, tx).Ok?
    ensures AuditChain(Effect(cfg, cat, k, rec, tx).value)
    ensures rec.audits <= Effect(cfg, cat, k, rec, tx).value.audits || tx.Create?
  {
    match tx
    case Create(_, _, _, _, _) =>
    case Update(_, input, _, _, auditId, _, now) =>
      var c := rec.consent.value;
      var merged := rec.(consent := Some(MergedConsent(c, input, now)));
      TransitionExtendsChain(merged, UpdatedStatus(cfg, rec, input, now), now, auditId, UPDATED_AUDIT, Some(c.group));
    case Revoke(actor, reason, auditId, _, now) =>
      TransitionExtendsChain(rec, cfg.consent.revoked, now, auditId, reason, Some(actor));
    case Expire(auditId, _, now) =>
      TransitionExtendsChain(rec, cfg.consent.expired, now, auditId, EXPIRED_AUDIT, Some(SYSTEM_ACTOR));
    case AddAuth(id, input, auditId, _, now) =>
      TransitionExtendsChain(rec, Derive(cfg, Statuses([BuildAuth(cfg, input, id, now)] + rec.auths)), now, auditId,
                             AUTH_STATUS_AUDIT, None);
    case ChangeAuth(id, input, auditId, _, now) =>
      var change := ChangeOf(FindAuth(rec.auths, id).value, input, now);
      var status := if change.statusChanged then Derive(cfg, Statuses(Replace(rec.auths, change.updated)))
                    else rec.consent.value.status;
      TransitionExtendsChain(rec, status, now, auditId, AUTH_STATUS_AUDIT, None);
  }

  // ---- Shape, types and provenance of the authorization set ----

  lemma EffectKeepsDistinctAuths(cfg: Config, cat: Catalog, k: Key, rec: Record, tx: Tx)
    requires DistinctAuths(rec.auths) && Effect(cfg, cat, k, rec, tx).Ok?
    ensures DistinctAuths(Effect(cfg, cat, k, rec, tx).value.auths)
  {
  }

  lemma EffectiveTypeIsCanonical(authType: string)
    ensures EffectiveAuthType(EffectiveAuthType(authType)) == EffectiveAuthType(authType)
    ensures EffectiveAuthType(authType) != ""
  {
    assert ToLower(PRIMARY) == PRIMARY;
    assert ToLower(DELEGATE) == DELEGATE;
    assert ToLower(DELEGATE_SUBJECT) == DELEGATE_SUBJECT;
  }

  lemma EffectKeepsCanonicalTypes(cfg: Config, cat: Catalog, k: Key, rec: Record, tx: Tx)
    requires CanonicalTypes(rec.auths) && Effect(cfg, cat, k, rec, tx).Ok?
    ensures CanonicalTypes(Effect(cfg, cat, k, rec, tx).value.auths)
  {
    forall authType
      ensures EffectiveAuthType(EffectiveAuthType(authType)) == EffectiveAuthType(authType)
    {
      EffectiveTypeIsCanonical(authType);
    }
  }

  /** Rows built from accepted inputs have the shape the inputs had. */
  lemma BuiltAuthsAreShaped(cfg: Config, inputs: seq<AuthInput>, ids: seq<Id>, now: int)
    requires WellFormed(cfg) && |ids| == |inputs| && AuthsAccepted(cfg, inputs)
    ensures WellShaped(cfg, Typed(BuildAuths(cfg, inputs, ids, now)))
  {
    var given, stored := TypedInputs(inputs), Typed(BuildAuths(cfg, inputs, ids, now));
    forall i | 0 <= i < |inputs|
      ensures stored[i].authType == given[i].authType
      ensures stored[i].status == if given[i].status == "" then cfg.auth.approved else given[i].status
    {
      EffectiveTypeIsCanonical(inputs[i].authType);
    }
    if inputs != [] {
      var i :| 0 <= i < |given| && (given[i].status == "" || !EqualFold(given[i].status, cfg.auth.recorded));
      assert !EqualFold(stored[i].status, cfg.auth.recorded);
      SameTypesSameShape(given, stored);
    }
  }

  lemma SameTypesSameShape(a: seq<TypedStatus>, b: seq<TypedStatus>)
    requires |a| == |b| && forall i :: 0 <= i < |a| ==> a[i].authType == b[i].authType
    requires DelegationShape(a)
    ensures DelegationShape(b)
  {
    if !(forall i :: 0 <= i < |a| ==> !IsDelegationType(a[i].authType)) {
      var i :| 0 <= i < |a| && a[i].authType == DELEGATE;
      var j :| 0 <= j < |a| && a[j].authType == DELEGATE_SUBJECT;
      assert b[i].authType == DELEGATE && b[j].authType == DELEGATE_SUBJECT;
    }
  }

  /** Marking every authorization with a system status keeps types and counts as participation. */
  lemma RestatusKeepsShape(cfg: Config, auths: seq<Auth>, status: string, now: int)
    requires WellFormed(cfg) && (status == cfg.auth.sysExpired || status == cfg.auth.sysRevoked)
    requires WellShaped(cfg, Typed(auths))
    ensures WellShaped(cfg, Typed(Restatus(auths, status, now)))
  {
    var marked := Typed(Restatus(auths, status, now));
    if auths != [] {
      assert !EqualFold(marked[0].status, cfg.auth.recorded);
      SameTypesSameShape(Typed(auths), marked);
    }
  }

  /** Appending is checked with the new authorization in front; the shape does not see the order. */
  lemma AppendKeepsShape(cfg: Config, auths: seq<Auth>, a: Auth)
    requires WellShaped(cfg, Typed([a] + auths))
    ensures WellShaped(cfg, Typed(auths + [a]))
  {
    assert Typed([a] + auths) == Typed([a]) + Typed(auths);
    assert Typed(auths + [a]) == Typed(auths) + Typed([a]);
    assert Typed([a]) == [Typed([a])[0]];
    RotationKeepsShape(cfg, Typed([a])[0], Typed(auths));
  }

  lemma RotationKeepsShape(cfg: Config, x: TypedStatus, rest: seq<TypedStatus>)
    requires WellShaped(cfg, [x] + rest)
    ensures WellShaped(cfg, rest + [x])
  {
    var before, after := [x] + rest, rest + [x];
    forall e
      ensures e in before <==> e in after
    {
    }
    assert HasParticipation(cfg, after) by {
      var p :| 0 <= p < |before| && (before[p].status == "" || !EqualFold(before[p].status, cfg.auth.recorded));
      assert before[p] in after;
    }
    if !(forall i :: 0 <= i < |before| ==> !IsDelegationType(before[i].authType)) {
      var i :| 0 <= i < |before| && before[i].authType == DELEGATE;
      var j :| 0 <= j < |before| && before[j].authType == DELEGATE_SUBJECT;
      assert before[i] in after && before[j] in after;
      assert forall n :: 0 <= n < |after| ==> after[n] in before;
    } else {
      assert forall n :: 0 <= n < |after| ==> after[n] in before;
    }
  }

  /** Storing an accepted change keeps the shape although a changed type is not written: the types
      stay as they were and the statuses are the ones that were checked. */
  lemma ChangeKeepsShape(cfg: Config, auths: seq<Auth>, requested: Auth)
    requires WellShaped(cfg, Typed(auths))
    requires WellShaped(cfg, Typed(Replace(auths, requested)))
    ensures WellShaped(cfg, Typed(UpdateAuths(auths, requested)))
  {
    var checked, stored := Typed(Replace(auths, requested)), Typed(UpdateAuths(auths, requested));
    if auths != [] {
      var p :| 0 <= p < |checked| && (checked[p].status == "" || !EqualFold(checked[p].status, cfg.auth.recorded));
      assert stored[p].status == checked[p].status;
      SameTypesSameShape(Typed(auths), stored);
    }
  }

  /** With requests the handler accepts, every stored authorization set is empty, or has a
      participant and is free of delegation types or a complete delegation. */
  lemma EffectKeepsShape(cfg: Config, cat: Catalog, k: Key, rec: Record, tx: Tx)
    requires WellFormed(cfg) && HandlerAccepts(cfg, tx)
    requires DistinctAuths(rec.auths) && WellShaped(cfg, Typed(rec.auths))
    requires Effect(cfg, cat, k, rec, tx).Ok?
    ensures WellShaped(cfg, Typed(Effect(cfg, cat, k, rec, tx).value.auths))
  {
    match tx
    case Create(input, links, ids, _, now) => BuiltAuthsAreShaped(cfg, input.auths, ids, now);
    case Update(_, input, _, ids, _, _, now) =>
      if input.auths.Some? {
        BuiltAuthsAreShaped(cfg, input.auths.value, ids, now);
      }
    case Revoke(_, _, _, _, now) => RestatusKeepsShape(cfg, rec.auths, cfg.auth.sysRevoked, now);
    case Expire(_, _, now) => RestatusKeepsShape(cfg, rec.auths, cfg.auth.sysExpired, now);
    case AddAuth(id, input, _, _, now) => AppendKeepsShape(cfg, rec.auths, BuildAuth(cfg, input, id, now));
    case ChangeAuth(_, _, _, _, _) => ChangeAuthKeepsShape(cfg, cat, k, rec, tx);
  }

  lemma ChangeAuthKeepsShape(cfg: Config, cat: Catalog, k: Key, rec: Record, tx: Tx)
    requires tx.ChangeAuth?
    requires DistinctAuths(rec.auths) && WellShaped(cfg, Typed(rec.auths))
    requires Effect(cfg, cat, k, rec, tx).Ok?
    ensures WellShaped(cfg, Typed(Effect(cfg, cat, k, rec, tx).value.auths))
  {
    var stored := FindAuth(rec.auths, tx.authId).value;
    var change := ChangeOf(stored, tx.change, tx.now);
    FoundAuth(rec.auths, tx.authId);
    if change.statusChanged || change.typeChanged {
      ChangeKeepsShape(cfg, rec.auths, change.updated);
    } else {
      UnchangedStatuses(rec.auths, stored, change.updated);
      var after := UpdateAuths(rec.auths, change.updated);
      forall i | 0 <= i < |rec.auths|
        ensures Typed(after)[i] == Typed(rec.auths)[i]
      {
        assert Statuses(after)[i] == Statuses(rec.auths)[i];
      }
      assert Typed(after) == Typed(rec.auths);
    }
  }

  lemma AuditedExtends(audits: seq<Audit>, more: seq<Audit>, status: string)
    requires Audited(audits, status)
    ensures Audited(audits + more, status)
  {
    var i :| 0 <= i < |audits| && audits[i].current == status;
    assert (audits + more)[i].current == status;
  }

  /** The expire and revoke transitions leave their audit row on record. */
  lemma EffectExplainsSystemStatuses(cfg: Config, cat: Catalog, k: Key, rec: Record, tx: Tx)
    requires WellFormed(cfg) && HandlerAccepts(cfg, tx)
    requires DistinctAuths(rec.auths) && AuditChain(rec) && SystemStatusesExplained(cfg, rec)
    requires Effect(cfg, cat, k, rec, tx).Ok?
    ensures SystemStatusesExplained(cfg, Effect(cfg, cat, k, rec, tx).value)
  {
    match tx
    case Create(input, links, ids, _, now) => BuiltAuthsAreNotSystem(cfg, input.auths, ids, now);
    case Update(_, input, _, ids, _, _, now) =>
      if input.auths.Some? {
        BuiltAuthsAreNotSystem(cfg, input.auths.value, ids, now);
      }
      AuditsGrow(cfg, cat, k, rec, tx);
    case Revoke(_, _, _, _, _) => ClosingExplains(cfg, cat, k, rec, tx);
    case Expire(_, _, _) => ClosingExplains(cfg, cat, k, rec, tx);
    case AddAuth(_, _, _, _, _) => AuditsGrow(cfg, cat, k, rec, tx);
    case ChangeAuth(_, _, _, _, _) => ChangeExplains(cfg, cat, k, rec, tx);
  }

  /** What is on record stays on record. */
  lemma AuditsGrow(cfg: Config, cat: Catalog, k: Key, rec: Record, tx: Tx)
    requires AuditChain(rec) && !tx.Create? && Effect(cfg, cat, k, rec, tx).Ok?
    ensures forall status :: Audited(rec.audits, status) ==> Audited(Effect(cfg, cat, k, rec, tx).value.audits, status)
  {
    var rec' := Effect(cfg, cat, k, rec, tx).value;
    EffectKeepsAuditChain(cfg, cat, k, rec, tx);
    var more := rec'.audits[|rec.audits|..];
    assert rec'.audits == rec.audits + more;
    forall status | Audited(rec.audits, status)
      ensures Audited(rec'.audits, status)
    {
      AuditedExtends(rec.audits, more, status);
    }
  }

  lemma ClosingExplains(cfg: Config, cat: Catalog, k: Key, rec: Record, tx: Tx)
    requires WellFormed(cfg) && AuditChain(rec) && SystemStatusesExplained(cfg, rec)
    requires (tx.Revoke? || tx.Expire?) && Effect(cfg, cat, k, rec, tx).Ok?
    ensures SystemStatusesExplained(cfg, Effect(cfg, cat, k, rec, tx).value)
  {
    var rec' := Effect(cfg, cat, k, rec, tx).value;
    if tx.Revoke? {
      assert rec'.audits[|rec'.audits| - 1].current == cfg.consent.revoked;
    } else if rec.consent.value.status != cfg.consent.expired {
      assert rec'.audits[|rec'.audits| - 1].current == cfg.consent.expired;
    }
  }

  lemma ChangeExplains(cfg: Config, cat: Catalog, k: Key, rec: Record, tx: Tx)
    requires WellFormed(cfg) && DistinctAuths(rec.auths) && AuditChain(rec) && SystemStatusesExplained(cfg, rec)
    requires tx.ChangeAuth? && Effect(cfg, cat, k, rec, tx).Ok?
    ensures SystemStatusesExplained(cfg, Effect(cfg, cat, k, rec, tx).value)
  {
    var rec' := Effect(cfg, cat, k, rec, tx).value;
    AuditsGrow(cfg, cat, k, rec, tx);
    FoundAuth(rec.auths, tx.authId);
    var stored := FindAuth(rec.auths, tx.authId).value;
    var requested := RequestedAuth(stored, tx.change, tx.now);
    if tx.change.status == "" {
      UnchangedStatuses(rec.auths, stored, requested);
      forall i | 0 <= i < |rec.auths|
        ensures rec'.auths[i].status == rec.auths[i].status
      {
        assert Statuses(UpdateAuths(rec.auths, requested))[i] == Statuses(rec.auths)[i];
      }
    }
  }

  lemma BuiltAuthsAreNotSystem(cfg: Config, inputs: seq<AuthInput>, ids: seq<Id>, now: int)
    requires WellFormed(cfg) && |ids| == |inputs| && AuthsAccepted(cfg, inputs)
    ensures forall i :: 0 <= i < |inputs| ==> !IsSystemStatus(cfg, BuildAuths(cfg, inputs, ids, now)[i].status)
  {
  }

  // ---- All of it, over runs ----

  /** Every transaction keeps the whole record invariant. */
  lemma EffectKeepsInvariant(cfg: Config, cat: Catalog, k: Key, rec: Record, tx: Tx)
    requires WellFormed(cfg) && HandlerAccepts(cfg, tx)
    requires RecordInvariant(cfg, rec)
    requires Effect(cfg, cat, k, rec, tx).Ok?
    ensures RecordInvariant(cfg, Effect(cfg, cat, k, rec, tx).value)
    ensures Effect(cfg, cat, k, rec, tx).value.consent.Some?
  {
    EffectKeepsDistinctAuths(cfg, cat, k, rec, tx);
    EffectKeepsStatusAgreement(cfg, cat, k, rec, tx);
    EffectKeepsAuditChain(cfg, cat, k, rec, tx);
    EffectKeepsCanonicalTypes(cfg, cat, k, rec, tx);
    EffectKeepsShape(cfg, cat, k, rec, tx);
    EffectExplainsSystemStatuses(cfg, cat, k, rec, tx);
    assert Effect(cfg, cat, k, rec, tx).value.consent.Some?;
  }

  /** One transaction of a serial run; a refused or failed one leaves the record as it was. */
  function Step(cfg: Config, cat: Catalog, k: Key, rec: Record, tx: Tx): Record {
    match Effect(cfg, cat, k, rec, tx)
    case Ok(rec') => rec'
    case Err(_) => rec
  }

  function Run(cfg: Config, cat: Catalog, k: Key, rec: Record, txs: seq<Tx>): Record
    decreases |txs|
  {
    if txs == [] then rec else Run(cfg, cat, k, Step(cfg, cat, k, rec, txs[0]), txs[1..])
  }

  /** Every record reachable from nothing by any sequence of transactions is well formed. */
  lemma {:induction false} RunKeepsInvariant(cfg: Config, cat: Catalog, k: Key, rec: Record, txs: seq<Tx>)
    requires WellFormed(cfg) && RecordInvariant(cfg, rec)
    requires forall i :: 0 <= i < |txs| ==> HandlerAccepts(cfg, txs[i])
    ensures RecordInvariant(cfg, Run(cfg, cat, k, rec, txs))
    decreases |txs|
  {
    if txs != [] {
      if Effect(cfg, cat, k, rec, txs[0]).Ok? {
        EffectKeepsInvariant(cfg, cat, k, rec, txs[0]);
      }
      RunKeepsInvariant(cfg, cat, k, Step(cfg, cat, k, rec, txs[0]), txs[1..]);
    }
  }
}
