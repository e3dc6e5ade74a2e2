/** What each transaction stores, field by field and in terms of its request alone. */
module StoredFields {
  import opened Wrappers
  import opened Config
  import opened StatusDerivation
  import opened AuthRules
  import opened Rows
  import opened Records
  import opened Transactions
  import opened Lifecycle
  import opened Invariants
  import opened Integrity
  import opened ReadModel

  // ---- Single rows ----

  /** A reserved type however it is spelled, any other type as given. */
  predicate Spells(given: string, authType: string) {
    if ToLower(given) in {PRIMARY, DELEGATE, DELEGATE_SUBJECT} then authType == ToLower(given) else authType == given
  }

  /** The row a new authorization becomes: what the request leaves out is primary and approved. */
  predicate NewAuthRow(cfg: Config, input: AuthInput, id: Id, now: int, a: Auth) {
    && a.id == id && a.user == input.user && a.resources == input.resources && a.updated == now
    && (if input.authType == "" then a.authType == PRIMARY else Spells(input.authType, a.authType))
    && (if input.status == "" then a.status == cfg.auth.approved else a.status == input.status)
  }

  ghost predicate NewAuthRows(cfg: Config, inputs: seq<AuthInput>, ids: seq<Id>, now: int, auths: seq<Auth>) {
    && |inputs| == |ids| == |auths|
    && forall i :: 0 <= i < |auths| ==> NewAuthRow(cfg, inputs[i], ids[i], now, auths[i])
  }

  /** What an authorization update asks for: a field it leaves out keeps its value. */
  predicate AuthAsked(stored: Auth, input: AuthInput, now: int, a: Auth) {
    && a.id == stored.id && a.updated == now
    && (if input.authType == "" then a.authType == stored.authType else Spells(input.authType, a.authType))
    && a.status == (if input.status == "" then stored.status else input.status)
    && a.user == (if input.user.None? then stored.user else input.user)
    && a.resources == (if input.resources.None? then stored.resources else input.resources)
  }

  /** What is stored of it: everything but the type. */
  predicate AuthChanged(stored: Auth, input: AuthInput, now: int, a: Auth) {
    && a.id == stored.id && a.authType == stored.authType && a.updated == now
    && a.status == (if input.status == "" then stored.status else input.status)
    && a.user == (if input.user.None? then stored.user else input.user)
    && a.resources == (if input.resources.None? then stored.resources else input.resources)
  }

  /** All authorizations with a status the server sets, otherwise as they were. */
  ghost predicate Marked(auths: seq<Auth>, status: string, now: int, auths': seq<Auth>) {
    && |auths'| == |auths|
    && forall i :: 0 <= i < |auths| ==>
         && auths'[i].status == status && auths'[i].updated == now && auths'[i].id == auths[i].id
         && auths'[i].authType == auths[i].authType && auths'[i].user == auths[i].user
         && auths'[i].resources == auths[i].resources
  }

  predicate NewConsentRow(k: Key, input: CreateInput, now: int, c: Consent) {
    && c.id == k.id && c.org == k.org && c.group == input.group && c.consentType == input.consentType
    && c.frequency == input.frequency && c.expiration == input.expiration
    && c.recurring == input.recurring && c.validity == input.validity
    && c.created == now && c.updated == now
  }

  /** A consent row after an update; only the status is left open. */
  predicate UpdatedRow(c: Consent, input: UpdateInput, now: int, c': Consent) {
    && c'.id == c.id && c'.org == c.org && c'.group == c.group && c'.created == c.created && c'.updated == now
    && c'.consentType == (if input.consentType == "" then c.consentType else input.consentType)
    && c'.frequency == (if input.frequency.None? then c.frequency else input.frequency)
    && c'.expiration == (if input.expiration.None? then c.expiration else input.expiration)
    && c'.recurring == (if input.recurring.None? then c.recurring else input.recurring)
    && c'.validity == (if input.validity.None? then c.validity else input.validity)
  }

  /** A consent row of which only the status may have changed, and with it the time of the last change. */
  predicate OnlyStatus(c: Consent, now: int, c': Consent) {
    && c'.id == c.id && c'.org == c.org && c'.group == c.group && c'.consentType == c.consentType
    && c'.frequency == c.frequency && c'.expiration == c.expiration && c'.recurring == c.recurring
    && c'.validity == c.validity && c'.created == c.created
    && c'.updated == (if c'.status == c.status then c.updated else now)
  }

  // ---- Status, audit and history ----

  /** An authorization that records a decision. */
  predicate Decides(cfg: Config, a: Auth) {
    !EqualFold(a.status, cfg.auth.recorded) && !EqualFold(a.status, cfg.auth.sysExpired)
    && !EqualFold(a.status, cfg.auth.sysRevoked)
  }

  ghost predicate SomeRejects(cfg: Config, auths: seq<Auth>) {
    exists i :: 0 <= i < |auths| && EqualFold(auths[i].status, cfg.auth.rejected)
  }

  ghost predicate AllApprove(cfg: Config, auths: seq<Auth>) {
    && (exists i :: 0 <= i < |auths| && Decides(cfg, auths[i]))
    && (forall i :: 0 <= i < |auths| && Decides(cfg, auths[i]) ==>
          auths[i].status == "" || EqualFold(auths[i].status, cfg.auth.approved))
  }

  /** The status stored authorizations stand for. */
  ghost predicate Decided(cfg: Config, auths: seq<Auth>, status: string) {
    && (status == cfg.consent.rejected <==> SomeRejects(cfg, auths))
    && (status == cfg.consent.active <==> AllApprove(cfg, auths))
    && status in {cfg.consent.rejected, cfg.consent.active, cfg.consent.created}
  }

  /** One audit row for a changed status, none for one that stays. */
  predicate AuditFollows(rec: Record, rec': Record, id: Id, now: int, reason: string, actor: Option<string>)
    requires rec.consent.Some? && rec'.consent.Some?
  {
    var before, after := rec.consent.value.status, rec'.consent.value.status;
    if before == after then rec'.audits == rec.audits
    else rec'.audits == rec.audits + [Audit(id, after, Some(before), now, reason, actor)]
  }

  /** With history enabled, one row more: the consent as it was before. */
  ghost predicate HistoryFollows(cfg: Config, cat: Catalog, rec: Record, rec': Record, id: Id, now: int,
                                 reason: string, actor: Option<string>) {
    if !cfg.historyEnabled then rec'.history == rec.history
    else
      && |rec'.history| == |rec.history| + 1 && rec.history <= rec'.history
      && var h := rec'.history[|rec.history|];
         h.id == id && h.time == now && h.reason == reason && h.actor == actor && RecordShown(rec, cat, h.snapshot)
  }

  /** Links and approvals of resolved purposes: the versions named, and the approvals as they were resolved. */
  ghost predicate LinksStored(links: seq<ResolvedLink>, rec': Record) {
    && (forall pv :: pv in rec'.links <==> exists i :: 0 <= i < |links| && links[i].purposeVersion == pv)
    && (forall p :: p in rec'.approvals ==> exists i, j :: ApprovalAt(links, i, j, p, rec'.approvals[p]))
    && (forall i, j :: 0 <= i < |links| && 0 <= j < |links[i].approvals| ==>
          var p := (links[i].purposeVersion, links[i].approvals[j].0);
          p in rec'.approvals && rec'.approvals[p] == links[i].approvals[j].1)
  }

  predicate ApprovalAt(links: seq<ResolvedLink>, i: int, j: int, p: (Id, Id), a: Approval) {
    && 0 <= i < |links| && 0 <= j < |links[i].approvals|
    && links[i].purposeVersion == p.0 && links[i].approvals[j].0 == p.1 && links[i].approvals[j].1 == a
  }

  // ---- Helpers ----

  lemma SpellsNormalized(given: string)
    ensures Spells(given, NormalizeAuthType(given))
    ensures given != "" ==> Spells(given, EffectiveAuthType(given))
  {
  }

  lemma BuiltRow(cfg: Config, input: AuthInput, id: Id, now: int)
    ensures NewAuthRow(cfg, input, id, now, BuildAuth(cfg, input, id, now))
  {
    SpellsNormalized(input.authType);
  }

  lemma BuiltRows(cfg: Config, inputs: seq<AuthInput>, ids: seq<Id>, now: int)
    requires |ids| == |inputs|
    ensures NewAuthRows(cfg, inputs, ids, now, BuildAuths(cfg, inputs, ids, now))
  {
    forall i | 0 <= i < |inputs|
      ensures NewAuthRow(cfg, inputs[i], ids[i], now, BuildAuths(cfg, inputs, ids, now)[i])
    {
      BuiltRow(cfg, inputs[i], ids[i], now);
    }
  }

  lemma ParticipatesIsDecides(cfg: Config, a: Auth)
    ensures Participates(cfg, a.status) <==> Decides(cfg, a)
  {
  }

  lemma DerivedIsDecided(cfg: Config, auths: seq<Auth>)
    requires WellFormed(cfg)
    ensures Decided(cfg, auths, Derive(cfg, Statuses(auths)))
  {
    var statuses := Statuses(auths);
    DeriveCharacterised(cfg, statuses);
    forall i | 0 <= i < |auths|
      ensures auths[i].status in statuses && (Participates(cfg, auths[i].status) <==> Decides(cfg, auths[i]))
    {
      assert statuses[i] == auths[i].status;
      ParticipatesIsDecides(cfg, auths[i]);
    }
    forall s | s in statuses
      ensures exists i :: 0 <= i < |auths| && auths[i].status == s
    {
      var i :| 0 <= i < |statuses| && statuses[i] == s;
      assert auths[i].status == s;
    }
  }

  lemma {:induction false} LinkApprovalsAt(pv: Id, approvals: seq<(Id, Approval)>, p: (Id, Id))
    requires DistinctApprovals(approvals)
    ensures p in LinkApprovals(pv, approvals) <==>
            p.0 == pv && exists j :: 0 <= j < |approvals| && approvals[j].0 == p.1
    ensures p in LinkApprovals(pv, approvals) ==>
              forall j :: 0 <= j < |approvals| && approvals[j].0 == p.1 ==>
                            LinkApprovals(pv, approvals)[p] == approvals[j].1
    decreases |approvals|
  {
    if approvals != [] {
      var rest := approvals[1..];
      LinkApprovalsAt(pv, rest, p);
      if j :| 0 <= j < |approvals| && approvals[j].0 == p.1 {
        assert j > 0 ==> rest[j - 1] == approvals[j];
      }
      assert forall j :: 0 < j < |approvals| ==> approvals[j] == rest[j - 1];
    }
  }

  lemma {:induction false} ApprovalRowsAt(links: seq<ResolvedLink>, p: (Id, Id))
    requires DistinctLinks(links)
    ensures p in ApprovalRows(links) ==> exists i, j :: ApprovalAt(links, i, j, p, ApprovalRows(links)[p])
    ensures forall i, j, a :: ApprovalAt(links, i, j, p, a) ==> p in ApprovalRows(links) && ApprovalRows(links)[p] == a
    decreases |links|
  {
    if links != [] {
      var rest := links[1..];
      ApprovalRowsAt(rest, p);
      LinkApprovalsAt(links[0].purposeVersion, links[0].approvals, p);
      var first := LinkApprovals(links[0].purposeVersion, links[0].approvals);
      if p in ApprovalRows(rest) {
        var i, j :| ApprovalAt(rest, i, j, p, ApprovalRows(rest)[p]);
        assert ApprovalAt(links, i + 1, j, p, ApprovalRows(rest)[p]);
      } else if p in first {
        var j :| 0 <= j < |links[0].approvals| && links[0].approvals[j].0 == p.1;
        assert ApprovalAt(links, 0, j, p, first[p]);
      }
      forall i, j, a | ApprovalAt(links, i, j, p, a)
        ensures p in ApprovalRows(links) && ApprovalRows(links)[p] == a
      {
        if i > 0 {
          assert ApprovalAt(rest, i - 1, j, p, a);
        }
      }
    }
  }

  lemma LinksAreStored(links: seq<ResolvedLink>, rec': Record)
    requires DistinctLinks(links) && rec'.links == LinkIds(links) && rec'.approvals == ApprovalRows(links)
    ensures LinksStored(links, rec')
  {
    forall p | p in rec'.approvals
      ensures exists i, j :: ApprovalAt(links, i, j, p, rec'.approvals[p])
    {
      ApprovalRowsAt(links, p);
    }
    forall i, j | 0 <= i < |links| && 0 <= j < |links[i].approvals|
      ensures var p := (links[i].purposeVersion, links[i].approvals[j].0);
              p in rec'.approvals && rec'.approvals[p] == links[i].approvals[j].1
    {
      var p := (links[i].purposeVersion, links[i].approvals[j].0);
      ApprovalRowsAt(links, p);
      assert ApprovalAt(links, i, j, p, links[i].approvals[j].1);
    }
  }

  lemma PreImageFollows(cfg: Config, cat: Catalog, org: string, rec: Record, rec': Record, id: Id, now: int,
                        reason: string, actor: Option<string>)
    requires MappingsSound(cat) && LinksIntact(rec, cat, org)
    requires rec.consent.Some? && rec.consent.value.org == org
    requires rec'.history == rec.history + PreImage(cfg, cat, rec, id, now, actor, reason)
    ensures HistoryFollows(cfg, cat, rec, rec', id, now, reason, actor)
  {
    ViewShowsRecord(rec, cat, org);
  }

  /** What a record has to be for a transaction on it to be described: owned, linked and in agreement. */
  ghost predicate Described(cfg: Config, cat: Catalog, k: Key, rec: Record) {
    && WellFormed(cfg) && MappingsSound(cat) && LinksIntact(rec, cat, k.org) && Owned(rec, k)
    && DistinctAuths(rec.auths) && StatusAgrees(cfg, rec)
  }

  // ---- Create ----

  /** A created consent: every field of the request in its place, one audit row, no history. */
  lemma CreateStores(cfg: Config, cat: Catalog, k: Key, rec: Record, tx: Tx)
    requires WellFormed(cfg) && tx.Create? && Effect(cfg, cat, k, rec, tx).Ok?
    ensures var rec' := Effect(cfg, cat, k, rec, tx).value;
            && rec.consent.None? && rec'.consent.Some?
            && NewConsentRow(k, tx.create, tx.now, rec'.consent.value)
            && Decided(cfg, rec'.auths, rec'.consent.value.status)
            && rec'.attributes == tx.create.attributes
            && NewAuthRows(cfg, tx.create.auths, tx.authIds, tx.now, rec'.auths)
            && rec'.audits == [Audit(tx.auditId, rec'.consent.value.status, None, tx.now, CREATED_AUDIT,
                                     Some(tx.create.group))]
            && rec'.history == [] && LinksStored(tx.newLinks, rec')
  {
    var rec' := Effect(cfg, cat, k, rec, tx).value;
    BuiltRows(cfg, tx.create.auths, tx.authIds, tx.now);
    InputsDeriveLikeRows(cfg, tx.create.auths, tx.authIds, tx.now);
    DerivedIsDecided(cfg, rec'.auths);
    LinksAreStored(tx.newLinks, rec');
  }

  // ---- Update ----

  /** The row of an updated consent: given fields replace, missing ones keep their value. */
  lemma UpdateStoresRow(cfg: Config, cat: Catalog, k: Key, rec: Record, tx: Tx)
    requires tx.Update? && Effect(cfg, cat, k, rec, tx).Ok?
    ensures var rec' := Effect(cfg, cat, k, rec, tx).value;
            && rec.consent.Some? && rec'.consent.Some? && rec.consent.value.group == tx.group
            && UpdatedRow(rec.consent.value, tx.update, tx.now, rec'.consent.value)
            && AuditFollows(rec, rec', tx.auditId, tx.now, UPDATED_AUDIT, Some(rec.consent.value.group))
  {
  }

  /** Its status follows from new authorizations, or from the stored ones when an expired consent is no longer
      overdue, and otherwise stays. */
  lemma UpdateStoresStatus(cfg: Config, cat: Catalog, k: Key, rec: Record, tx: Tx)
    requires WellFormed(cfg) && tx.Update? && Effect(cfg, cat, k, rec, tx).Ok?
    ensures var rec' := Effect(cfg, cat, k, rec, tx).value;
            && rec.consent.Some? && rec'.consent.Some?
            && var c, c' := rec.consent.value, rec'.consent.value;
            if tx.update.auths.Some? || (c.status == cfg.consent.expired && !Overdue(c', tx.now))
            then Decided(cfg, rec'.auths, c'.status) else c'.status == c.status
  {
    if tx.update.auths.Some? {
      InputsDeriveLikeRows(cfg, tx.update.auths.value, tx.authIds, tx.now);
    }
    DerivedIsDecided(cfg, Effect(cfg, cat, k, rec, tx).value.auths);
  }

  /** The other rows: each collection the request gives replaces, each it leaves out stays. */
  lemma UpdateStoresRest(cfg: Config, cat: Catalog, k: Key, rec: Record, tx: Tx)
    requires Described(cfg, cat, k, rec) && tx.Update? && Effect(cfg, cat, k, rec, tx).Ok?
    ensures var rec' := Effect(cfg, cat, k, rec, tx).value;
            && rec'.attributes == (if tx.update.attributes.None? then rec.attributes else tx.update.attributes.value)
            && (if tx.update.auths.None? then rec'.auths == rec.auths
                else NewAuthRows(cfg, tx.update.auths.value, tx.authIds, tx.now, rec'.auths))
            && (if tx.links.None? then rec'.links == rec.links && rec'.approvals == rec.approvals
                else LinksStored(tx.links.value, rec'))
            && HistoryFollows(cfg, cat, rec, rec', tx.historyId, tx.now, UPDATED_HISTORY, Some(tx.group))
  {
    var rec' := Effect(cfg, cat, k, rec, tx).value;
    if tx.update.auths.Some? {
      BuiltRows(cfg, tx.update.auths.value, tx.authIds, tx.now);
    }
    if tx.links.Some? {
      LinksAreStored(tx.links.value, rec');
    }
    PreImageFollows(cfg, cat, k.org, rec, rec', tx.historyId, tx.now, UPDATED_HISTORY, Some(tx.group));
  }

  // ---- Revoke and expire ----

  /** When a revocation is refused, and what it leaves otherwise. */
  lemma RevokeStores(cfg: Config, cat: Catalog, k: Key, rec: Record, tx: Tx)
    requires Described(cfg, cat, k, rec) && tx.Revoke?
    ensures var r := Effect(cfg, cat, k, rec, tx);
            if tx.actor == "" then r == Err(ValidationFailed)
            else if rec.consent.None? then r == Err(NotFound)
            else if rec.consent.value.status == cfg.consent.revoked then r == Err(AlreadyRevoked)
            else
              && r.Ok? && r.value.consent.Some? && r.value.consent.value.status == cfg.consent.revoked
              && OnlyStatus(rec.consent.value, tx.now, r.value.consent.value)
              && Marked(rec.auths, cfg.auth.sysRevoked, tx.now, r.value.auths)
              && AuditFollows(rec, r.value, tx.auditId, tx.now, tx.reason, Some(tx.actor))
              && HistoryFollows(cfg, cat, rec, r.value, tx.historyId, tx.now, REVOKED_HISTORY, Some(tx.actor))
              && r.value.attributes == rec.attributes && r.value.links == rec.links
              && r.value.approvals == rec.approvals
  {
    var r := Effect(cfg, cat, k, rec, tx);
    if r.Ok? {
      PreImageFollows(cfg, cat, k.org, rec, r.value, tx.historyId, tx.now, REVOKED_HISTORY, Some(tx.actor));
    }
  }

  /** An expiry leaves an expired consent alone and closes any other. */
  lemma ExpireStores(cfg: Config, cat: Catalog, k: Key, rec: Record, tx: Tx)
    requires Described(cfg, cat, k, rec) && tx.Expire?
    ensures var r := Effect(cfg, cat, k, rec, tx);
            if rec.consent.None? then r == Err(Internal)
            else if rec.consent.value.status == cfg.consent.expired then r == Ok(rec)
            else
              && r.Ok? && r.value.consent.Some? && r.value.consent.value.status == cfg.consent.expired
              && OnlyStatus(rec.consent.value, tx.now, r.value.consent.value)
              && Marked(rec.auths, cfg.auth.sysExpired, tx.now, r.value.auths)
              && AuditFollows(rec, r.value, tx.auditId, tx.now, EXPIRED_AUDIT, Some(SYSTEM_ACTOR))
              && HistoryFollows(cfg, cat, rec, r.value, tx.historyId, tx.now, EXPIRED_HISTORY, Some(SYSTEM_ACTOR))
              && r.value.attributes == rec.attributes && r.value.links == rec.links
              && r.value.approvals == rec.approvals
  {
    var r := Effect(cfg, cat, k, rec, tx);
    if r.Ok? && rec.consent.value.status != cfg.consent.expired {
      PreImageFollows(cfg, cat, k.org, rec, r.value, tx.historyId, tx.now, EXPIRED_HISTORY, Some(SYSTEM_ACTOR));
    }
  }

  // ---- Authorization writes ----

  /** A consent that takes authorization writes: neither revoked nor expired, whatever the letter case. */
  predicate OpenToAuths(cfg: Config, rec: Record) {
    && rec.consent.Some? && !EqualFold(rec.consent.value.status, cfg.consent.revoked)
    && !EqualFold(rec.consent.value.status, cfg.consent.expired)
  }

  /** What an authorization write leaves besides the authorizations: the status they stand for. */
  ghost predicate AuthWriteFollows(cfg: Config, cat: Catalog, rec: Record, rec': Record, auditId: Id, historyId: Id,
                                   now: int, history: string) {
    && rec.consent.Some? && rec'.consent.Some? && OnlyStatus(rec.consent.value, now, rec'.consent.value)
    && Decided(cfg, rec'.auths, rec'.consent.value.status)
    && AuditFollows(rec, rec', auditId, now, AUTH_STATUS_AUDIT, None)
    && HistoryFollows(cfg, cat, rec, rec', historyId, now, history, None)
    && rec'.attributes == rec.attributes && rec'.links == rec.links && rec'.approvals == rec.approvals
  }

  /** A status the server sets, in a request. */
  predicate SetsSystemStatus(cfg: Config, input: AuthInput) {
    input.status != "" &&
    (EqualFold(input.status, cfg.auth.sysExpired) || EqualFold(input.status, cfg.auth.sysRevoked))
  }

  lemma NewRowIsBuilt(cfg: Config, input: AuthInput, id: Id, now: int, a: Auth)
    requires NewAuthRow(cfg, input, id, now, a)
    ensures a == BuildAuth(cfg, input, id, now)
  {
    BuiltRow(cfg, input, id, now);
  }

  lemma SystemStatusOfNew(cfg: Config, input: AuthInput, id: Id, now: int)
    requires WellFormed(cfg)
    ensures IsSystemStatus(cfg, BuildAuth(cfg, input, id, now).status) <==> SetsSystemStatus(cfg, input)
  {
  }

  /** When an addition is refused, with `a` the row the request stands for. */
  lemma AddAccepted(cfg: Config, cat: Catalog, k: Key, rec: Record, tx: Tx, a: Auth)
    requires WellFormed(cfg) && tx.AddAuth? && NewAuthRow(cfg, tx.add, tx.authId, tx.now, a)
    ensures var r := Effect(cfg, cat, k, rec, tx);
            if SetsSystemStatus(cfg, tx.add) then r == Err(ValidationFailed)
            else if rec.consent.None? then r == Err(NotFound)
            else if !OpenToAuths(cfg, rec) || !WellShaped(cfg, Typed([a] + rec.auths)) then r == Err(ValidationFailed)
            else if exists i :: 0 <= i < |rec.auths| && rec.auths[i].id == tx.authId then r == Err(Internal)
            else r.Ok?
  {
    NewRowIsBuilt(cfg, tx.add, tx.authId, tx.now, a);
    SystemStatusOfNew(cfg, tx.add, tx.authId, tx.now);
  }

  /** A status change on its own, whatever else of the record is written with it. */
  lemma TransitionFollows(rec: Record, status: string, now: int, auditId: Id, reason: string, actor: Option<string>,
                          auths: seq<Auth>, history: seq<History>)
    requires rec.consent.Some?
    ensures var rec' := Transition(rec, status, now, auditId, reason, actor).(auths := auths, history := history);
            && rec'.consent.Some? && rec'.consent.value.status == status
            && OnlyStatus(rec.consent.value, now, rec'.consent.value)
            && AuditFollows(rec, rec', auditId, now, reason, actor)
            && rec'.attributes == rec.attributes && rec'.links == rec.links && rec'.approvals == rec.approvals
  {
  }

  /** What an addition leaves. */
  lemma AddStores(cfg: Config, cat: Catalog, k: Key, rec: Record, tx: Tx, a: Auth)
    requires Described(cfg, cat, k, rec) && tx.AddAuth? && Effect(cfg, cat, k, rec, tx).Ok?
    requires NewAuthRow(cfg, tx.add, tx.authId, tx.now, a)
    ensures var rec' := Effect(cfg, cat, k, rec, tx).value;
            && rec'.auths == rec.auths + [a]
            && AuthWriteFollows(cfg, cat, rec, rec', tx.auditId, tx.historyId, tx.now, AUTH_ADDED_HISTORY)
  {
    NewRowIsBuilt(cfg, tx.add, tx.authId, tx.now, a);
    DeriveOfAppended(cfg, rec.auths, a);
    DerivedIsDecided(cfg, rec.auths + [a]);
    var status := Derive(cfg, Statuses([a] + rec.auths));
    var history := rec.history + PreImage(cfg, cat, rec, tx.historyId, tx.now, None, AUTH_ADDED_HISTORY);
    TransitionFollows(rec, status, tx.now, tx.auditId, AUTH_STATUS_AUDIT, None, rec.auths + [a], history);
    var rec' := Transition(rec, status, tx.now, tx.auditId, AUTH_STATUS_AUDIT, None).(
      auths := rec.auths + [a], history := history);
    AddEffectIs(cfg, cat, k, rec, tx, a, rec');
    PreImageFollows(cfg, cat, k.org, rec, rec', tx.historyId, tx.now, AUTH_ADDED_HISTORY, None);
  }

  lemma AddEffectIs(cfg: Config, cat: Catalog, k: Key, rec: Record, tx: Tx, a: Auth, rec': Record)
    requires tx.AddAuth? && Effect(cfg, cat, k, rec, tx).Ok? && rec.consent.Some?
    requires a == BuildAuth(cfg, tx.add, tx.authId, tx.now)
    requires rec' == Transition(rec, Derive(cfg, Statuses([a] + rec.auths)), tx.now, tx.auditId, AUTH_STATUS_AUDIT,
                                None).(
      auths := rec.auths + [a],
      history := rec.history + PreImage(cfg, cat, rec, tx.historyId, tx.now, None, AUTH_ADDED_HISTORY))
    ensures Effect(cfg, cat, k, rec, tx) == Ok(rec')
  {
  }

  lemma AskedIsRequested(stored: Auth, input: AuthInput, now: int)
    ensures AuthAsked(stored, input, now, RequestedAuth(stored, input, now))
    ensures forall a :: AuthAsked(stored, input, now, a) ==> a == RequestedAuth(stored, input, now)
    ensures AuthChanged(stored, input, now, WithAuth(stored, RequestedAuth(stored, input, now)))
  {
    SpellsNormalized(input.authType);
  }

  /** The request changes the status or the type, so the whole set is checked again. */
  predicate ChangesSet(stored: Auth, a: Auth) {
    a.status != stored.status || a.authType != stored.authType
  }

  /** When a change of the `i`-th authorization is refused, with `a` what the request asks for. */
  lemma ChangeAccepted(cfg: Config, cat: Catalog, k: Key, rec: Record, tx: Tx, i: nat, a: Auth)
    requires DistinctAuths(rec.auths) && tx.ChangeAuth? && i < |rec.auths| && rec.auths[i].id == tx.authId
    requires AuthAsked(rec.auths[i], tx.change, tx.now, a)
    ensures var r := Effect(cfg, cat, k, rec, tx);
            if SetsSystemStatus(cfg, tx.change) then r == Err(ValidationFailed)
            else if rec.consent.None? then r == Err(NotFound)
            else if !OpenToAuths(cfg, rec) then r == Err(ValidationFailed)
            else if ChangesSet(rec.auths[i], a) && !WellShaped(cfg, Typed(rec.auths[i := a]))
            then r == Err(ValidationFailed)
            else r.Ok?
  {
    FoundIsUnique(rec.auths, tx.authId, i);
    AskedIsRequested(rec.auths[i], tx.change, tx.now);
    assert Replace(rec.auths, a) == rec.auths[i := a];
  }

  lemma ChangeUnknown(cfg: Config, cat: Catalog, k: Key, rec: Record, tx: Tx)
    requires tx.ChangeAuth? && forall i :: 0 <= i < |rec.auths| ==> rec.auths[i].id != tx.authId
    ensures Effect(cfg, cat, k, rec, tx) == Err(NotFound)
  {
    FoundAuth(rec.auths, tx.authId);
  }

  /** What a change leaves: the one authorization as asked for, but for its type, every other as it was, and
      the consent with the status they stand for. */
  lemma ChangeStores(cfg: Config, cat: Catalog, k: Key, rec: Record, tx: Tx, i: nat)
    requires Described(cfg, cat, k, rec) && tx.ChangeAuth? && Effect(cfg, cat, k, rec, tx).Ok?
    requires i < |rec.auths| && rec.auths[i].id == tx.authId
    ensures var rec' := Effect(cfg, cat, k, rec, tx).value;
            && |rec'.auths| == |rec.auths|
            && (forall j :: 0 <= j < |rec.auths| && j != i ==> rec'.auths[j] == rec.auths[j])
            && AuthChanged(rec.auths[i], tx.change, tx.now, rec'.auths[i])
            && AuthWriteFollows(cfg, cat, rec, rec', tx.auditId, tx.historyId, tx.now, AUTH_UPDATED_HISTORY)
  {
    var rec' := Effect(cfg, cat, k, rec, tx).value;
    FoundIsUnique(rec.auths, tx.authId, i);
    AskedIsRequested(rec.auths[i], tx.change, tx.now);
    ChangeKeepsStatusAgreement(cfg, cat, k, rec, tx);
    ChangeStaysOpen(cfg, cat, k, rec, tx);
    DerivedIsDecided(cfg, rec'.auths);
    PreImageFollows(cfg, cat, k.org, rec, rec', tx.historyId, tx.now, AUTH_UPDATED_HISTORY, None);
  }

  lemma ChangeStaysOpen(cfg: Config, cat: Catalog, k: Key, rec: Record, tx: Tx)
    requires WellFormed(cfg) && tx.ChangeAuth? && Effect(cfg, cat, k, rec, tx).Ok?
    ensures var rec' := Effect(cfg, cat, k, rec, tx).value;
            && rec'.consent.Some? && rec'.consent.value.status != cfg.consent.expired
            && rec'.consent.value.status != cfg.consent.revoked
  {
    var change := ChangeOf(FindAuth(rec.auths, tx.authId).value, tx.change, tx.now);
    DeriveIsOpen(cfg, Statuses(Replace(rec.auths, change.updated)));
  }

  /** In particular, rejecting one authorization of an open consent rejects the consent. */
  lemma RejectingRejects(cfg: Config, cat: Catalog, k: Key, rec: Record, tx: Tx, i: nat)
    requires Described(cfg, cat, k, rec) && tx.ChangeAuth? && Effect(cfg, cat, k, rec, tx).Ok?
    requires i < |rec.auths| && rec.auths[i].id == tx.authId
    requires tx.change.status != "" && EqualFold(tx.change.status, cfg.auth.rejected)
    ensures var rec' := Effect(cfg, cat, k, rec, tx).value;
            rec'.consent.Some? && rec'.consent.value.status == cfg.consent.rejected
  {
    ChangeStores(cfg, cat, k, rec, tx, i);
    assert SomeRejects(cfg, Effect(cfg, cat, k, rec, tx).value.auths);
  }
}
