/** The step list of each service transaction, proved to have the transaction's net effect. */
module StepLists {
  import opened Wrappers
  import opened Config
  import opened Rows
  import opened Records
  import opened Transactions
  import opened Lifecycle
  import opened Invariants
  import opened Refinement

  function Start(rec: Record): RecordSession {
    RecordSession(rec, false, INITIAL_VARS)
  }

  lemma RunStep(cfg: Config, cat: Catalog, s: RecordSession, step: Step, rest: seq<Step>)
    ensures RunOn(cfg, cat, s, [step] + rest) ==
            var r := PerformOn(cfg, cat, s, step);
            if r.Err? then r else RunOn(cfg, cat, r.value, rest)
  {
    assert ([step] + rest)[1..] == rest;
  }

  /** A history step never fails on an existing consent; it adds the pre-image or nothing. */
  lemma RunHistory(cfg: Config, cat: Catalog, s: RecordSession, id: Id, time: int, actor: Option<string>,
                   reason: string, rest: seq<Step>)
    requires s.rec.consent.Some?
    ensures RunOn(cfg, cat, s, [RecordHistory(id, time, actor, reason)] + rest) ==
            RunOn(cfg, cat, s.(rec := s.rec.(history := s.rec.history +
                                             PreImage(cfg, cat, s.rec, id, time, actor, reason))), rest)
  {
    RunStep(cfg, cat, s, RecordHistory(id, time, actor, reason), rest);
    ApplyHistory(cfg, cat, s.rec, id, time, actor, reason);
  }

  lemma ApplyHistory(cfg: Config, cat: Catalog, rec: Record, id: Id, time: int, actor: Option<string>, reason: string)
    requires rec.consent.Some?
    ensures ApplyAll(rec, HistoryWrites(cfg, cat, rec, id, time, actor, reason)) ==
            Ok(rec.(history := rec.history + PreImage(cfg, cat, rec, id, time, actor, reason)))
    ensures !WritesRows(HistoryWrites(cfg, cat, rec, id, time, actor, reason))
  {
    assert rec.history + [] == rec.history;
    if cfg.historyEnabled {
      var h := History(id, time, actor, reason, View(rec, cat));
      assert [InsertHistory(h)][1..] == [];
      assert ApplyAll(rec, [InsertHistory(h)]) == Ok(rec.(history := rec.history + [h]));
    }
  }

  // ---- Create ----

  function AttributeInserts(m: map<string, string>): seq<Step> {
    if m == map[] then [] else [Statement(InsertAttributes(m))]
  }

  lemma RunAttributeInserts(cfg: Config, cat: Catalog, s: RecordSession, m: map<string, string>, rest: seq<Step>)
    requires s.rec.attributes == map[] && s.wrote
    ensures RunOn(cfg, cat, s, AttributeInserts(m) + rest) == RunOn(cfg, cat, s.(rec := s.rec.(attributes := m)), rest)
  {
    if m == map[] {
      assert AttributeInserts(m) + rest == rest;
    } else {
      RunStatement(cfg, cat, s, InsertAttributes(m), rest);
      assert map[] + m == m;
    }
  }

  function CreatedAudit(c: Consent, tx: Tx): Audit
    requires tx.Create?
  {
    Audit(tx.auditId, c.status, None, tx.now, CREATED_AUDIT, Some(tx.create.group))
  }

  function CreateSteps(cfg: Config, k: Key, tx: Tx): seq<Step>
    requires tx.Create? && |tx.authIds| == |tx.create.auths|
  {
    var c := NewConsent(cfg, k, tx.create, tx.now);
    [Statement(InsertConsent(c))] + (AttributeInserts(tx.create.attributes) +
                                     ([Statement(InsertAudit(CreatedAudit(c, tx)))] +
      (InsertAuthSteps(BuildAuths(cfg, tx.create.auths, tx.authIds, tx.now)) + LinkSteps(tx.newLinks))))
  }

  lemma CreateRefines(cfg: Config, cat: Catalog, k: Key, rec: Record, tx: Tx)
    requires tx.Create? && |tx.authIds| == |tx.create.auths| && Orphanless(rec)
    ensures RunOn(cfg, cat, Start(rec), CreateSteps(cfg, k, tx)) ==
            match CreateEffect(cfg, k, rec, tx)
            case Err(e) => Err(e)
            case Ok(rec') => Ok(RecordSession(rec', true, INITIAL_VARS))
  {
    var c := NewConsent(cfg, k, tx.create, tx.now);
    var auths := BuildAuths(cfg, tx.create.auths, tx.authIds, tx.now);
    var tail := InsertAuthSteps(auths) + LinkSteps(tx.newLinks);
    var audit := CreatedAudit(c, tx);
    RunStatement(cfg, cat, Start(rec), InsertConsent(c),
                 AttributeInserts(tx.create.attributes) + ([Statement(InsertAudit(audit))] + tail));
    if rec.consent.None? {
      var s1 := RecordSession(rec.(consent := Some(c)), true, INITIAL_VARS);
      RunAttributeInserts(cfg, cat, s1, tx.create.attributes, [Statement(InsertAudit(audit))] + tail);
      var s2 := s1.(rec := s1.rec.(attributes := tx.create.attributes));
      RunCreateTail(cfg, cat, s2, audit, auths, tx.newLinks);
      assert forall i :: 0 <= i < |auths| ==> auths[i].id == tx.authIds[i];
    }
  }

  lemma RunCreateTail(cfg: Config, cat: Catalog, s: RecordSession, audit: Audit, auths: seq<Auth>,
                      links: seq<ResolvedLink>)
    requires s.wrote && s.rec.audits == [] && s.rec.auths == [] && s.rec.links == {} && s.rec.approvals == map[]
    ensures RunOn(cfg, cat, s, [Statement(InsertAudit(audit))] + (InsertAuthSteps(auths) + LinkSteps(links))) ==
            if !DistinctAuths(auths) || !DistinctLinks(links) then Err(Internal)
            else Ok(s.(rec := s.rec.(audits := [audit], auths := auths, links := LinkIds(links),
                                     approvals := ApprovalRows(links))))
  {
    RunStatement(cfg, cat, s, InsertAudit(audit), InsertAuthSteps(auths) + LinkSteps(links));
    var s' := s.(rec := s.rec.(audits := [audit]));
    assert [] + [audit] == [audit];
    FillAuths(cfg, cat, s', auths, LinkSteps(links));
    FillLinks(cfg, cat, s'.(rec := s'.rec.(auths := auths)), links);
  }

  /** Filling an empty purpose table. */
  lemma FillLinks(cfg: Config, cat: Catalog, s: RecordSession, links: seq<ResolvedLink>)
    requires s.wrote && s.rec.links == {} && s.rec.approvals == map[]
    ensures RunOn(cfg, cat, s, LinkSteps(links)) ==
            if !DistinctLinks(links) then Err(Internal)
            else Ok(s.(rec := s.rec.(links := LinkIds(links), approvals := ApprovalRows(links))))
  {
    RunLinks(cfg, cat, s, links);
    assert Linkable(s.rec, links) <==> DistinctLinks(links);
    FromEmpty(s.rec, links);
  }

  lemma FromEmpty(rec: Record, links: seq<ResolvedLink>)
    requires rec.links == {} && rec.approvals == map[]
    ensures WithLinks(rec, links) == rec.(links := LinkIds(links), approvals := ApprovalRows(links))
  {
    assert {} + LinkIds(links) == LinkIds(links);
    assert map[] + ApprovalRows(links) == ApprovalRows(links);
  }

  /** Filling an empty authorization table. */
  lemma FillAuths(cfg: Config, cat: Catalog, s: RecordSession, auths: seq<Auth>, rest: seq<Step>)
    requires s.wrote && s.rec.auths == []
    ensures RunOn(cfg, cat, s, InsertAuthSteps(auths) + rest) ==
            if !DistinctAuths(auths) then Err(Internal) else RunOn(cfg, cat, s.(rec := s.rec.(auths := auths)), rest)
  {
    RunOnConcat(cfg, cat, s, InsertAuthSteps(auths), rest);
    RunInsertAuths(cfg, cat, s, auths);
    assert [] + auths == auths;
  }

  // ---- Update ----

  function ReplaceAttributes(attributes: Option<map<string, string>>): seq<Step> {
    if attributes.None? then [] else [Statement(DeleteAttributes)] + AttributeInserts(attributes.value)
  }

  function ReplaceAuths(auths: Option<seq<Auth>>): seq<Step> {
    if auths.None? then [] else [Statement(DeleteAuths)] + InsertAuthSteps(auths.value)
  }

  function ReplaceLinks(links: Option<seq<ResolvedLink>>): seq<Step> {
    if links.None? then [] else [Statement(DeleteLinks), Statement(DeleteApprovals)] + LinkSteps(links.value)
  }

  function ChangeStatusSteps(c: Consent, status: string, audit: Audit, now: int): seq<Step> {
    if status == c.status then [] else [Statement(SetStatus(status, now)), Statement(InsertAudit(audit))]
  }

  function UpdatedAudit(c: Consent, status: string, tx: Tx): Audit
    requires tx.Update?
  {
    Audit(tx.auditId, status, Some(c.status), tx.now, UPDATED_AUDIT, Some(c.group))
  }

  function UpdatedAuths(cfg: Config, tx: Tx): Option<seq<Auth>>
    requires tx.Update? && (tx.update.auths.Some? ==> |tx.authIds| == |tx.update.auths.value|)
  {
    if tx.update.auths.None? then None else Some(BuildAuths(cfg, tx.update.auths.value, tx.authIds, tx.now))
  }

  function UpdateSteps(cfg: Config, rec: Record, tx: Tx): seq<Step>
    requires tx.Update? && rec.consent.Some? && (tx.update.auths.Some? ==> |tx.authIds| == |tx.update.auths.value|)
  {
    var c := rec.consent.value;
    var status := UpdatedStatus(cfg, rec, tx.update, tx.now);
    [RecordHistory(tx.historyId, tx.now, Some(tx.group), UPDATED_HISTORY)] +
    ([Statement(UpdateFields(MergedConsent(c, tx.update, tx.now)))] +
     (ChangeStatusSteps(c, status, UpdatedAudit(c, status, tx), tx.now) +
      (ReplaceAttributes(tx.update.attributes) + (ReplaceAuths(UpdatedAuths(cfg, tx)) + ReplaceLinks(tx.links)))))
  }

  lemma RunChangeStatus(cfg: Config, cat: Catalog, s: RecordSession, c: Consent, status: string, audit: Audit,
                        now: int, rest: seq<Step>)
    requires s.rec.consent.Some? && s.rec.consent.value.status == c.status && s.wrote
    requires audit.current == status && audit.previous == Some(c.status) && audit.time == now
    ensures RunOn(cfg, cat, s, ChangeStatusSteps(c, status, audit, now) + rest) ==
            RunOn(cfg, cat, s.(rec := Transition(s.rec, status, now, audit.id, audit.reason, audit.actor)), rest)
  {
    if status == c.status {
      assert ChangeStatusSteps(c, status, audit, now) + rest == rest;
    } else {
      assert ChangeStatusSteps(c, status, audit, now) + rest ==
             [Statement(SetStatus(status, now))] + ([Statement(InsertAudit(audit))] + rest);
      RunStatement(cfg, cat, s, SetStatus(status, now), [Statement(InsertAudit(audit))] + rest);
      var s1 := s.(rec := s.rec.(consent := Some(s.rec.consent.value.(status := status, updated := now))));
      RunStatement(cfg, cat, s1, InsertAudit(audit), rest);
    }
  }

  lemma RunReplaceAttributes(cfg: Config, cat: Catalog, s: RecordSession, attributes: Option<map<string, string>>,
                             rest: seq<Step>)
    requires s.wrote
    ensures RunOn(cfg, cat, s, ReplaceAttributes(attributes) + rest) ==
            RunOn(cfg, cat, s.(rec := s.rec.(attributes := attributes.GetOr(s.rec.attributes))), rest)
  {
    if attributes.None? {
      assert ReplaceAttributes(attributes) + rest == rest;
    } else {
      assert ReplaceAttributes(attributes) + rest == [Statement(DeleteAttributes)] +
        (AttributeInserts(attributes.value) + rest);
      RunStatement(cfg, cat, s, DeleteAttributes, AttributeInserts(attributes.value) + rest);
      RunAttributeInserts(cfg, cat, s.(rec := s.rec.(attributes := map[])), attributes.value, rest);
    }
  }

  lemma RunReplaceAuths(cfg: Config, cat: Catalog, s: RecordSession, auths: Option<seq<Auth>>, rest: seq<Step>)
    requires s.wrote
    ensures RunOn(cfg, cat, s, ReplaceAuths(auths) + rest) ==
            if auths.Some? && !DistinctAuths(auths.value) then Err(Internal)
            else RunOn(cfg, cat, s.(rec := s.rec.(auths := auths.GetOr(s.rec.auths))), rest)
  {
    if auths.None? {
      assert ReplaceAuths(auths) + rest == rest;
    } else {
      assert ReplaceAuths(auths) + rest == [Statement(DeleteAuths)] + (InsertAuthSteps(auths.value) + rest);
      RunStatement(cfg, cat, s, DeleteAuths, InsertAuthSteps(auths.value) + rest);
      var s1 := s.(rec := s.rec.(auths := []));
      FillAuths(cfg, cat, s1, auths.value, rest);
    }
  }

  lemma RunReplaceLinks(cfg: Config, cat: Catalog, s: RecordSession, links: Option<seq<ResolvedLink>>)
    requires s.wrote
    ensures RunOn(cfg, cat, s, ReplaceLinks(links)) ==
            if links.None? then Ok(s)
            else if !DistinctLinks(links.value) then Err(Internal)
            else Ok(s.(rec := s.rec.(links := LinkIds(links.value), approvals := ApprovalRows(links.value))))
  {
    if links.Some? {
      var tail := LinkSteps(links.value);
      assert ReplaceLinks(links) == [Statement(DeleteLinks)] + ([Statement(DeleteApprovals)] + tail);
      RunStatement(cfg, cat, s, DeleteLinks, [Statement(DeleteApprovals)] + tail);
      RunStatement(cfg, cat, s.(rec := s.rec.(links := {})), DeleteApprovals, tail);
      FillLinks(cfg, cat, s.(rec := s.rec.(links := {}, approvals := map[])), links.value);
    }
  }

  /** The replacing part of an update: attributes, authorizations and links. */
  function ReplaceAll(attributes: Option<map<string, string>>, auths: Option<seq<Auth>>,
                      links: Option<seq<ResolvedLink>>): seq<Step> {
    ReplaceAttributes(attributes) + (ReplaceAuths(auths) + ReplaceLinks(links))
  }

  function Replaced(rec: Record, attributes: Option<map<string, string>>, auths: Option<seq<Auth>>,
                    links: Option<seq<ResolvedLink>>): Record {
    rec.(attributes := attributes.GetOr(rec.attributes),
         auths := auths.GetOr(rec.auths),
         links := if links.Some? then LinkIds(links.value) else rec.links,
         approvals := if links.Some? then ApprovalRows(links.value) else rec.approvals)
  }

  lemma RunReplaceAll(cfg: Config, cat: Catalog, s: RecordSession, attributes: Option<map<string, string>>,
                      auths: Option<seq<Auth>>,
                      links: Option<seq<ResolvedLink>>)
    requires s.wrote
    ensures RunOn(cfg, cat, s, ReplaceAll(attributes, auths, links)) ==
            if (auths.Some? && !DistinctAuths(auths.value)) || (links.Some? && !DistinctLinks(links.value))
            then Err(Internal)
            else Ok(s.(rec := Replaced(s.rec, attributes, auths, links)))
  {
    RunReplaceAttributes(cfg, cat, s, attributes, ReplaceAuths(auths) + ReplaceLinks(links));
    var s1 := s.(rec := s.rec.(attributes := attributes.GetOr(s.rec.attributes)));
    RunReplaceAuths(cfg, cat, s1, auths, ReplaceLinks(links));
    RunReplaceLinks(cfg, cat, s1.(rec := s1.rec.(auths := auths.GetOr(s1.rec.auths))), links);
  }

  /** The recording part of an update: history, fields and status. */
  lemma RunUpdateFields(cfg: Config, cat: Catalog, rec: Record, tx: Tx, rest: seq<Step>)
    requires tx.Update? && rec.consent.Some?
    ensures var c := rec.consent.value;
            var status := UpdatedStatus(cfg, rec, tx.update, tx.now);
            var merged := MergedConsent(c, tx.update, tx.now);
            var history := rec.history + PreImage(cfg, cat, rec, tx.historyId, tx.now, Some(tx.group), UPDATED_HISTORY);
            RunOn(cfg, cat, Start(rec),
              [RecordHistory(tx.historyId, tx.now, Some(tx.group), UPDATED_HISTORY)] +
                ([Statement(UpdateFields(merged))] +
                (ChangeStatusSteps(c, status, UpdatedAudit(c, status, tx), tx.now) + rest))) ==
            RunOn(cfg, cat, RecordSession(
              Transition(rec.(history := history, consent := Some(merged)), status, tx.now, tx.auditId, UPDATED_AUDIT,
                         Some(c.group)),
              true, INITIAL_VARS), rest)
  {
    var c := rec.consent.value;
    var status := UpdatedStatus(cfg, rec, tx.update, tx.now);
    var merged := MergedConsent(c, tx.update, tx.now);
    var audit := UpdatedAudit(c, status, tx);
    var change := ChangeStatusSteps(c, status, audit, tx.now) + rest;
    var history := rec.history + PreImage(cfg, cat, rec, tx.historyId, tx.now, Some(tx.group), UPDATED_HISTORY);
    RunHistory(cfg, cat, Start(rec), tx.historyId, tx.now, Some(tx.group), UPDATED_HISTORY,
               [Statement(UpdateFields(merged))] + change);
    RunStatement(cfg, cat, Start(rec.(history := history)), UpdateFields(merged), change);
    assert WithFields(c, merged) == merged;
    RunChangeStatus(cfg, cat, RecordSession(rec.(history := history, consent := Some(merged)), true, INITIAL_VARS), c,
                    status, audit,
                    tx.now, rest);
  }

  /** The record once history, fields and status are written. */
  function Moved(cfg: Config, cat: Catalog, rec: Record, tx: Tx): Record
    requires tx.Update? && rec.consent.Some?
  {
    var c := rec.consent.value;
    var history := rec.history + PreImage(cfg, cat, rec, tx.historyId, tx.now, Some(tx.group), UPDATED_HISTORY);
    Transition(rec.(history := history, consent := Some(MergedConsent(c, tx.update, tx.now))),
               UpdatedStatus(cfg, rec, tx.update, tx.now), tx.now, tx.auditId, UPDATED_AUDIT, Some(c.group))
  }

  /** The update effect in the order of the step list. */
  lemma UpdateEffectInOrder(cfg: Config, cat: Catalog, rec: Record, tx: Tx)
    requires tx.Update? && rec.consent.Some? && rec.consent.value.group == tx.group
    requires tx.update.auths.Some? ==> |tx.authIds| == |tx.update.auths.value|
    ensures var auths := UpdatedAuths(cfg, tx);
            UpdateEffect(cfg, cat, rec, tx) ==
            if (auths.Some? && !DistinctAuths(auths.value)) || (tx.links.Some? && !DistinctLinks(tx.links.value))
            then Err(Internal)
            else Ok(Replaced(Moved(cfg, cat, rec, tx), tx.update.attributes, auths, tx.links))
  {
    var auths := UpdatedAuths(cfg, tx);
    if auths.Some? {
      assert forall i :: 0 <= i < |auths.value| ==> auths.value[i].id == tx.authIds[i];
    }
  }

  lemma UpdateRefines(cfg: Config, cat: Catalog, rec: Record, tx: Tx)
    requires tx.Update? && rec.consent.Some? && rec.consent.value.group == tx.group
    requires tx.update.auths.Some? ==> |tx.authIds| == |tx.update.auths.value|
    ensures RunOn(cfg, cat, Start(rec), UpdateSteps(cfg, rec, tx)) ==
            match UpdateEffect(cfg, cat, rec, tx)
            case Err(e) => Err(e)
            case Ok(rec') => Ok(RecordSession(rec', true, INITIAL_VARS))
  {
    var auths := UpdatedAuths(cfg, tx);
    RunUpdateFields(cfg, cat, rec, tx, ReplaceAll(tx.update.attributes, auths, tx.links));
    RunReplaceAll(cfg, cat, RecordSession(Moved(cfg, cat, rec, tx), true, INITIAL_VARS), tx.update.attributes, auths,
                  tx.links);
    UpdateEffectInOrder(cfg, cat, rec, tx);
  }

  // ---- Revoke ----

  function RevokeSteps(cfg: Config, c: Consent, tx: Tx): seq<Step>
    requires tx.Revoke?
  {
    [RecordHistory(tx.historyId, tx.now, Some(tx.actor), REVOKED_HISTORY)] +
    ([Statement(SetStatus(cfg.consent.revoked, tx.now))] +
     ([Statement(SetAllAuthStatus(cfg.auth.sysRevoked, tx.now))] +
      ([Statement(InsertAudit(Audit(tx.auditId, cfg.consent.revoked, Some(c.status), tx.now, tx.reason,
                                    Some(tx.actor))))] + [])))
  }

  lemma RevokeRefines(cfg: Config, cat: Catalog, rec: Record, tx: Tx)
    requires tx.Revoke? && tx.actor != "" && rec.consent.Some? && rec.consent.value.status != cfg.consent.revoked
    ensures RunOn(cfg, cat, Start(rec), RevokeSteps(cfg, rec.consent.value, tx)) ==
            Ok(RecordSession(RevokeEffect(cfg, cat, rec, tx).value, true, INITIAL_VARS))
  {
    var c := rec.consent.value;
    var audit := Audit(tx.auditId, cfg.consent.revoked, Some(c.status), tx.now, tx.reason, Some(tx.actor));
    var t1 := [Statement(InsertAudit(audit))] + [];
    var t2 := [Statement(SetAllAuthStatus(cfg.auth.sysRevoked, tx.now))] + t1;
    var t3 := [Statement(SetStatus(cfg.consent.revoked, tx.now))] + t2;
    RunHistory(cfg, cat, Start(rec), tx.historyId, tx.now, Some(tx.actor), REVOKED_HISTORY, t3);
    var s1 := Start(rec.(history := rec.history +
                         PreImage(cfg, cat, rec, tx.historyId, tx.now, Some(tx.actor), REVOKED_HISTORY)));
    RunStatement(cfg, cat, s1, SetStatus(cfg.consent.revoked, tx.now), t2);
    var s2 := RecordSession(s1.rec.(consent := Some(c.(status := cfg.consent.revoked, updated := tx.now))), true,
                            INITIAL_VARS);
    RunStatement(cfg, cat, s2, SetAllAuthStatus(cfg.auth.sysRevoked, tx.now), t1);
    var s3 := s2.(rec := s2.rec.(auths := Restatus(rec.auths, cfg.auth.sysRevoked, tx.now)));
    RunStatement(cfg, cat, s3, InsertAudit(audit), []);
  }

  // ---- Expire ----

  function ExpireSteps(cfg: Config, tx: Tx): seq<Step>
    requires tx.Expire?
  {
    [LockForExpiry(tx.historyId, tx.now)] +
    ([IfExpiring(SetStatus(cfg.consent.expired, tx.now))] +
     ([IfExpiring(SetAllAuthStatus(cfg.auth.sysExpired, tx.now))] + ([ExpiryAudit(tx.auditId, tx.now)] + [])))
  }

  /** The variables an expiry ends with tell whether it expired anything. */
  function ExpiryVars(cfg: Config, c: Consent): Vars {
    if c.status == cfg.consent.expired then INITIAL_VARS.(expiring := false) else INITIAL_VARS.(previous := c.status)
  }

  lemma RunIfExpiring(cfg: Config, cat: Catalog, s: RecordSession, w: Write, rest: seq<Step>)
    requires !w.InsertHistory?
    ensures RunOn(cfg, cat, s, [IfExpiring(w)] + rest) ==
            if !s.vars.expiring then RunOn(cfg, cat, s, rest)
            else if Apply(s.rec, w).Err? then Err(Internal)
            else RunOn(cfg, cat, s.(rec := Apply(s.rec, w).value, wrote := true), rest)
  {
    RunStep(cfg, cat, s, IfExpiring(w), rest);
    if s.vars.expiring {
      assert [w][0] == w && [w][1..] == [];
      assert WritesRows([w]);
      match Apply(s.rec, w)
      case Err(_) =>
      case Ok(rec) => assert ApplyAll(s.rec, [w]) == Ok(rec);
    }
  }

  lemma ExpireRefines(cfg: Config, cat: Catalog, rec: Record, tx: Tx)
    requires tx.Expire?
    ensures RunOn(cfg, cat, Start(rec), ExpireSteps(cfg, tx)) ==
            match ExpireEffect(cfg, cat, rec, tx)
            case Err(e) => Err(e)
            case Ok(rec') => Ok(RecordSession(rec', rec.consent.value.status != cfg.consent.expired,
                                              ExpiryVars(cfg, rec.consent.value)))
  {
    var audit := [ExpiryAudit(tx.auditId, tx.now)] + [];
    var auths := [IfExpiring(SetAllAuthStatus(cfg.auth.sysExpired, tx.now))] + audit;
    var status := [IfExpiring(SetStatus(cfg.consent.expired, tx.now))] + auths;
    RunStep(cfg, cat, Start(rec), LockForExpiry(tx.historyId, tx.now), status);
    if rec.consent.Some? {
      var c := rec.consent.value;
      var vars := ExpiryVars(cfg, c);
      if c.status == cfg.consent.expired {
        var s := Start(rec).(vars := vars);
        RunIfExpiring(cfg, cat, s, SetStatus(cfg.consent.expired, tx.now), auths);
        RunIfExpiring(cfg, cat, s, SetAllAuthStatus(cfg.auth.sysExpired, tx.now), audit);
        RunStep(cfg, cat, s, ExpiryAudit(tx.auditId, tx.now), []);
      } else {
        ApplyHistory(cfg, cat, rec, tx.historyId, tx.now, Some(SYSTEM_ACTOR), EXPIRED_HISTORY);
        var history := rec.history + PreImage(cfg, cat, rec, tx.historyId, tx.now, Some(SYSTEM_ACTOR), EXPIRED_HISTORY);
        var s1 := RecordSession(rec.(history := history), false, vars);
        RunIfExpiring(cfg, cat, s1, SetStatus(cfg.consent.expired, tx.now), auths);
        var s2 := s1.(rec := s1.rec.(consent := Some(c.(status := cfg.consent.expired, updated := tx.now))),
                      wrote := true);
        RunIfExpiring(cfg, cat, s2, SetAllAuthStatus(cfg.auth.sysExpired, tx.now), audit);
        var s3 := s2.(rec := s2.rec.(auths := Restatus(rec.auths, cfg.auth.sysExpired, tx.now)));
        RunExpiryAudit(cfg, cat, s3, tx, c.status);
      }
    }
  }

  lemma RunExpiryAudit(cfg: Config, cat: Catalog, s: RecordSession, tx: Tx, previous: string)
    requires tx.Expire? && s.wrote && s.vars.expiring && s.vars.previous == previous
    ensures RunOn(cfg, cat, s, [ExpiryAudit(tx.auditId, tx.now)] + []) ==
            Ok(s.(rec := s.rec.(audits := s.rec.audits +
              [Audit(tx.auditId, cfg.consent.expired, Some(previous), tx.now, EXPIRED_AUDIT, Some(SYSTEM_ACTOR))])))
  {
    var w := InsertAudit(Audit(tx.auditId, cfg.consent.expired, Some(previous), tx.now, EXPIRED_AUDIT,
                               Some(SYSTEM_ACTOR)));
    RunStep(cfg, cat, s, ExpiryAudit(tx.auditId, tx.now), []);
    assert [w][1..] == [];
    assert ApplyAll(s.rec, [w]) == Ok(s.rec.(audits := s.rec.audits + [w.audit]));
  }

  // ---- Authorization writes ----

  function AuthWriteSteps(change: AuthChange, w: Write, reason: string, tx: Tx): seq<Step>
    requires tx.AddAuth? || tx.ChangeAuth?
  {
    [LockForAuthWrite(change)] +
    ([RecordHistory(tx.historyId, tx.now, None, reason)] +
     ([Statement(w)] + ([DerivedStatus(tx.auditId, tx.now, AUTH_STATUS_AUDIT)] + [])))
  }

  function AddAuthSteps(cfg: Config, tx: Tx): seq<Step>
    requires tx.AddAuth?
  {
    var auth := BuildAuth(cfg, tx.add, tx.authId, tx.now);
    AuthWriteSteps(Adding(auth), InsertAuth(auth), AUTH_ADDED_HISTORY, tx)
  }

  function ChangeAuthSteps(stored: Auth, tx: Tx): seq<Step>
    requires tx.ChangeAuth?
  {
    var change := ChangeOf(stored, tx.change, tx.now);
    AuthWriteSteps(change, UpdateAuth(change.updated), AUTH_UPDATED_HISTORY, tx)
  }

  /** The closing step of an authorization write moves the status to what was derived. */
  lemma RunDerivedStatus(cfg: Config, cat: Catalog, s: RecordSession, auditId: Id, time: int, reason: string)
    requires s.wrote && s.rec.consent.Some? && s.vars.previous == s.rec.consent.value.status
    ensures RunOn(cfg, cat, s, [DerivedStatus(auditId, time, reason)] + []) ==
            Ok(s.(rec := Transition(s.rec, if s.vars.derive then s.vars.derived else s.vars.previous, time, auditId,
                                    reason, None)))
  {
    RunStep(cfg, cat, s, DerivedStatus(auditId, time, reason), []);
    if s.vars.derive && s.vars.previous != s.vars.derived {
      var w0 := SetStatus(s.vars.derived, time);
      var w1 := InsertAudit(Audit(auditId, s.vars.derived, Some(s.vars.previous), time, reason, None));
      var rec1 := s.rec.(consent := Some(s.rec.consent.value.(status := s.vars.derived, updated := time)));
      assert [w0, w1][1..] == [w1] && [w1][1..] == [];
      assert ApplyAll(rec1, [w1]) == Ok(rec1.(audits := rec1.audits + [w1.audit]));
      assert ApplyAll(s.rec, [w0, w1]) == ApplyAll(rec1, [w1]);
    }
  }

  lemma AuthWriteRuns(cfg: Config, cat: Catalog, rec: Record, tx: Tx, change: AuthChange, w: Write, reason: string)
    requires (tx.AddAuth? && w.InsertAuth?) || (tx.ChangeAuth? && w.UpdateAuth?)
    ensures RunOn(cfg, cat, Start(rec), AuthWriteSteps(change, w, reason, tx)) ==
            match PlanAuthWrite(cfg, rec, INITIAL_VARS, change)
            case Abort(e) => Err(e)
            case Do(_, vars) => (
              match Apply(rec, w)
              case Err(_) => Err(Internal)
              case Ok(rec') => Ok(RecordSession(
                Transition(rec', if vars.derive then vars.derived else vars.previous, tx.now, tx.auditId,
                           AUTH_STATUS_AUDIT, None).(
                  history := rec.history + PreImage(cfg, cat, rec, tx.historyId, tx.now, None, reason)),
                true, vars)))
  {
    var t1 := [DerivedStatus(tx.auditId, tx.now, AUTH_STATUS_AUDIT)] + [];
    var t3 := [RecordHistory(tx.historyId, tx.now, None, reason)] + ([Statement(w)] + t1);
    RunStep(cfg, cat, Start(rec), LockForAuthWrite(change), t3);
    var plan := PlanAuthWrite(cfg, rec, INITIAL_VARS, change);
    if plan.Do? {
      AuthWriteTail(cfg, cat, rec, tx, w, reason, plan.vars);
    }
  }

  /** An authorization write once its lock and checks have passed. */
  lemma AuthWriteTail(cfg: Config, cat: Catalog, rec: Record, tx: Tx, w: Write, reason: string, vars: Vars)
    requires (tx.AddAuth? && w.InsertAuth?) || (tx.ChangeAuth? && w.UpdateAuth?)
    requires rec.consent.Some? && vars.previous == rec.consent.value.status
    ensures RunOn(cfg, cat, RecordSession(rec, false, vars),
                  [RecordHistory(tx.historyId, tx.now, None, reason)] +
                  ([Statement(w)] + ([DerivedStatus(tx.auditId, tx.now, AUTH_STATUS_AUDIT)] + []))) ==
            if Apply(rec, w).Err? then Err(Internal)
            else Ok(RecordSession(
              Transition(Apply(rec, w).value, if vars.derive then vars.derived else vars.previous, tx.now, tx.auditId,
                         AUTH_STATUS_AUDIT, None).(
                history := rec.history + PreImage(cfg, cat, rec, tx.historyId, tx.now, None, reason)),
              true, vars))
  {
    var t1 := [DerivedStatus(tx.auditId, tx.now, AUTH_STATUS_AUDIT)] + [];
    var s1 := RecordSession(rec, false, vars);
    RunHistory(cfg, cat, s1, tx.historyId, tx.now, None, reason, [Statement(w)] + t1);
    var s2 := s1.(rec := rec.(history := rec.history + PreImage(cfg, cat, rec, tx.historyId, tx.now, None, reason)));
    RunStatement(cfg, cat, s2, w, t1);
    if Apply(s2.rec, w).Ok? {
      RunDerivedStatus(cfg, cat, RecordSession(Apply(s2.rec, w).value, true, vars), tx.auditId, tx.now,
                       AUTH_STATUS_AUDIT);
    }
  }

  lemma AddAuthRefines(cfg: Config, cat: Catalog, rec: Record, tx: Tx)
    requires tx.AddAuth? && !IsSystemStatus(cfg, BuildAuth(cfg, tx.add, tx.authId, tx.now).status)
    ensures var ran := RunOn(cfg, cat, Start(rec), AddAuthSteps(cfg, tx));
            var effect := AddAuthEffect(cfg, cat, rec, tx);
            if effect.Err? then ran == Err(effect.error)
            else ran.Ok? && ran.value.rec == effect.value && ran.value.wrote
  {
    var auth := BuildAuth(cfg, tx.add, tx.authId, tx.now);
    AuthWriteRuns(cfg, cat, rec, tx, Adding(auth), InsertAuth(auth), AUTH_ADDED_HISTORY);
  }

  lemma ChangeAuthRefines(cfg: Config, cat: Catalog, rec: Record, tx: Tx)
    requires tx.ChangeAuth? && FindAuth(rec.auths, tx.authId).Some?
    requires tx.change.status == "" || !IsSystemStatus(cfg, tx.change.status)
    ensures var ran := RunOn(cfg, cat, Start(rec), ChangeAuthSteps(FindAuth(rec.auths, tx.authId).value, tx));
            var effect := ChangeAuthEffect(cfg, cat, rec, tx);
            if effect.Err? then ran == Err(effect.error)
            else ran.Ok? && ran.value.rec == effect.value && ran.value.wrote
  {
    var change := ChangeOf(FindAuth(rec.auths, tx.authId).value, tx.change, tx.now);
    AuthWriteRuns(cfg, cat, rec, tx, change, UpdateAuth(change.updated), AUTH_UPDATED_HISTORY);
  }
}
