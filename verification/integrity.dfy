/** Integrity of the whole database: the catalogue is sound, every consent stands on it, and with
    history enabled each consent's snapshots replay its life. */
module Integrity {
  import opened Wrappers
  import opened Config
  import opened Rows
  import opened Records
  import opened Tables
  import opened Transactions
  import opened Lifecycle
  import opened Invariants
  import opened Refinement
  import opened TableRuns

  // ---- The catalogue ----

  ghost predicate RowsKeyed(cat: Catalog) {
    && (forall v :: v in cat.purposes ==> cat.purposes[v].versionId == v && cat.purposes[v].num >= 1)
    && (forall v :: v in cat.elements ==> cat.elements[v].versionId == v && cat.elements[v].num >= 1)
  }

  /** A mapping joins an existing purpose version to an existing element version of its organization. */
  predicate MappingSound(cat: Catalog, p: (Id, Id)) {
    && p.0 in cat.purposes && p.1 in cat.elements && p in cat.mappings
    && cat.mappings[p].org == cat.purposes[p.0].org == cat.elements[p.1].org
  }

  ghost predicate MappingsSound(cat: Catalog) {
    forall p :: p in cat.mappings ==> MappingSound(cat, p)
  }

  /** Two purpose version rows of one organization: one identifier means one name and one group and
      different numbers; one name in one group means one identifier; and an organization-level name
      (the group is the organization) is used by nothing else in it. */
  predicate PurposesAgree(p: PurposeVersion, q: PurposeVersion) {
    p.org == q.org ==>
      && (p.id == q.id ==> p.name == q.name && p.group == q.group)
      && (p.id == q.id && p.num == q.num ==> p.versionId == q.versionId)
      && (p.name == q.name && (p.group == q.group || p.group == p.org || q.group == q.org) ==> p.id == q.id)
  }

  ghost predicate PurposesUnambiguous(cat: Catalog) {
    forall u, v :: u in cat.purposes && v in cat.purposes ==> PurposesAgree(cat.purposes[u], cat.purposes[v])
  }

  predicate ElementsAgree(e: ElementVersion, f: ElementVersion) {
    e.org == f.org ==>
      && (e.id == f.id ==> e.name == f.name && e.namespace == f.namespace && e.elementType == f.elementType)
      && (e.id == f.id && e.num == f.num ==> e.versionId == f.versionId)
      && (e.name == f.name && e.namespace == f.namespace ==> e.id == f.id)
  }

  ghost predicate ElementsUnambiguous(cat: Catalog) {
    forall u, v :: u in cat.elements && v in cat.elements ==> ElementsAgree(cat.elements[u], cat.elements[v])
  }

  ghost predicate CatalogSound(cat: Catalog) {
    RowsKeyed(cat) && MappingsSound(cat) && PurposesUnambiguous(cat) && ElementsUnambiguous(cat)
  }

  // ---- Consents on the catalogue ----

  /** A consent links to existing purpose versions of its organization, and has exactly one approval
      row per element mapped to a linked version. */
  ghost predicate LinksIntact(rec: Record, cat: Catalog, org: string) {
    && (forall pv :: pv in rec.links ==> pv in cat.purposes && cat.purposes[pv].org == org)
    && (forall p :: p in rec.approvals <==> p.0 in rec.links && p in cat.mappings)
  }

  predicate Owned(rec: Record, k: Key) {
    rec.consent.Some? ==> rec.consent.value.id == k.id && rec.consent.value.org == k.org
  }

  ghost predicate ConsentGood(cfg: Config, t: Tables, k: Key) {
    && RecordInvariant(cfg, Project(t, k))
    && Owned(Project(t, k), k)
    && LinksIntact(Project(t, k), t.catalog, k.org)
  }

  // ---- History ----

  function Snapshots(history: seq<History>): seq<ConsentView> {
    seq(|history|, i requires 0 <= i < |history| => history[i].snapshot)
  }

  /** The successive states a consent was committed in: one view per committed transaction that
      wrote it, oldest first. */
  function Timeline(log: seq<Commit>, k: Key): seq<ConsentView> {
    if log == [] then []
    else
      var last := log[|log| - 1];
      var rec := Project(last.after, k);
      Timeline(log[..|log| - 1], k) +
        if k in last.wrote && rec.consent.Some? then [View(rec, last.after.catalog)] else []
  }

  /** The snapshots in append order, followed by the current state, are the consent's timeline. A
      consent that does not exist has none. */
  ghost predicate HistoryReplays(cfg: Config, t: Tables, log: seq<Commit>, k: Key) {
    var rec := Project(t, k);
    && (rec.consent.None? ==> Timeline(log, k) == [])
    && (rec.consent.Some? && cfg.historyEnabled ==> Snapshots(rec.history) + [View(rec, t.catalog)] == Timeline(log, k))
    && (rec.consent.Some? && !cfg.historyEnabled ==> rec.history == [])
  }

  /** The state of the system between two service calls. */
  ghost predicate Good(cfg: Config, t: Tables, log: seq<Commit>) {
    && WellFormed(cfg)
    && UniqueAuths(t)
    && CatalogSound(t.catalog)
    && (forall k :: ConsentGood(cfg, t, k))
    && (forall k :: HistoryReplays(cfg, t, log, k))
  }

  lemma EmptyIsGood(cfg: Config)
    requires WellFormed(cfg)
    ensures Good(cfg, EMPTY_TABLES, [])
  {
    forall k
      ensures ConsentGood(cfg, EMPTY_TABLES, k) && HistoryReplays(cfg, EMPTY_TABLES, [], k)
    {
      assert Project(EMPTY_TABLES, k) == EMPTY;
    }
  }

  // ---- Links through transactions ----

  /** A resolved link names an existing purpose version and carries one approval per mapped element. */
  ghost predicate LinkGrounded(cat: Catalog, org: string, link: ResolvedLink) {
    && link.purposeVersion in cat.purposes && cat.purposes[link.purposeVersion].org == org
    && forall ev :: HasApproval(link.approvals, ev) <==> (link.purposeVersion, ev) in cat.mappings
  }

  predicate HasApproval(approvals: seq<(Id, Approval)>, ev: Id) {
    exists i :: 0 <= i < |approvals| && approvals[i].0 == ev
  }

  ghost predicate LinksGrounded(cat: Catalog, org: string, links: seq<ResolvedLink>) {
    forall i :: 0 <= i < |links| ==> LinkGrounded(cat, org, links[i])
  }

  ghost predicate Grounded(cat: Catalog, k: Key, tx: Tx) {
    && (tx.Create? ==> LinksGrounded(cat, k.org, tx.newLinks))
    && (tx.Update? && tx.links.Some? ==> LinksGrounded(cat, k.org, tx.links.value))
  }

  lemma {:induction false} GroundedApprovals(cat: Catalog, org: string, links: seq<ResolvedLink>)
    requires LinksGrounded(cat, org, links)
    ensures forall p :: p in ApprovalRows(links) <==> p.0 in LinkIds(links) && p in cat.mappings
    decreases |links|
  {
    if links != [] {
      var link, rest := links[0], links[1..];
      GroundedApprovals(cat, org, rest);
      LinkApprovalsKeys(link.purposeVersion, link.approvals);
      LinkIdsStep(links);
      forall p
        ensures p in LinkApprovals(link.purposeVersion, link.approvals) <==>
          p.0 == link.purposeVersion && p in cat.mappings
      {
        assert HasApproval(link.approvals, p.1) <==> (link.purposeVersion, p.1) in cat.mappings;
      }
    }
  }

  lemma EffectKeepsLinks(cfg: Config, cat: Catalog, k: Key, rec: Record, tx: Tx)
    requires LinksIntact(rec, cat, k.org) && Grounded(cat, k, tx) && Effect(cfg, cat, k, rec, tx).Ok?
    ensures LinksIntact(Effect(cfg, cat, k, rec, tx).value, cat, k.org)
  {
    if tx.Create? {
      GroundedApprovals(cat, k.org, tx.newLinks);
    } else if tx.Update? && tx.links.Some? {
      GroundedApprovals(cat, k.org, tx.links.value);
    }
  }

  lemma EffectKeepsOwner(cfg: Config, cat: Catalog, k: Key, rec: Record, tx: Tx)
    requires Owned(rec, k) && Effect(cfg, cat, k, rec, tx).Ok?
    ensures Owned(Effect(cfg, cat, k, rec, tx).value, k)
  {
  }

  // ---- History through transactions ----

  /** Whether the transaction writes anything: all do, except expiring an expired consent. */
  predicate Writes(cfg: Config, rec: Record, tx: Tx) {
    tx.Expire? && rec.consent.Some? ==> rec.consent.value.status != cfg.consent.expired
  }

  /** Every transaction on an existing consent records exactly its pre-image, and one that writes
      nothing records nothing. */
  lemma EffectRecordsPreImage(cfg: Config, cat: Catalog, k: Key, rec: Record, tx: Tx)
    requires Orphanless(rec) && Effect(cfg, cat, k, rec, tx).Ok?
    ensures var rec' := Effect(cfg, cat, k, rec, tx).value;
            && (tx.Create? <==> rec.consent.None?)
            && (tx.Create? ==> rec'.history == [])
            && (!tx.Create? && Writes(cfg, rec, tx) ==>
                  Snapshots(rec'.history) ==
                    Snapshots(rec.history) + if cfg.historyEnabled then [View(rec, cat)] else [])
            && (!Writes(cfg, rec, tx) ==> rec' == rec)
  {
    if rec.consent.Some? && Writes(cfg, rec, tx) {
      var rec' := Effect(cfg, cat, k, rec, tx).value;
      assert cfg.historyEnabled ==>
        |rec'.history| == |rec.history| + 1 && rec'.history[|rec.history|].snapshot == View(rec, cat);
    }
    if tx.ChangeAuth? && rec.consent.None? {
      assert FindAuth(rec.auths, tx.authId).None?;
    }
  }

  // ---- A committed transaction keeps everything ----

  lemma TimelineAppend(log: seq<Commit>, c: Commit, k: Key)
    ensures Timeline(log + [c], k) == Timeline(log, k) +
              if k in c.wrote && Project(c.after, k).consent.Some?
              then [View(Project(c.after, k), c.after.catalog)] else []
  {
    assert (log + [c])[..|log|] == log;
  }

  lemma WrittenConsentReplays(cfg: Config, t: Tables, log: seq<Commit>, k: Key, tx: Tx, s: Session)
    requires Good(cfg, t, log)
    requires Effect(cfg, t.catalog, k, Project(t, k), tx).Ok?
    requires Project(s.tables, k) == Effect(cfg, t.catalog, k, Project(t, k), tx).value
    requires s.tables.catalog == t.catalog
    requires s.wrote == if Writes(cfg, Project(t, k), tx) then {k} else {}
    requires Project(s.tables, k).consent.Some?
    ensures HistoryReplays(cfg, s.tables, log + [Commit(s.tables, s.wrote)], k)
  {
    var rec := Project(t, k);
    assert ConsentGood(cfg, t, k) && HistoryReplays(cfg, t, log, k);
    EffectRecordsPreImage(cfg, t.catalog, k, rec, tx);
    TimelineAppend(log, Commit(s.tables, s.wrote), k);
    if !cfg.historyEnabled && !tx.Create? {
      assert |Snapshots(rec.history)| == 0;
      assert |Snapshots(Project(s.tables, k).history)| == |Project(s.tables, k).history|;
    }
  }

  lemma OtherConsentReplays(cfg: Config, t: Tables, log: seq<Commit>, k: Key, t': Tables, wrote: set<Key>)
    requires HistoryReplays(cfg, t, log, k)
    requires Project(t', k) == Project(t, k) && k !in wrote
    requires Project(t, k).consent.Some? ==> View(Project(t, k), t'.catalog) == View(Project(t, k), t.catalog)
    ensures HistoryReplays(cfg, t', log + [Commit(t', wrote)], k)
  {
    TimelineAppend(log, Commit(t', wrote), k);
  }

  /** A committed session that has the effect of `tx` on its consent and touched nothing else. */
  ghost predicate Landed(cfg: Config, t: Tables, k: Key, tx: Tx, s: Session) {
    && Effect(cfg, t.catalog, k, Project(t, k), tx) == Ok(Project(s.tables, k))
    && s.wrote == (if Writes(cfg, Project(t, k), tx) then {k} else {})
    && Advances(t, s.tables, k)
  }

  lemma LandedConsentGood(cfg: Config, t: Tables, log: seq<Commit>, k: Key, tx: Tx, s: Session)
    requires Good(cfg, t, log) && HandlerAccepts(cfg, tx) && Grounded(t.catalog, k, tx)
    requires Landed(cfg, t, k, tx, s)
    ensures ConsentGood(cfg, s.tables, k)
    ensures HistoryReplays(cfg, s.tables, log + [Commit(s.tables, s.wrote)], k)
  {
    assert ConsentGood(cfg, t, k);
    EffectKeepsInvariant(cfg, t.catalog, k, Project(t, k), tx);
    EffectKeepsLinks(cfg, t.catalog, k, Project(t, k), tx);
    EffectKeepsOwner(cfg, t.catalog, k, Project(t, k), tx);
    WrittenConsentReplays(cfg, t, log, k, tx, s);
  }

  lemma LandedOthersGood(cfg: Config, t: Tables, log: seq<Commit>, k: Key, s: Session, k': Key)
    requires Good(cfg, t, log) && Advances(t, s.tables, k) && s.wrote <= {k} && k' != k
    ensures ConsentGood(cfg, s.tables, k')
    ensures HistoryReplays(cfg, s.tables, log + [Commit(s.tables, s.wrote)], k')
  {
    assert Untouched(t, s.tables, k');
    assert ConsentGood(cfg, t, k') && HistoryReplays(cfg, t, log, k');
    OtherConsentReplays(cfg, t, log, k', s.tables, s.wrote);
  }

  /** A transaction that lands leaves the whole system good. */
  lemma LandedKeepsGood(cfg: Config, t: Tables, log: seq<Commit>, k: Key, tx: Tx, s: Session)
    requires Good(cfg, t, log) && HandlerAccepts(cfg, tx) && Grounded(t.catalog, k, tx)
    requires Landed(cfg, t, k, tx, s)
    ensures Good(cfg, s.tables, log + [Commit(s.tables, s.wrote)])
  {
    forall k'
      ensures ConsentGood(cfg, s.tables, k')
      ensures HistoryReplays(cfg, s.tables, log + [Commit(s.tables, s.wrote)], k')
    {
      if k' == k {
        LandedConsentGood(cfg, t, log, k, tx, s);
      } else {
        LandedOthersGood(cfg, t, log, k, s, k');
      }
    }
  }

  /** What it takes for a step list to implement a transaction on the record of its consent. */
  ghost predicate Implements(cfg: Config, cat: Catalog, k: Key, rec: Record, steps: seq<Step>, tx: Tx) {
    var r := RunOn(cfg, cat, RecordSession(rec, false, INITIAL_VARS), steps);
    var effect := Effect(cfg, cat, k, rec, tx);
    if effect.Err? then r == Err(effect.error)
    else r.Ok? && r.value.rec == effect.value && r.value.wrote == Writes(cfg, rec, tx)
  }

  /** A step list that implements a transaction lands it when the transaction commits; without store
      failures and key clashes it commits exactly when the transaction has an effect. */
  lemma ImplementedLands(cfg: Config, t: Tables, k: Key, tx: Tx, steps: seq<Step>, faults: Faults)
    requires UniqueAuths(t) && Runnable(t, k, steps)
    requires Implements(cfg, t.catalog, k, Project(t, k), steps, tx)
    ensures Transact(cfg, t, OnAll(k, steps), faults).Ok? ==>
              Landed(cfg, t, k, tx, Transact(cfg, t, OnAll(k, steps), faults).value)
    ensures Transact(cfg, t, OnAll(k, steps), faults).Err? && !Hits(faults, |steps|) && ClearToRun(t, k, steps) ==>
              Effect(cfg, t.catalog, k, Project(t, k), tx) == Err(Transact(cfg, t, OnAll(k, steps), faults).error)
  {
    TransactRefines(cfg, t, k, steps, faults);
  }
}
