/** The background job: expire every selected consent, each in its own transaction, whatever happens
    to the others. */
module ExpirationJob {
  import opened Wrappers
  import opened Config
  import opened Rows
  import opened Records
  import opened Tables
  import opened Transactions
  import opened Lifecycle
  import opened Invariants
  import opened TableRuns
  import opened Integrity
  import opened PurposeResolution
  import opened ConsentService

  /** EXPIRATION_TIME < ? AND CURRENT_STATUS IN (...) */
  predicate SelectedRow(c: Consent, now: int, eligible: seq<string>) {
    c.expiration.Some? && c.expiration.value < now && c.status in eligible
  }

  function KeyOf(c: Consent): Key {
    Key(c.id, c.org)
  }

  function Selected(t: Tables, now: int, eligible: seq<string>): set<Consent> {
    set id | id in t.consents && SelectedRow(t.consents[id], now, eligible) :: t.consents[id]
  }

  /** The selection and IsConsentExpired agree on an eligible consent exactly when its expiration is
      not the zero that means none, or the clock has not started. */
  lemma SelectionAgreesExactly(c: Consent, now: int, eligible: seq<string>)
    requires c.status in eligible
    ensures (SelectedRow(c, now, eligible) <==> Overdue(c, now)) <==> (c.expiration != Some(0) || now <= 0)
  {
  }

  /** Expired, every authorization marked, and exactly one audit row more. */
  ghost predicate JustExpired(cfg: Config, rec: Record, rec': Record) {
    && rec.consent.Some? && rec'.consent.Some?
    && rec'.consent.value.status == cfg.consent.expired
    && |rec'.auths| == |rec.auths| && AllHave(rec'.auths, cfg.auth.sysExpired)
    && |rec'.audits| == |rec.audits| + 1 && rec.audits <= rec'.audits
    && rec'.audits[|rec.audits|].previous == Some(rec.consent.value.status)
    && rec'.audits[|rec.audits|].current == cfg.consent.expired
  }

  /** What an expiry attempt leaves: nothing changed, or the consent just expired. */
  ghost predicate Settled(cfg: Config, rec: Record, rec': Record) {
    rec' == rec || JustExpired(cfg, rec, rec')
  }

  lemma ExpireSettles(cfg: Config, cat: Catalog, k: Key, rec: Record, tx: Tx)
    requires tx.Expire? && Effect(cfg, cat, k, rec, tx).Ok?
    ensures var rec' := Effect(cfg, cat, k, rec, tx).value;
            if rec.consent.value.status == cfg.consent.expired then rec' == rec else JustExpired(cfg, rec, rec')
  {
  }

  ghost predicate SettledIn(cfg: Config, t: Tables, t': Tables, k: Key) {
    Settled(cfg, Project(t, k), Project(t', k))
  }

  predicate IsExpiredIn(cfg: Config, t: Tables, k: Key) {
    Lookup(t, k).Some? && Lookup(t, k).value.status == cfg.consent.expired
  }

  lemma SelectedKeys(cfg: Config, t: Tables, now: int, eligible: seq<string>, c: Consent)
    requires forall k :: ConsentGood(cfg, t, k)
    requires c in Selected(t, now, eligible)
    ensures Lookup(t, KeyOf(c)) == Some(c)
  {
    var id :| id in t.consents && t.consents[id] == c;
    var k := Key(id, c.org);
    assert ConsentGood(cfg, t, k);
    assert Project(t, k).consent == Some(c);
  }

  /** One iteration, which survives a failed expiry. */
  method ExpireOne(reg: Registry, c: Consent, now: int, auditId: Id, historyId: Id, faults: Faults)
    requires Healthy(reg) && Lookup(reg.tables, KeyOf(c)) == Some(c)
    modifies reg
    ensures Healthy(reg) && reg.tables.catalog == old(reg.tables.catalog)
    ensures SameExcept(old(reg.tables), reg.tables, KeyOf(c))
    ensures SettledIn(reg.cfg, old(reg.tables), reg.tables, KeyOf(c))
    ensures if Hits(faults, EXPIRE_STEPS) then Untouched(old(reg.tables), reg.tables, KeyOf(c))
            else IsExpiredIn(reg.cfg, reg.tables, KeyOf(c))
    ensures c.status == reg.cfg.consent.expired ==> Untouched(old(reg.tables), reg.tables, KeyOf(c))
  {
    var k := KeyOf(c);
    ghost var rec := Project(reg.tables, k);
    assert rec.consent == Some(c);
    var error := ExpireConsent(reg, k, auditId, historyId, now, faults);
    if error.None? {
      ExpireSettles(reg.cfg, reg.tables.catalog, k, rec, Expire(auditId, historyId, now));
      assert Project(reg.tables, k).consent == Lookup(reg.tables, k);
    }
  }

  /** No row before `i` is this consent's. */
  predicate NotYet(rows: seq<Consent>, i: nat, k: Key)
    requires i <= |rows|
  {
    forall j :: 0 <= j < i ==> KeyOf(rows[j]) != k
  }

  predicate AllExpired(cfg: Config, rows: seq<Consent>, i: nat)
    requires i <= |rows|
  {
    forall j :: 0 <= j < i ==> rows[j].status == cfg.consent.expired
  }

  ghost predicate NothingTouched(t: Tables, t': Tables) {
    forall k :: Untouched(t, t', k)
  }

  ghost predicate AllSettled(cfg: Config, t: Tables, t': Tables) {
    forall k :: SettledIn(cfg, t, t', k)
  }

  ghost predicate OthersUntouched(t: Tables, t': Tables, rows: seq<Consent>, i: nat)
    requires i <= |rows|
  {
    forall k :: NotYet(rows, i, k) ==> Untouched(t, t', k)
  }

  ghost predicate DoneExpired(cfg: Config, t': Tables, rows: seq<Consent>, i: nat, faults: nat -> Faults)
    requires i <= |rows|
  {
    forall j :: 0 <= j < i && !Hits(faults(j), EXPIRE_STEPS) ==> IsExpiredIn(cfg, t', KeyOf(rows[j]))
  }

  ghost predicate FailedUntouched(t: Tables, t': Tables, rows: seq<Consent>, i: nat, faults: nat -> Faults)
    requires i <= |rows|
  {
    forall j :: 0 <= j < i && Hits(faults(j), EXPIRE_STEPS) ==> Untouched(t, t', KeyOf(rows[j]))
  }

  /** How far the job has come: the rows up to `i` are dealt with, the others are as selected. */
  ghost predicate Progress(cfg: Config, t: Tables, t': Tables, rows: seq<Consent>, i: nat, faults: nat -> Faults)
    requires i <= |rows|
  {
    && AllSettled(cfg, t, t')
    && OthersUntouched(t, t', rows, i)
    && DoneExpired(cfg, t', rows, i, faults)
    && FailedUntouched(t, t', rows, i, faults)
    && (AllExpired(cfg, rows, i) ==> NothingTouched(t, t'))
  }

  lemma ProgressStep(cfg: Config, t: Tables, before: Tables, after: Tables, rows: seq<Consent>, i: nat,
                     faults: nat -> Faults)
    requires i < |rows| && Progress(cfg, t, before, rows, i, faults)
    requires NotYet(rows, i, KeyOf(rows[i]))
    requires SameExcept(before, after, KeyOf(rows[i])) && SettledIn(cfg, before, after, KeyOf(rows[i]))
    requires if Hits(faults(i), EXPIRE_STEPS) then Untouched(before, after, KeyOf(rows[i]))
             else IsExpiredIn(cfg, after, KeyOf(rows[i]))
    requires rows[i].status == cfg.consent.expired ==> Untouched(before, after, KeyOf(rows[i]))
    ensures Progress(cfg, t, after, rows, i + 1, faults)
  {
    var k := KeyOf(rows[i]);
    assert Untouched(t, before, k);
    OneMoreSettled(cfg, t, before, after, k);
    OthersOnward(t, before, after, rows, i);
    DoneOnward(cfg, before, after, rows, i, faults);
    FailedOnward(t, before, after, rows, i, faults);
    if AllExpired(cfg, rows, i + 1) {
      assert AllExpired(cfg, rows, i) && rows[i].status == cfg.consent.expired;
      NothingTouchedOnward(t, before, after, k);
    }
  }

  lemma OthersOnward(t: Tables, before: Tables, after: Tables, rows: seq<Consent>, i: nat)
    requires i < |rows| && OthersUntouched(t, before, rows, i) && SameExcept(before, after, KeyOf(rows[i]))
    ensures OthersUntouched(t, after, rows, i + 1)
  {
    forall k' | NotYet(rows, i + 1, k')
      ensures Untouched(t, after, k')
    {
      assert NotYet(rows, i, k') && KeyOf(rows[i]) != k';
      UntouchedOnward(t, before, after, KeyOf(rows[i]), k');
    }
  }

  lemma UntouchedBoth(t: Tables, before: Tables, after: Tables, k: Key)
    requires Untouched(t, before, k) && Untouched(before, after, k)
    ensures Untouched(t, after, k)
  {
  }

  lemma StillUntouched(t: Tables, before: Tables, after: Tables, rows: seq<Consent>, i: nat, j: nat)
    requires j < i < |rows| && NotYet(rows, i, KeyOf(rows[i])) && Untouched(t, before, KeyOf(rows[j]))
    requires SameExcept(before, after, KeyOf(rows[i]))
    ensures Untouched(t, after, KeyOf(rows[j]))
  {
    assert KeyOf(rows[j]) != KeyOf(rows[i]);
    UntouchedOnward(t, before, after, KeyOf(rows[i]), KeyOf(rows[j]));
  }

  lemma FailedOnward(t: Tables, before: Tables, after: Tables, rows: seq<Consent>, i: nat, faults: nat -> Faults)
    requires i < |rows| && FailedUntouched(t, before, rows, i, faults) && NotYet(rows, i, KeyOf(rows[i]))
    requires Untouched(t, before, KeyOf(rows[i])) && SameExcept(before, after, KeyOf(rows[i]))
    requires Hits(faults(i), EXPIRE_STEPS) ==> Untouched(before, after, KeyOf(rows[i]))
    ensures FailedUntouched(t, after, rows, i + 1, faults)
  {
    forall j | 0 <= j < i + 1 && Hits(faults(j), EXPIRE_STEPS)
      ensures Untouched(t, after, KeyOf(rows[j]))
    {
      if j < i {
        StillUntouched(t, before, after, rows, i, j);
      } else {
        assert j == i && Hits(faults(i), EXPIRE_STEPS);
        UntouchedBoth(t, before, after, KeyOf(rows[i]));
      }
    }
  }

  lemma DoneOnward(cfg: Config, before: Tables, after: Tables, rows: seq<Consent>, i: nat, faults: nat -> Faults)
    requires i < |rows| && DoneExpired(cfg, before, rows, i, faults)
    requires SameExcept(before, after, KeyOf(rows[i])) && SettledIn(cfg, before, after, KeyOf(rows[i]))
    requires !Hits(faults(i), EXPIRE_STEPS) ==> IsExpiredIn(cfg, after, KeyOf(rows[i]))
    ensures DoneExpired(cfg, after, rows, i + 1, faults)
  {
    StillExpired(cfg, before, after, KeyOf(rows[i]));
  }

  lemma UntouchedOnward(t: Tables, before: Tables, after: Tables, k: Key, k': Key)
    requires k' != k && Untouched(t, before, k') && SameExcept(before, after, k)
    ensures Untouched(t, after, k')
  {
    assert Untouched(before, after, k');
  }

  lemma NothingTouchedOnward(t: Tables, before: Tables, after: Tables, k: Key)
    requires NothingTouched(t, before) && SameExcept(before, after, k) && Untouched(before, after, k)
    ensures NothingTouched(t, after)
  {
    forall k'
      ensures Untouched(t, after, k')
    {
      assert Untouched(t, before, k');
      if k' != k {
        UntouchedOnward(t, before, after, k, k');
      }
    }
  }

  /** The rows of a query, each once, in some order. */
  ghost predicate Lists(rows: seq<Consent>, selected: set<Consent>) {
    && (forall c :: c in rows <==> c in selected)
    && (forall i, j :: 0 <= i < j < |rows| ==> rows[i] != rows[j])
  }

  /** RunExpirationJob, for any selection and any failures of the individual expiries: every consent is
      untouched or just expired, the unselected ones untouched, and each selected one is expired or, exactly
      when its own expiry ran into a failure, untouched, whatever happened to the others. */
  method RunExpirationJob(reg: Registry, now: int, eligible: seq<string>, uuid: nat -> Id, faults: nat -> Faults,
                          queryFails: bool)
    returns (ghost rows: seq<Consent>)
    requires Healthy(reg)
    modifies reg
    ensures Healthy(reg) && reg.tables.catalog == old(reg.tables.catalog)
    ensures forall k :: SettledIn(reg.cfg, old(reg.tables), reg.tables, k)
    ensures queryFails ==> rows == []
    ensures !queryFails ==> Lists(rows, old(Selected(reg.tables, now, eligible)))
    ensures OthersUntouched(old(reg.tables), reg.tables, rows, |rows|)
    ensures DoneExpired(reg.cfg, reg.tables, rows, |rows|, faults)
    ensures FailedUntouched(old(reg.tables), reg.tables, rows, |rows|, faults)
    ensures AllExpired(reg.cfg, rows, |rows|) ==> NothingTouched(old(reg.tables), reg.tables)
  {
    ghost var t := reg.tables;
    if queryFails {
      return [];
    }
    var found := Enumerate(Selected(reg.tables, now, eligible));
    rows := found;
    forall i | 0 <= i < |rows|
      ensures Lookup(t, KeyOf(rows[i])) == Some(rows[i])
    {
      assert rows[i] in rows;
      SelectedKeys(reg.cfg, t, now, eligible, rows[i]);
    }
    for i := 0 to |found|
      invariant Healthy(reg) && reg.tables.catalog == t.catalog
      invariant Progress(reg.cfg, t, reg.tables, rows, i, faults)
    {
      ghost var before := reg.tables;
      assert NotYet(rows, i, KeyOf(rows[i]));
      assert Untouched(t, before, KeyOf(rows[i]));
      assert Lookup(before, KeyOf(rows[i])) == Project(before, KeyOf(rows[i])).consent;
      ExpireOne(reg, found[i], now, uuid(2 * i), uuid(2 * i + 1), faults(i));
      ProgressStep(reg.cfg, t, before, reg.tables, rows, i, faults);
    }
    assert AllSettled(reg.cfg, t, reg.tables);
  }

  lemma OneMoreSettled(cfg: Config, t: Tables, before: Tables, after: Tables, k: Key)
    requires AllSettled(cfg, t, before)
    requires Untouched(t, before, k) && SameExcept(before, after, k)
    requires SettledIn(cfg, before, after, k)
    ensures AllSettled(cfg, t, after)
  {
    forall k'
      ensures SettledIn(cfg, t, after, k')
    {
      assert SettledIn(cfg, t, before, k');
      assert k' != k ==> Untouched(before, after, k');
    }
  }

  lemma StillExpired(cfg: Config, before: Tables, after: Tables, k: Key)
    requires SameExcept(before, after, k)
    requires Settled(cfg, Project(before, k), Project(after, k))
    ensures forall k' :: IsExpiredIn(cfg, before, k') ==> IsExpiredIn(cfg, after, k')
  {
    forall k' | IsExpiredIn(cfg, before, k')
      ensures IsExpiredIn(cfg, after, k')
    {
      assert Project(before, k').consent == Lookup(before, k') && Project(after, k').consent == Lookup(after, k');
      if k' != k {
        assert Untouched(before, after, k');
      }
    }
  }

  lemma UntouchedStaysSelected(t: Tables, t': Tables, now: int, eligible: seq<string>, c: Consent)
    requires Untouched(t, t', KeyOf(c)) && Lookup(t', KeyOf(c)) == Some(c) && SelectedRow(c, now, eligible)
    ensures c in Selected(t, now, eligible)
  {
    var k := KeyOf(c);
    assert Project(t, k).consent == Lookup(t, k) && Project(t', k).consent == Lookup(t', k);
    assert t.consents[k.id] == c;
  }

  /** After a run without failures, what the job would select again is expired already, so by its
      contract an immediate rerun changes nothing. */
  lemma RerunSelectsOnlyExpired(cfg: Config, t: Tables, log: seq<Commit>, t': Tables, log': seq<Commit>, now: int,
                                eligible: seq<string>, rows: seq<Consent>, faults: nat -> Faults)
    requires Good(cfg, t, log) && Good(cfg, t', log')
    requires Lists(rows, Selected(t, now, eligible)) && forall i: nat :: !Hits(faults(i), EXPIRE_STEPS)
    requires OthersUntouched(t, t', rows, |rows|) && DoneExpired(cfg, t', rows, |rows|, faults)
    ensures forall c :: c in Selected(t', now, eligible) ==> c.status == cfg.consent.expired
  {
    forall c | c in Selected(t', now, eligible)
      ensures c.status == cfg.consent.expired
    {
      SelectedKeys(cfg, t', now, eligible, c);
      if NotYet(rows, |rows|, KeyOf(c)) {
        UntouchedStaysSelected(t, t', now, eligible, c);
      }
    }
  }

  const NO_FAILURES: nat -> Faults := i => NO_FAULTS

  /** Two runs in a row, neither meeting a failure: after the first everything selected is expired, and the
      second changes nothing. */
  method RunJobTwice(reg: Registry, now: int, eligible: seq<string>, uuid1: nat -> Id, uuid2: nat -> Id)
    returns (ghost between: Tables)
    requires Healthy(reg)
    modifies reg
    ensures Healthy(reg) && AllSettled(reg.cfg, old(reg.tables), between)
    ensures forall c :: c in old(Selected(reg.tables, now, eligible)) ==> IsExpiredIn(reg.cfg, between, KeyOf(c))
    ensures NothingTouched(between, reg.tables)
  {
    ghost var t, log := reg.tables, reg.log;
    ghost var first := RunExpirationJob(reg, now, eligible, uuid1, NO_FAILURES, false);
    between := reg.tables;
    assert forall i: nat :: !Hits(NO_FAILURES(i), EXPIRE_STEPS);
    AllDone(reg.cfg, t, between, first, now, eligible);
    RerunSelectsOnlyExpired(reg.cfg, t, log, between, reg.log, now, eligible, first, NO_FAILURES);
    ghost var second := RunExpirationJob(reg, now, eligible, uuid2, NO_FAILURES, false);
    assert forall j :: 0 <= j < |second| ==> second[j] in second;
    assert AllExpired(reg.cfg, second, |second|);
  }

  lemma AllDone(cfg: Config, t: Tables, t': Tables, rows: seq<Consent>, now: int, eligible: seq<string>)
    requires Lists(rows, Selected(t, now, eligible)) && DoneExpired(cfg, t', rows, |rows|, NO_FAILURES)
    ensures forall c :: c in Selected(t, now, eligible) ==> IsExpiredIn(cfg, t', KeyOf(c))
  {
    forall c | c in Selected(t, now, eligible)
      ensures IsExpiredIn(cfg, t', KeyOf(c))
    {
      assert c in rows;
      var j :| 0 <= j < |rows| && rows[j] == c;
      assert !Hits(NO_FAILURES(j), EXPIRE_STEPS);
    }
  }

  /** The job expires an eligible consent whose stored expiration is the zero that means none, although
      reading that consent never would. */
  lemma ZeroExpirationIsSelected(t: Tables, id: Id, now: int, eligible: seq<string>)
    requires id in t.consents && t.consents[id].expiration == Some(0) && t.consents[id].status in eligible && now > 0
    ensures t.consents[id] in Selected(t, now, eligible) && !Overdue(t.consents[id], now)
  {
  }
}
