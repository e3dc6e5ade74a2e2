/** The step lists of the services fit the tables: rows carry their consent's key, and an updated
    authorization belongs to the consent. */
module RunnableSteps {
  import opened Wrappers
  import opened Config
  import opened Rows
  import opened Records
  import opened Tables
  import opened Transactions
  import opened Lifecycle
  import opened Refinement
  import opened StepLists
  import opened TableRuns

  lemma RunnableConcat(t: Tables, k: Key, a: seq<Step>, b: seq<Step>)
    requires Runnable(t, k, a) && Runnable(t, k, b)
    ensures Runnable(t, k, a + b)
    ensures ClearToRun(t, k, a) && ClearToRun(t, k, b) ==> ClearToRun(t, k, a + b)
  {
  }

  /** A list without consent or authorization inserts and without authorization updates. */
  predicate Plain(steps: seq<Step>) {
    forall i :: 0 <= i < |steps| ==>
      && (steps[i].Statement? ==> !steps[i].w.InsertConsent? && !steps[i].w.InsertAuth? && !steps[i].w.UpdateAuth?)
      && (steps[i].IfExpiring? ==> steps[i].w.SetStatus? || steps[i].w.SetAllAuthStatus?)
  }

  lemma PlainIsRunnable(t: Tables, k: Key, steps: seq<Step>)
    requires Plain(steps)
    ensures Runnable(t, k, steps) && ClearToRun(t, k, steps)
  {
  }

  lemma PlainConcat(a: seq<Step>, b: seq<Step>)
    requires Plain(a) && Plain(b)
    ensures Plain(a + b)
  {
  }

  lemma {:induction false} LinkStepsPlain(links: seq<ResolvedLink>)
    ensures Plain(LinkSteps(links))
    decreases |links|
  {
    if links != [] {
      LinkStepsPlain(links[1..]);
      PlainConcat([Statement(InsertLink(links[0].purposeVersion))] +
                  InsertApprovalSteps(links[0].purposeVersion, links[0].approvals), LinkSteps(links[1..]));
    }
  }

  /** The authorizations to insert have identifiers no other consent uses. */
  ghost predicate AuthsFree(t: Tables, k: Key, auths: seq<Auth>) {
    forall i :: 0 <= i < |auths| ==> OwnedBy(t, k, auths[i].id)
  }

  lemma InsertAuthsRunnable(t: Tables, k: Key, auths: seq<Auth>)
    ensures Runnable(t, k, InsertAuthSteps(auths))
    ensures AuthsFree(t, k, auths) ==> ClearToRun(t, k, InsertAuthSteps(auths))
  {
  }

  lemma CreateRunnable(cfg: Config, t: Tables, k: Key, tx: Tx)
    requires tx.Create? && |tx.authIds| == |tx.create.auths|
    ensures Runnable(t, k, CreateSteps(cfg, k, tx))
    ensures AtHome(t, k) && AuthsFree(t, k, BuildAuths(cfg, tx.create.auths, tx.authIds, tx.now)) ==>
              ClearToRun(t, k, CreateSteps(cfg, k, tx))
  {
    var c := NewConsent(cfg, k, tx.create, tx.now);
    var auths := InsertAuthSteps(BuildAuths(cfg, tx.create.auths, tx.authIds, tx.now));
    var links := LinkSteps(tx.newLinks);
    var audit := [Statement(InsertAudit(CreatedAudit(c, tx)))];
    var attributes := AttributeInserts(tx.create.attributes);
    LinkStepsPlain(tx.newLinks);
    PlainIsRunnable(t, k, links);
    PlainIsRunnable(t, k, audit);
    PlainIsRunnable(t, k, attributes);
    InsertAuthsRunnable(t, k, BuildAuths(cfg, tx.create.auths, tx.authIds, tx.now));
    RunnableConcat(t, k, auths, links);
    RunnableConcat(t, k, audit, auths + links);
    RunnableConcat(t, k, attributes, audit + (auths + links));
    var first := [Statement(InsertConsent(c))];
    assert Runnable(t, k, first) && (AtHome(t, k) ==> ClearToRun(t, k, first));
    RunnableConcat(t, k, first, attributes + (audit + (auths + links)));
  }

  lemma UpdateRunnable(cfg: Config, t: Tables, k: Key, rec: Record, tx: Tx)
    requires tx.Update? && rec.consent.Some? && (tx.update.auths.Some? ==> |tx.authIds| == |tx.update.auths.value|)
    ensures Runnable(t, k, UpdateSteps(cfg, rec, tx))
    ensures (tx.update.auths.Some? ==> AuthsFree(t, k, UpdatedAuths(cfg, tx).value)) ==>
      ClearToRun(t, k, UpdateSteps(cfg, rec, tx))
  {
    var c := rec.consent.value;
    var status := UpdatedStatus(cfg, rec, tx.update, tx.now);
    var links := ReplaceLinks(tx.links);
    if tx.links.Some? {
      LinkStepsPlain(tx.links.value);
    }
    PlainIsRunnable(t, k, links);
    var auths := ReplaceAuths(UpdatedAuths(cfg, tx));
    if tx.update.auths.Some? {
      InsertAuthsRunnable(t, k, UpdatedAuths(cfg, tx).value);
      PlainIsRunnable(t, k, [Statement(DeleteAuths)]);
      RunnableConcat(t, k, [Statement(DeleteAuths)], InsertAuthSteps(UpdatedAuths(cfg, tx).value));
    }
    var attributes := ReplaceAttributes(tx.update.attributes);
    PlainIsRunnable(t, k, attributes);
    var change := ChangeStatusSteps(c, status, UpdatedAudit(c, status, tx), tx.now);
    PlainIsRunnable(t, k, change);
    var fields := [Statement(UpdateFields(MergedConsent(c, tx.update, tx.now)))];
    PlainIsRunnable(t, k, fields);
    var history := [RecordHistory(tx.historyId, tx.now, Some(tx.group), UPDATED_HISTORY)];
    PlainIsRunnable(t, k, history);
    RunnableConcat(t, k, auths, links);
    RunnableConcat(t, k, attributes, auths + links);
    RunnableConcat(t, k, change, attributes + (auths + links));
    RunnableConcat(t, k, fields, change + (attributes + (auths + links)));
    RunnableConcat(t, k, history, fields + (change + (attributes + (auths + links))));
  }

  lemma RevokeRunnable(cfg: Config, t: Tables, k: Key, c: Consent, tx: Tx)
    requires tx.Revoke?
    ensures Runnable(t, k, RevokeSteps(cfg, c, tx)) && ClearToRun(t, k, RevokeSteps(cfg, c, tx))
  {
    PlainIsRunnable(t, k, RevokeSteps(cfg, c, tx));
  }

  lemma ExpireRunnable(cfg: Config, t: Tables, k: Key, tx: Tx)
    requires tx.Expire?
    ensures Runnable(t, k, ExpireSteps(cfg, tx)) && ClearToRun(t, k, ExpireSteps(cfg, tx))
  {
    PlainIsRunnable(t, k, ExpireSteps(cfg, tx));
  }

  lemma AddAuthRunnable(cfg: Config, t: Tables, k: Key, tx: Tx)
    requires tx.AddAuth?
    ensures Runnable(t, k, AddAuthSteps(cfg, tx))
    ensures OwnedBy(t, k, tx.authId) ==> ClearToRun(t, k, AddAuthSteps(cfg, tx))
  {
  }

  /** The authorization a consent holds is held by no other. */
  lemma FoundAuthOwned(t: Tables, k: Key, id: Id)
    requires UniqueAuths(t) && HasAuth(Select(t.auths, k), id)
    ensures OwnedBy(t, k, id)
  {
    var i :| 0 <= i < |Select(t.auths, k)| && Select(t.auths, k)[i].id == id;
    var a := Select(t.auths, k)[i];
    SelectContents(t.auths, k, a);
    var j :| 0 <= j < |t.auths| && t.auths[j] == Row(k, a);
    forall n | 0 <= n < |t.auths| && t.auths[n].val.id == id
      ensures n == j
    {
    }
  }

  lemma ChangeAuthRunnable(cfg: Config, t: Tables, k: Key, stored: Auth, tx: Tx)
    requires tx.ChangeAuth? && OwnedBy(t, k, stored.id)
    ensures Runnable(t, k, ChangeAuthSteps(stored, tx)) && ClearToRun(t, k, ChangeAuthSteps(stored, tx))
  {
  }
}
