/** The step lists the services build, and the proof that running one on the record of its consent
    has exactly the net effect of its transaction. */
module Refinement {
  import opened Wrappers
  import opened Config
  import opened Rows
  import opened Records
  import opened Transactions
  import opened Lifecycle

  /** A transaction in progress, seen from its consent. */
  datatype RecordSession = RecordSession(rec: Record, wrote: bool, vars: Vars)

  function CarryOutOn(s: RecordSession, plan: Plan): Result<RecordSession, ServiceError> {
    match plan
    case Abort(e) => Err(e)
    case Do(ws, vars) => (
      match ApplyAll(s.rec, ws)
      case Err(_) => Err(Internal)
      case Ok(rec) => Ok(RecordSession(rec, s.wrote || WritesRows(ws), vars)))
  }

  function PerformOn(cfg: Config, cat: Catalog, s: RecordSession, step: Step): Result<RecordSession, ServiceError> {
    CarryOutOn(s, PlanStep(cfg, cat, s.rec, s.vars, step))
  }

  function RunOn(cfg: Config, cat: Catalog, s: RecordSession, steps: seq<Step>): Result<RecordSession, ServiceError>
    decreases |steps|
  {
    if steps == [] then Ok(s)
    else match PerformOn(cfg, cat, s, steps[0])
      case Err(e) => Err(e)
      case Ok(s') => RunOn(cfg, cat, s', steps[1..])
  }

  lemma {:induction false} RunOnConcat(cfg: Config, cat: Catalog, s: RecordSession, a: seq<Step>, b: seq<Step>)
    ensures RunOn(cfg, cat, s, a + b) ==
            match RunOn(cfg, cat, s, a)
            case Err(e) => Err(e)
            case Ok(s') => RunOn(cfg, cat, s', b)
    decreases |a|
  {
    if a == [] {
      assert a + b == b;
    } else {
      assert (a + b)[1..] == a[1..] + b;
      match PerformOn(cfg, cat, s, a[0])
      case Err(_) =>
      case Ok(s') => RunOnConcat(cfg, cat, s', a[1..], b);
    }
  }

  lemma RunOneStatement(cfg: Config, cat: Catalog, s: RecordSession, w: Write)
    ensures RunOn(cfg, cat, s, [Statement(w)]) ==
            match Apply(s.rec, w)
            case Err(_) => Err(Internal)
            case Ok(rec) => Ok(RecordSession(rec, s.wrote || !w.InsertHistory?, s.vars))
  {
    assert [w][0] == w && [w][1..] == [];
    assert WritesRows([w]) <==> !w.InsertHistory?;
    match Apply(s.rec, w)
    case Err(_) =>
    case Ok(rec) => assert ApplyAll(s.rec, [w]) == Ok(rec);
  }

  /** A list that starts with a plain statement: the statement, then the rest. */
  lemma RunStatement(cfg: Config, cat: Catalog, s: RecordSession, w: Write, rest: seq<Step>)
    ensures RunOn(cfg, cat, s, [Statement(w)] + rest) ==
            if Apply(s.rec, w).Err? then Err(Internal)
            else RunOn(cfg, cat, RecordSession(Apply(s.rec, w).value, s.wrote || !w.InsertHistory?, s.vars), rest)
  {
    RunOnConcat(cfg, cat, s, [Statement(w)], rest);
    RunOneStatement(cfg, cat, s, w);
  }

  // ---- Lists of inserts ----

  function InsertAuthSteps(auths: seq<Auth>): seq<Step> {
    seq(|auths|, i requires 0 <= i < |auths| => Statement(InsertAuth(auths[i])))
  }

  function InsertApprovalSteps(pv: Id, approvals: seq<(Id, Approval)>): seq<Step> {
    seq(|approvals|, i requires 0 <= i < |approvals| => Statement(InsertApproval(pv, approvals[i].0, approvals[i].1)))
  }

  function LinkSteps(links: seq<ResolvedLink>): seq<Step> {
    if links == [] then []
    else [Statement(InsertLink(links[0].purposeVersion))]
         + InsertApprovalSteps(links[0].purposeVersion, links[0].approvals) + LinkSteps(links[1..])
  }

  /** Inserting authorizations succeeds exactly when no identifier repeats, and appends them all. */
  lemma {:induction false} RunInsertAuths(cfg: Config, cat: Catalog, s: RecordSession, auths: seq<Auth>)
    ensures RunOn(cfg, cat, s, InsertAuthSteps(auths)) ==
            if InsertableAuths(s.rec.auths, auths)
            then Ok(RecordSession(s.rec.(auths := s.rec.auths + auths), s.wrote || auths != [], s.vars))
            else Err(Internal)
    decreases |auths|
  {
    if auths == [] {
      assert s.rec.auths + [] == s.rec.auths;
    } else {
      var steps := InsertAuthSteps(auths);
      assert steps == [Statement(InsertAuth(auths[0]))] + InsertAuthSteps(auths[1..]);
      RunStatement(cfg, cat, s, InsertAuth(auths[0]), InsertAuthSteps(auths[1..]));
      if !HasAuth(s.rec.auths, auths[0].id) {
        var s' := RecordSession(s.rec.(auths := s.rec.auths + [auths[0]]), true, s.vars);
        RunInsertAuths(cfg, cat, s', auths[1..]);
        InsertableStep(s.rec.auths, auths);
        assert s.rec.auths + [auths[0]] + auths[1..] == s.rec.auths + auths;
      } else {
        assert !InsertableAuths(s.rec.auths, auths);
      }
    }
  }

  predicate InsertableAuths(present: seq<Auth>, auths: seq<Auth>) {
    && (forall i :: 0 <= i < |auths| ==> !HasAuth(present, auths[i].id))
    && (forall i, j :: 0 <= i < j < |auths| ==> auths[i].id != auths[j].id)
  }

  lemma InsertableStep(present: seq<Auth>, auths: seq<Auth>)
    requires auths != [] && !HasAuth(present, auths[0].id)
    ensures InsertableAuths(present, auths) <==> InsertableAuths(present + [auths[0]], auths[1..])
  {
    var present', rest := present + [auths[0]], auths[1..];
    forall id
      ensures HasAuth(present', id) <==> HasAuth(present, id) || id == auths[0].id
    {
      if HasAuth(present, id) {
        var i :| 0 <= i < |present| && present[i].id == id;
        assert present'[i].id == id;
      }
      assert present'[|present|].id == auths[0].id;
    }
    if InsertableAuths(present', rest) {
      forall i, j | 0 <= i < j < |auths|
        ensures auths[i].id != auths[j].id
      {
        assert rest[j - 1] == auths[j];
        if i > 0 {
          assert rest[i - 1] == auths[i];
        }
      }
      forall i | 0 <= i < |auths|
        ensures !HasAuth(present, auths[i].id)
      {
        if i > 0 {
          assert rest[i - 1] == auths[i];
        }
      }
    }
  }

  predicate InsertableApprovals(present: map<(Id, Id), Approval>, pv: Id, approvals: seq<(Id, Approval)>) {
    && DistinctApprovals(approvals)
    && forall i :: 0 <= i < |approvals| ==> (pv, approvals[i].0) !in present
  }

  lemma InsertableApprovalStep(present: map<(Id, Id), Approval>, pv: Id, approvals: seq<(Id, Approval)>)
    requires approvals != [] && (pv, approvals[0].0) !in present
    ensures InsertableApprovals(present, pv, approvals) <==>
            InsertableApprovals(present[(pv, approvals[0].0) := approvals[0].1], pv, approvals[1..])
  {
    var rest := approvals[1..];
    if InsertableApprovals(present[(pv, approvals[0].0) := approvals[0].1], pv, rest) {
      forall i, j | 0 <= i < j < |approvals|
        ensures approvals[i].0 != approvals[j].0
      {
        assert rest[j - 1] == approvals[j];
        if i > 0 {
          assert rest[i - 1] == approvals[i];
        }
      }
      forall i | 0 <= i < |approvals|
        ensures (pv, approvals[i].0) !in present
      {
        if i > 0 {
          assert rest[i - 1] == approvals[i];
        }
      }
    }
  }

  lemma {:induction false} RunInsertApprovals(cfg: Config, cat: Catalog, s: RecordSession, pv: Id,
                                              approvals: seq<(Id, Approval)>)
    ensures RunOn(cfg, cat, s, InsertApprovalSteps(pv, approvals)) ==
            if InsertableApprovals(s.rec.approvals, pv, approvals)
            then Ok(RecordSession(s.rec.(approvals := s.rec.approvals + LinkApprovals(pv, approvals)),
                                  s.wrote || approvals != [], s.vars))
            else Err(Internal)
    decreases |approvals|
  {
    if approvals == [] {
      assert s.rec.approvals + map[] == s.rec.approvals;
    } else {
      var (ev, a) := approvals[0];
      assert InsertApprovalSteps(pv, approvals) == [Statement(InsertApproval(pv, ev, a))] +
        InsertApprovalSteps(pv, approvals[1..]);
      RunStatement(cfg, cat, s, InsertApproval(pv, ev, a), InsertApprovalSteps(pv, approvals[1..]));
      if (pv, ev) !in s.rec.approvals {
        var present' := s.rec.approvals[(pv, ev) := a];
        var s' := RecordSession(s.rec.(approvals := present'), true, s.vars);
        RunInsertApprovals(cfg, cat, s', pv, approvals[1..]);
        InsertableApprovalStep(s.rec.approvals, pv, approvals);
        UpdateThenMerge(s.rec.approvals, (pv, ev), a, LinkApprovals(pv, approvals[1..]));
      } else {
        assert !InsertableApprovals(s.rec.approvals, pv, approvals);
      }
    }
  }

  lemma UpdateThenMerge<K, V>(m: map<K, V>, key: K, v: V, more: map<K, V>)
    ensures m[key := v] + more == m + (map[key := v] + more)
  {
  }

  /** The rows a link adds are approvals of that link. */
  lemma {:induction false} LinkApprovalsKeys(pv: Id, approvals: seq<(Id, Approval)>)
    ensures forall p :: p in LinkApprovals(pv, approvals) <==>
      p.0 == pv && exists i :: 0 <= i < |approvals| && approvals[i].0 == p.1
  {
    if approvals != [] {
      LinkApprovalsKeys(pv, approvals[1..]);
      forall p
        ensures p in LinkApprovals(pv, approvals) <==>
          p.0 == pv && exists i :: 0 <= i < |approvals| && approvals[i].0 == p.1
      {
        if p.0 == pv && p.1 == approvals[0].0 {
          assert approvals[0].0 == p.1;
        } else if p in LinkApprovals(pv, approvals[1..]) {
          var i :| 0 <= i < |approvals[1..]| && approvals[1..][i].0 == p.1;
          assert approvals[i + 1].0 == p.1;
        }
      }
    }
  }

  /** Links and approvals to insert do not collide with the ones present: a present approval always
      belongs to a present link. */
  predicate ApprovalsUnderLinks(rec: Record) {
    forall p :: p in rec.approvals ==> p.0 in rec.links
  }

  function WithLink(rec: Record, link: ResolvedLink): Record {
    rec.(links := rec.links + {link.purposeVersion},
         approvals := rec.approvals + LinkApprovals(link.purposeVersion, link.approvals))
  }

  lemma WithLinkKeeps(rec: Record, link: ResolvedLink)
    requires ApprovalsUnderLinks(rec)
    ensures ApprovalsUnderLinks(WithLink(rec, link))
  {
    LinkApprovalsKeys(link.purposeVersion, link.approvals);
  }

  lemma RunOneLink(cfg: Config, cat: Catalog, s: RecordSession, link: ResolvedLink, rest: seq<Step>)
    requires ApprovalsUnderLinks(s.rec)
    ensures RunOn(cfg, cat, s, [Statement(InsertLink(link.purposeVersion))] +
                               (InsertApprovalSteps(link.purposeVersion, link.approvals) + rest)) ==
            if link.purposeVersion !in s.rec.links && DistinctApprovals(link.approvals)
            then RunOn(cfg, cat, RecordSession(WithLink(s.rec, link), true, s.vars), rest)
            else Err(Internal)
    ensures ApprovalsUnderLinks(WithLink(s.rec, link))
  {
    var pv := link.purposeVersion;
    var steps := InsertApprovalSteps(pv, link.approvals);
    RunStatement(cfg, cat, s, InsertLink(pv), steps + rest);
    WithLinkKeeps(s.rec, link);
    LinkApprovalsKeys(pv, link.approvals);
    if pv !in s.rec.links {
      var s1 := RecordSession(s.rec.(links := s.rec.links + {pv}), true, s.vars);
      RunOnConcat(cfg, cat, s1, steps, rest);
      InsertableUnder(s.rec, link);
      RunInsertApprovals(cfg, cat, s1, pv, link.approvals);
    }
  }

  /** Under a new link no approval is present. */
  lemma InsertableUnder(rec: Record, link: ResolvedLink)
    requires ApprovalsUnderLinks(rec) && link.purposeVersion !in rec.links
    ensures InsertableApprovals(rec.approvals, link.purposeVersion, link.approvals) <==>
            DistinctApprovals(link.approvals)
  {
  }

  function WithLinks(rec: Record, links: seq<ResolvedLink>): Record {
    rec.(links := rec.links + LinkIds(links), approvals := rec.approvals + ApprovalRows(links))
  }

  lemma WithLinksStep(rec: Record, links: seq<ResolvedLink>)
    requires links != []
    ensures WithLinks(WithLink(rec, links[0]), links[1..]) == WithLinks(rec, links)
  {
    LinkIdsStep(links);
    var added := LinkApprovals(links[0].purposeVersion, links[0].approvals);
    assert rec.approvals + added + ApprovalRows(links[1..]) == rec.approvals + (added + ApprovalRows(links[1..]));
  }

  predicate Linkable(rec: Record, links: seq<ResolvedLink>) {
    DistinctLinks(links) && LinkIds(links) !! rec.links
  }

  lemma LinkableStep(rec: Record, links: seq<ResolvedLink>)
    requires links != []
    ensures Linkable(rec, links) <==>
            && links[0].purposeVersion !in rec.links && DistinctApprovals(links[0].approvals)
            && Linkable(WithLink(rec, links[0]), links[1..])
  {
    LinkIdsStep(links);
    DistinctLinksStep(links);
  }

  /** Linking succeeds exactly when no version repeats, and adds every link with its approvals. */
  lemma {:induction false} RunLinks(cfg: Config, cat: Catalog, s: RecordSession, links: seq<ResolvedLink>)
    requires ApprovalsUnderLinks(s.rec)
    ensures RunOn(cfg, cat, s, LinkSteps(links)) ==
            if Linkable(s.rec, links) then Ok(RecordSession(WithLinks(s.rec, links), s.wrote || links != [], s.vars))
            else Err(Internal)
    decreases |links|
  {
    if links == [] {
      assert s.rec.approvals + map[] == s.rec.approvals;
      assert s.rec.links + LinkIds(links) == s.rec.links;
    } else {
      var link, rest := links[0], links[1..];
      assert LinkSteps(links) == [Statement(InsertLink(link.purposeVersion))] +
                                 (InsertApprovalSteps(link.purposeVersion, link.approvals) + LinkSteps(rest));
      RunOneLink(cfg, cat, s, link, LinkSteps(rest));
      LinkableStep(s.rec, links);
      WithLinksStep(s.rec, links);
      RunLinks(cfg, cat, RecordSession(WithLink(s.rec, link), true, s.vars), rest);
    }
  }

  lemma LinkIdsStep(links: seq<ResolvedLink>)
    requires links != []
    ensures LinkIds(links) == {links[0].purposeVersion} + LinkIds(links[1..])
  {
    var rest := links[1..];
    forall pv
      ensures pv in LinkIds(links) <==> pv == links[0].purposeVersion || pv in LinkIds(rest)
    {
      if pv in LinkIds(rest) {
        var i :| 0 <= i < |rest| && rest[i].purposeVersion == pv;
        assert links[i + 1].purposeVersion == pv;
      }
      if pv in LinkIds(links) && pv != links[0].purposeVersion {
        var i :| 0 <= i < |links| && links[i].purposeVersion == pv;
        assert rest[i - 1].purposeVersion == pv;
      }
    }
  }

  lemma DistinctLinksStep(links: seq<ResolvedLink>)
    requires links != []
    ensures DistinctLinks(links) <==>
            DistinctApprovals(links[0].approvals) && DistinctLinks(links[1..]) &&
              links[0].purposeVersion !in LinkIds(links[1..])
  {
    var rest := links[1..];
    assert forall i :: 0 <= i < |rest| ==> rest[i] == links[i + 1];
    if DistinctApprovals(links[0].approvals) && DistinctLinks(rest) && links[0].purposeVersion !in LinkIds(rest) {
      forall i, j | 0 <= i < j < |links|
        ensures links[i].purposeVersion != links[j].purposeVersion
      {
        assert rest[j - 1] == links[j];
        if i > 0 {
          assert rest[i - 1] == links[i];
        }
      }
      forall i | 0 <= i < |links|
        ensures DistinctApprovals(links[i].approvals)
      {
        if i > 0 {
          assert rest[i - 1] == links[i];
        }
      }
    }
  }
}
