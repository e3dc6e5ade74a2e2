/** How the status of a consent follows from the statuses of its authorizations. */
module StatusDerivation {
  import opened Config

  /** What one authorization contributes, least to greatest: nothing, an approval, a pending
      decision, a rejection. */
  datatype Verdict = Absent | Approved | Pending | Rejected {
    function Rank(): nat {
      match this
      case Absent => 0
      case Approved => 1
      case Pending => 2
      case Rejected => 3
    }

    function Join(that: Verdict): Verdict {
      if this.Rank() < that.Rank() then that else this
    }
  }

  function VerdictOf(cfg: Config, status: string): Verdict {
    if EqualFold(status, cfg.auth.recorded) || IsSystemStatus(cfg, status) then Absent
    else if status == "" || EqualFold(status, cfg.auth.approved) then Approved
    else if EqualFold(status, cfg.auth.rejected) then Rejected
    else Pending
  }

  function Verdicts(cfg: Config, statuses: seq<string>): Verdict {
    if statuses == [] then Absent
    else VerdictOf(cfg, statuses[0]).Join(Verdicts(cfg, statuses[1..]))
  }

  /** The consent status a list of authorization statuses stands for. */
  function Derive(cfg: Config, statuses: seq<string>): string {
    match Verdicts(cfg, statuses)
    case Absent => cfg.consent.created
    case Approved => cfg.consent.active
    case Pending => cfg.consent.created
    case Rejected => cfg.consent.rejected
  }

  /** A participant is an authorization that records a decision. */
  predicate Participates(cfg: Config, status: string) {
    VerdictOf(cfg, status) != Absent
  }

  lemma {:induction false} VerdictsOfConcat(cfg: Config, a: seq<string>, b: seq<string>)
    ensures Verdicts(cfg, a + b) == Verdicts(cfg, a).Join(Verdicts(cfg, b))
  {
    if a == [] {
      assert a + b == b;
    } else {
      assert (a + b)[1..] == a[1..] + b;
      VerdictsOfConcat(cfg, a[1..], b);
    }
  }

  /** The verdict of a list is the greatest verdict in it. */
  lemma {:induction false} VerdictsIsMaximum(cfg: Config, statuses: seq<string>)
    ensures forall s :: s in statuses ==> VerdictOf(cfg, s).Rank() <= Verdicts(cfg, statuses).Rank()
    ensures || Verdicts(cfg, statuses) == Absent
            || exists s :: s in statuses && VerdictOf(cfg, s) == Verdicts(cfg, statuses)
  {
    if statuses != [] {
      VerdictsIsMaximum(cfg, statuses[1..]);
      assert statuses == [statuses[0]] + statuses[1..];
      assert statuses[0] in statuses;
    }
  }

  /** Order, duplicates, letter case and non-participants never matter: two lists whose
      participants agree up to letter case derive the same status. */
  lemma DeriveSeesOnlyParticipants(cfg: Config, a: seq<string>, b: seq<string>)
    requires forall s :: s in a && Participates(cfg, s) ==> exists s' :: s' in b && EqualFold(s, s')
    requires forall s :: s in b && Participates(cfg, s) ==> exists s' :: s' in a && EqualFold(s, s')
    ensures Derive(cfg, a) == Derive(cfg, b)
  {
    VerdictsBelow(cfg, a, b);
    VerdictsBelow(cfg, b, a);
  }

  lemma VerdictsBelow(cfg: Config, a: seq<string>, b: seq<string>)
    requires forall s :: s in a && Participates(cfg, s) ==> exists s' :: s' in b && EqualFold(s, s')
    ensures Verdicts(cfg, a).Rank() <= Verdicts(cfg, b).Rank()
  {
    VerdictsIsMaximum(cfg, a);
    VerdictsIsMaximum(cfg, b);
    if Verdicts(cfg, a) != Absent {
      var s :| s in a && VerdictOf(cfg, s) == Verdicts(cfg, a);
      var s' :| s' in b && EqualFold(s, s');
      FoldKeepsVerdict(cfg, s, s');
    }
  }

  lemma FoldKeepsVerdict(cfg: Config, s: string, t: string)
    requires EqualFold(s, t)
    ensures VerdictOf(cfg, s) == VerdictOf(cfg, t)
  {
    assert |ToUpper(s)| == |s| && |ToUpper(t)| == |t|;
    assert s == "" <==> t == "";
  }

  /** The three outcomes, each with the exact condition for it. */
  lemma DeriveCharacterised(cfg: Config, statuses: seq<string>)
    requires WellFormed(cfg)
    ensures Derive(cfg, statuses) == cfg.consent.rejected <==>
            exists s :: s in statuses && EqualFold(s, cfg.auth.rejected)
    ensures Derive(cfg, statuses) == cfg.consent.active <==>
            && (exists s :: s in statuses && Participates(cfg, s))
            && (forall s :: s in statuses && Participates(cfg, s) ==> s == "" || EqualFold(s, cfg.auth.approved))
    ensures Derive(cfg, statuses) in {cfg.consent.rejected, cfg.consent.active, cfg.consent.created}
    ensures Derive(cfg, statuses) !in {cfg.consent.expired, cfg.consent.revoked}
  {
    VerdictsIsMaximum(cfg, statuses);
    forall s | s in statuses && EqualFold(s, cfg.auth.rejected)
      ensures VerdictOf(cfg, s) == Rejected
    {
      assert |ToUpper(s)| == |s| && |ToUpper(cfg.auth.rejected)| == |cfg.auth.rejected|;
    }
    if Verdicts(cfg, statuses) == Rejected {
      var s :| s in statuses && VerdictOf(cfg, s) == Rejected;
      assert EqualFold(s, cfg.auth.rejected);
    }
    if Verdicts(cfg, statuses) == Pending {
      var s :| s in statuses && VerdictOf(cfg, s) == Pending;
      assert Participates(cfg, s);
    }
    if Verdicts(cfg, statuses) == Approved {
      forall s | s in statuses && Participates(cfg, s)
        ensures s == "" || EqualFold(s, cfg.auth.approved)
      {
        assert VerdictOf(cfg, s).Rank() <= 1;
      }
    }
  }

  /** A list with no participant at all, the empty one included, derives the created status. */
  lemma DeriveWithoutParticipants(cfg: Config, statuses: seq<string>)
    requires forall s :: s in statuses ==> !Participates(cfg, s)
    ensures Derive(cfg, statuses) == cfg.consent.created
  {
    VerdictsIsMaximum(cfg, statuses);
  }

  /** Writing the approved status where a caller left it out does not change the outcome. */
  lemma {:induction false} DefaultingKeepsDerivation(cfg: Config, given: seq<string>, stored: seq<string>)
    requires WellFormed(cfg) && |given| == |stored|
    requires forall i :: 0 <= i < |given| ==> stored[i] == if given[i] == "" then cfg.auth.approved else given[i]
    ensures Verdicts(cfg, given) == Verdicts(cfg, stored)
    ensures Derive(cfg, given) == Derive(cfg, stored)
  {
    if given != [] {
      if given[0] == "" {
        assert ToUpper("") == "";
        assert |ToUpper(cfg.auth.recorded)| == |cfg.auth.recorded|;
        assert |ToUpper(cfg.auth.sysExpired)| == |cfg.auth.sysExpired|;
        assert |ToUpper(cfg.auth.sysRevoked)| == |cfg.auth.sysRevoked|;
        assert VerdictOf(cfg, given[0]) == Approved == VerdictOf(cfg, stored[0]);
      }
      DefaultingKeepsDerivation(cfg, given[1..], stored[1..]);
    }
  }

  /** The server's own loop: drop the non-participants, then scan the rest setting flags. */
  method Evaluate(cfg: Config, statuses: seq<string>) returns (r: string)
    requires WellFormed(cfg)
    ensures r == Derive(cfg, statuses)
  {
    if |statuses| == 0 {
      return cfg.consent.created;
    }
    var participating: seq<string> := [];
    for i := 0 to |statuses|
      invariant forall s :: s in participating ==> Participates(cfg, s)
      invariant Verdicts(cfg, participating) == Verdicts(cfg, statuses[..i])
    {
      var upper := ToUpper(statuses[i]);
      assert statuses[..i + 1] == statuses[..i] + [statuses[i]];
      VerdictsOfConcat(cfg, statuses[..i], [statuses[i]]);
      if upper == ToUpper(cfg.auth.recorded) || upper == ToUpper(cfg.auth.sysExpired) ||
        upper == ToUpper(cfg.auth.sysRevoked) {
        continue;
      }
      VerdictsOfConcat(cfg, participating, [statuses[i]]);
      participating := participating + [statuses[i]];
    }
    assert statuses[..|statuses|] == statuses;
    if |participating| == 0 {
      return cfg.consent.created;
    }

    var hasRejected, hasCreated, allApproved := false, false, true;
    for i := 0 to |participating|
      invariant hasRejected <==> Verdicts(cfg, participating[..i]) == Rejected
      invariant !hasRejected ==> (hasCreated <==> Verdicts(cfg, participating[..i]) == Pending)
      invariant allApproved <==> Verdicts(cfg, participating[..i]) in {Absent, Approved}
      invariant i > 0 ==> Verdicts(cfg, participating[..i]) != Absent
    {
      var status := participating[i];
      assert participating[..i + 1] == participating[..i] + [status];
      VerdictsOfConcat(cfg, participating[..i], [status]);
      assert status in participating;
      var upper := ToUpper(status);
      var mapped;
      if upper == ToUpper(cfg.auth.approved) || status == "" {
        mapped := cfg.consent.active;
      } else if upper == ToUpper(cfg.auth.rejected) {
        mapped := cfg.consent.rejected;
      } else if upper == ToUpper(cfg.auth.created) {
        mapped := cfg.consent.created;
      } else {
        mapped := cfg.consent.created;
      }
      if mapped == cfg.consent.rejected {
        hasRejected, allApproved := true, false;
      } else if mapped == cfg.consent.created {
        hasCreated, allApproved := true, false;
      } else if mapped != cfg.consent.active {
        allApproved := false;
      }
    }
    assert participating[..|participating|] == participating;
    if hasRejected {
      return cfg.consent.rejected;
    } else if hasCreated {
      return cfg.consent.created;
    } else if allApproved {
      return cfg.consent.active;
    }
    return cfg.consent.created;
  }
}
