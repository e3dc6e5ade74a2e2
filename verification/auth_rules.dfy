/** The rules an authorization set as a whole must satisfy: participation and delegation. */
module AuthRules {
  import opened Wrappers
  import opened Config

  const PRIMARY := "primary"
  const DELEGATE := "delegate"
  const DELEGATE_SUBJECT := "delegate_subject"

  /** The projection of an authorization the rules act on. */
  datatype TypedStatus = TypedStatus(authType: string, status: string)

  datatype RuleViolation = OnlyRecorded | ForeignType(authType: string) | MissingDelegate | MissingSubject

  predicate IsDelegationType(authType: string) {
    authType == DELEGATE || authType == DELEGATE_SUBJECT
  }

  /** Reserved types are recognised whatever their letter case; custom types are left alone. */
  function NormalizeAuthType(authType: string): string {
    var lower := ToLower(authType);
    if lower == PRIMARY then PRIMARY
    else if lower == DELEGATE then DELEGATE
    else if lower == DELEGATE_SUBJECT then DELEGATE_SUBJECT
    else authType
  }

  function EffectiveAuthType(authType: string): string {
    if authType == "" then PRIMARY else NormalizeAuthType(authType)
  }

  /** Normalizing is idempotent, keeps custom types, and identifies exactly the spellings of one
      reserved type. */
  lemma NormalizeAuthTypeIsCanonical(a: string, b: string)
    ensures NormalizeAuthType(NormalizeAuthType(a)) == NormalizeAuthType(a)
    ensures IsDelegationType(NormalizeAuthType(a)) <==> ToLower(a) in {DELEGATE, DELEGATE_SUBJECT}
    ensures NormalizeAuthType(a) == NormalizeAuthType(b) <==>
            a == b || (ToLower(a) == ToLower(b) && ToLower(a) in {PRIMARY, DELEGATE, DELEGATE_SUBJECT})
  {
    assert ToLower(PRIMARY) == PRIMARY;
    assert ToLower(DELEGATE) == DELEGATE;
    assert ToLower(DELEGATE_SUBJECT) == DELEGATE_SUBJECT;
  }

  /** At least one authorization is more than a recorded participant. */
  predicate HasParticipation(cfg: Config, auths: seq<TypedStatus>) {
    exists i :: 0 <= i < |auths| && (auths[i].status == "" || !EqualFold(auths[i].status, cfg.auth.recorded))
  }

  predicate MentionsType(auths: seq<TypedStatus>, authType: string) {
    exists i :: 0 <= i < |auths| && auths[i].authType == authType
  }

  /** Free of delegation types, or made of nothing but the two, both present. */
  predicate DelegationShape(auths: seq<TypedStatus>) {
    || (forall i :: 0 <= i < |auths| ==> !IsDelegationType(auths[i].authType))
    || (&& (forall i :: 0 <= i < |auths| ==> IsDelegationType(auths[i].authType))
        && MentionsType(auths, DELEGATE)
        && MentionsType(auths, DELEGATE_SUBJECT))
  }

  /** What every stored authorization set satisfies. */
  predicate WellShaped(cfg: Config, auths: seq<TypedStatus>) {
    auths == [] || (HasParticipation(cfg, auths) && DelegationShape(auths))
  }

  method ValidateParticipation(cfg: Config, auths: seq<TypedStatus>) returns (violation: Option<RuleViolation>)
    requires cfg.auth.recorded != ""
    ensures violation == if HasParticipation(cfg, auths) then None else Some(OnlyRecorded)
  {
    for i := 0 to |auths|
      invariant forall j :: 0 <= j < i ==> auths[j].status != "" && EqualFold(auths[j].status, cfg.auth.recorded)
    {
      if auths[i].status == "" || !EqualFold(auths[i].status, cfg.auth.recorded) {
        return None;
      }
    }
    return Some(OnlyRecorded);
  }

  method ValidateDelegationTypes(auths: seq<TypedStatus>) returns (violation: Option<RuleViolation>)
    ensures violation.None? <==> DelegationShape(auths)
    ensures violation.Some? && violation.value.ForeignType? ==>
            MentionsType(auths, violation.value.authType) && !IsDelegationType(violation.value.authType)
    ensures violation == Some(MissingDelegate) ==>
            forall i :: 0 <= i < |auths| ==> auths[i].authType == DELEGATE_SUBJECT
    ensures violation == Some(MissingSubject) ==>
            forall i :: 0 <= i < |auths| ==> auths[i].authType == DELEGATE
    ensures violation != Some(OnlyRecorded)
  {
    var delegated := false;
    for i := 0 to |auths|
      invariant !delegated
      invariant forall j :: 0 <= j < i ==> !IsDelegationType(auths[j].authType)
    {
      if IsDelegationType(auths[i].authType) {
        delegated := true;
        break;
      }
    }
    if !delegated {
      return None;
    }

    var hasDelegate, hasSubject := false, false;
    for i := 0 to |auths|
      invariant forall j :: 0 <= j < i ==> IsDelegationType(auths[j].authType)
      invariant hasDelegate <==> exists j :: 0 <= j < i && auths[j].authType == DELEGATE
      invariant hasSubject <==> exists j :: 0 <= j < i && auths[j].authType == DELEGATE_SUBJECT
    {
      if auths[i].authType == DELEGATE {
        hasDelegate := true;
      } else if auths[i].authType == DELEGATE_SUBJECT {
        hasSubject := true;
      } else {
        return Some(ForeignType(auths[i].authType));
      }
    }
    if !hasDelegate {
      return Some(MissingDelegate);
    }
    if !hasSubject {
      return Some(MissingSubject);
    }
    return None;
  }

  /** Accepts a set exactly when it is well shaped. */
  method ValidateAuthTypeConstraints(cfg: Config, auths: seq<TypedStatus>) returns (violation: Option<RuleViolation>)
    requires cfg.auth.recorded != ""
    ensures violation.None? <==> WellShaped(cfg, auths)
    ensures violation == Some(OnlyRecorded) <==> auths != [] && !HasParticipation(cfg, auths)
  {
    if |auths| == 0 {
      return None;
    }
    violation := ValidateParticipation(cfg, auths);
    if violation.Some? {
      return;
    }
    violation := ValidateDelegationTypes(auths);
  }
}
