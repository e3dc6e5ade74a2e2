/** The steps a service call hands to ExecuteTransaction, and the transaction itself: the steps run
    in order on a working copy, which is committed as a whole or thrown away. */
module Transactions {
  import opened Wrappers
  import opened Config
  import opened StatusDerivation
  import opened AuthRules
  import opened Rows
  import opened Records
  import opened Tables
  import opened CatalogStore

  datatype ServiceError =
    | NotFound | ValidationFailed | AlreadyRevoked | AlreadyExists | InUse | Duplicate | Internal

  /** The variables the steps of one transaction share. */
  datatype Vars = Vars(expiring: bool, previous: string, derived: string, derive: bool)

  const INITIAL_VARS := Vars(true, "", "", false)

  /** The authorization write a transaction is about to make. */
  datatype AuthChange =
    | Adding(auth: Auth)
    | Changing(updated: Auth, statusChanged: bool, typeChanged: bool)

  /** One closure of a step list; all but the last kind work on the consent they are keyed by. */
  datatype Step =
    | Statement(w: Write)
    | RecordHistory(id: Id, time: int, actor: Option<string>, reason: string)
    | LockForExpiry(historyId: Id, time: int)
    | IfExpiring(w: Write)
    | ExpiryAudit(id: Id, time: int)
    | LockForAuthWrite(change: AuthChange)
    | DerivedStatus(auditId: Id, time: int, reason: string)

  datatype KeyedStep = On(k: Key, step: Step) | OnCatalog(cw: CatalogWrite)

  /** What a step decides after reading: the statements to issue, or to abort. */
  datatype Plan = Do(writes: seq<Write>, vars: Vars) | Abort(error: ServiceError)

  const SYSTEM_ACTOR := "SYSTEM"
  const EXPIRED_HISTORY := "Consent expired"
  const EXPIRED_AUDIT := "Consent expired based on expirationTime"

  /** recordConsentHistory: one pre-image when history is enabled. */
  function HistoryWrites(cfg: Config, cat: Catalog, rec: Record, id: Id, time: int, actor: Option<string>,
                         reason: string): seq<Write>
    requires rec.consent.Some?
  {
    if cfg.historyEnabled then [InsertHistory(History(id, time, actor, reason, View(rec, cat)))] else []
  }

  /** A revoked or expired consent takes no authorization writes. */
  predicate AcceptsAuthWrites(cfg: Config, c: Consent) {
    !EqualFold(c.status, cfg.consent.revoked) && !EqualFold(c.status, cfg.consent.expired)
  }

  function Replace(auths: seq<Auth>, a: Auth): seq<Auth> {
    seq(|auths|, i requires 0 <= i < |auths| => if auths[i].id == a.id then a else auths[i])
  }

  /** The authorization set the rules are checked against. */
  function ResultingSet(auths: seq<Auth>, change: AuthChange): seq<Auth> {
    match change
    case Adding(a) => [a] + auths
    case Changing(a, _, _) => Replace(auths, a)
  }

  function Typed(auths: seq<Auth>): seq<TypedStatus> {
    seq(|auths|, i requires 0 <= i < |auths| => TypedStatus(EffectiveAuthType(auths[i].authType), auths[i].status))
  }

  function PlanAuthWrite(cfg: Config, rec: Record, vars: Vars, change: AuthChange): Plan {
    if rec.consent.None? then Abort(NotFound)
    else if !AcceptsAuthWrites(cfg, rec.consent.value) then Abort(ValidationFailed)
    else
      var v := vars.(previous := rec.consent.value.status);
      if change.Changing? && !change.statusChanged && !change.typeChanged then Do([], v)
      else
        var result := ResultingSet(rec.auths, change);
        if !WellShaped(cfg, Typed(result)) then Abort(ValidationFailed)
        else if change.Changing? && !change.statusChanged then Do([], v)
        else Do([], v.(derived := Derive(cfg, Statuses(result)), derive := true))
  }

  /** What each closure does, given the rows of its consent as its transaction sees them. */
  function PlanStep(cfg: Config, cat: Catalog, rec: Record, vars: Vars, step: Step): Plan {
    match step
    case Statement(w) => Do([w], vars)
    case RecordHistory(id, time, actor, reason) =>
      if !cfg.historyEnabled then Do([], vars)
      else if rec.consent.None? then Abort(Internal)
      else Do(HistoryWrites(cfg, cat, rec, id, time, actor, reason), vars)
    case LockForExpiry(historyId, time) =>
      if rec.consent.None? then Abort(Internal)
      else if rec.consent.value.status == cfg.consent.expired then Do([], vars.(expiring := false))
      else Do(HistoryWrites(cfg, cat, rec, historyId, time, Some(SYSTEM_ACTOR), EXPIRED_HISTORY),
              vars.(previous := rec.consent.value.status))
    case IfExpiring(w) => if vars.expiring then Do([w], vars) else Do([], vars)
    case ExpiryAudit(id, time) =>
      if vars.expiring
      then Do([InsertAudit(Audit(id, cfg.consent.expired, Some(vars.previous), time, EXPIRED_AUDIT,
                                 Some(SYSTEM_ACTOR)))], vars)
      else Do([], vars)
    case LockForAuthWrite(change) => PlanAuthWrite(cfg, rec, vars, change)
    case DerivedStatus(auditId, time, reason) =>
      if !vars.derive || vars.previous == vars.derived then Do([], vars)
      else Do([SetStatus(vars.derived, time),
               InsertAudit(Audit(auditId, vars.derived, Some(vars.previous), time, reason, None))], vars)
  }

  /** A consent is written when any row of it other than its history is. */
  predicate WritesRows(ws: seq<Write>) {
    exists i :: 0 <= i < |ws| && !ws[i].InsertHistory?
  }

  function ExecuteAll(t: Tables, k: Key, ws: seq<Write>): Result<Tables, StoreError>
    decreases |ws|
  {
    if ws == [] then Ok(t)
    else match Execute(t, k, ws[0])
      case Err(e) => Err(e)
      case Ok(t') => ExecuteAll(t', k, ws[1..])
  }

  /** A transaction in progress: its own view of the tables, the consents it has written, and the
      shared variables. */
  datatype Session = Session(tables: Tables, wrote: set<Key>, vars: Vars)

  /** Carrying out what a step decided. */
  function CarryOut(s: Session, k: Key, plan: Plan): Result<Session, ServiceError> {
    match plan
    case Abort(e) => Err(e)
    case Do(ws, vars) => (
      match ExecuteAll(s.tables, k, ws)
      case Err(_) => Err(Internal)
      case Ok(t) => Ok(Session(t, if WritesRows(ws) then s.wrote + {k} else s.wrote, vars)))
  }

  /** A database names a violated key; a service may tell it from other failures. */
  function Reported(e: StoreError): ServiceError {
    if e.DuplicateKey? then Duplicate else Internal
  }

  function Perform(cfg: Config, s: Session, step: KeyedStep): Result<Session, ServiceError> {
    match step
    case On(k, st) => CarryOut(s, k, PlanStep(cfg, s.tables.catalog, Project(s.tables, k), s.vars, st))
    case OnCatalog(cw) => (
      match ExecuteCatalog(s.tables.catalog, cw)
      case Err(e) => Err(Reported(e))
      case Ok(cat) => Ok(s.(tables := s.tables.(catalog := cat))))
  }

  /** Where store calls fail during one transaction: opening it, at some steps, or committing it. */
  datatype Faults = Faults(begin: bool, steps: set<nat>, commit: bool)

  const NO_FAULTS := Faults(false, {}, false)

  /** A failure that a transaction of `n` steps runs into. */
  predicate Hits(f: Faults, n: nat) {
    f.begin || f.commit || exists j :: 0 <= j < n && j in f.steps
  }

  function RunSteps(cfg: Config, s: Session, steps: seq<KeyedStep>, i: nat,
                    faults: Faults): Result<Session, ServiceError>
    requires i <= |steps|
    decreases |steps| - i
  {
    if i == |steps| then Ok(s)
    else if i in faults.steps then Err(Internal)
    else match Perform(cfg, s, steps[i])
      case Err(e) => Err(e)
      case Ok(s') => RunSteps(cfg, s', steps, i + 1, faults)
  }

  /** All the steps and a commit, or nothing. */
  function Transact(cfg: Config, t: Tables, steps: seq<KeyedStep>, faults: Faults): Result<Session, ServiceError> {
    if faults.begin then Err(Internal)
    else match RunSteps(cfg, Session(t, {}, INITIAL_VARS), steps, 0, faults)
      case Err(e) => Err(e)
      case Ok(s) => if faults.commit then Err(Internal) else Ok(s)
  }

  /** A failure ahead stops the run. */
  lemma {:induction false} HitStops(cfg: Config, s: Session, steps: seq<KeyedStep>, i: nat, f: Faults, j: nat)
    requires i <= j < |steps| && j in f.steps
    ensures RunSteps(cfg, s, steps, i, f).Err?
    decreases j - i
  {
    if i < j {
      var next := Perform(cfg, s, steps[i]);
      if next.Ok? {
        HitStops(cfg, next.value, steps, i + 1, f, j);
      }
    }
  }

  /** Without one the run is the one without failures. */
  lemma {:induction false} MissesAgree(cfg: Config, s: Session, steps: seq<KeyedStep>, i: nat, f: Faults)
    requires i <= |steps| && forall j :: i <= j < |steps| ==> j !in f.steps
    ensures RunSteps(cfg, s, steps, i, f) == RunSteps(cfg, s, steps, i, NO_FAULTS)
    decreases |steps| - i
  {
    if i < |steps| && Perform(cfg, s, steps[i]).Ok? {
      MissesAgree(cfg, Perform(cfg, s, steps[i]).value, steps, i + 1, f);
    }
  }

  /** A transaction that runs into a failure fails; any other goes as if there were none. */
  lemma FaultsDecide(cfg: Config, t: Tables, steps: seq<KeyedStep>, f: Faults)
    ensures Hits(f, |steps|) ==> Transact(cfg, t, steps, f).Err?
    ensures !Hits(f, |steps|) ==> Transact(cfg, t, steps, f) == Transact(cfg, t, steps, NO_FAULTS)
  {
    var s := Session(t, {}, INITIAL_VARS);
    if j :| 0 <= j < |steps| && j in f.steps {
      HitStops(cfg, s, steps, 0, f, j);
    } else {
      MissesAgree(cfg, s, steps, 0, f);
    }
  }

  /** A committed transaction: the tables after it and the consents it wrote. */
  datatype Commit = Commit(after: Tables, wrote: set<Key>)

  /** The stores behind one database connection. `working` is the transaction's own copy; `log`
      records every commit. */
  class Registry {
    const cfg: Config
    var tables: Tables
    var working: Tables
    ghost var log: seq<Commit>

    constructor (cfg: Config)
      ensures this.cfg == cfg && tables == EMPTY_TABLES && log == []
    {
      this.cfg := cfg;
      tables, working, log := EMPTY_TABLES, EMPTY_TABLES, [];
    }

    /** The lock-and-check closure of the authorization service, with the loops it calls. */
    method CheckAuthWrite(rec: Record, vars: Vars, change: AuthChange) returns (plan: Plan)
      requires WellFormed(cfg)
      ensures plan == PlanAuthWrite(cfg, rec, vars, change)
    {
      if rec.consent.None? {
        return Abort(NotFound);
      }
      if !AcceptsAuthWrites(cfg, rec.consent.value) {
        return Abort(ValidationFailed);
      }
      var v := vars.(previous := rec.consent.value.status);
      if change.Adding? || change.statusChanged || change.typeChanged {
        var result := ResultingSet(rec.auths, change);
        var violation := ValidateAuthTypeConstraints(cfg, Typed(result));
        if violation.Some? {
          return Abort(ValidationFailed);
        }
        if change.Adding? || change.statusChanged {
          var derived := Evaluate(cfg, Statuses(result));
          v := v.(derived := derived, derive := true);
        }
      }
      return Do([], v);
    }

    /** What the closure decides after its reads. */
    method Decide(k: Key, vars: Vars, st: Step) returns (plan: Plan)
      requires WellFormed(cfg)
      ensures plan == PlanStep(cfg, working.catalog, Project(working, k), vars, st)
    {
      var rec := Project(working, k);
      if st.LockForAuthWrite? {
        plan := CheckAuthWrite(rec, vars, st.change);
      } else {
        plan := PlanStep(cfg, working.catalog, rec, vars, st);
      }
    }

    /** Issues the statements of one closure on the working copy, stopping at the first failure. */
    method Issue(k: Key, ws: seq<Write>) returns (ok: bool)
      modifies this`working
      ensures ok == ExecuteAll(old(working), k, ws).Ok?
      ensures ok ==> working == ExecuteAll(old(working), k, ws).value
    {
      for j := 0 to |ws|
        invariant ExecuteAll(old(working), k, ws) == ExecuteAll(working, k, ws[j..])
      {
        var result := Execute(working, k, ws[j]);
        assert ws[j..][1..] == ws[j + 1..];
        if result.Err? {
          return false;
        }
        working := result.value;
      }
      return true;
    }

    /** One closure of the step list. */
    method PerformStep(vars: Vars, ghost wrote: set<Key>, step: KeyedStep)
      returns (r: Result<Vars, ServiceError>, ghost wrote': set<Key>)
      requires WellFormed(cfg)
      modifies this`working
      ensures Perform(cfg, Session(old(working), wrote, vars), step) ==
              if r.Ok? then Ok(Session(working, wrote', r.value)) else Err(r.error)
    {
      wrote' := wrote;
      match step
      case On(k, st) =>
        var plan := Decide(k, vars, st);
        if plan.Abort? {
          return Err(plan.error), wrote;
        }
        var ok := Issue(k, plan.writes);
        if !ok {
          return Err(Internal), wrote;
        }
        wrote' := if WritesRows(plan.writes) then wrote + {k} else wrote;
        r := Ok(plan.vars);
      case OnCatalog(cw) =>
        var result := ExecuteCatalog(working.catalog, cw);
        if result.Err? {
          return Err(Reported(result.error)), wrote;
        }
        working := working.(catalog := result.value);
        r := Ok(vars);
    }

    /** Runs the steps on the working copy. The first failure rolls back; the end commits. */
    method ExecuteTransaction(steps: seq<KeyedStep>, faults: Faults) returns (r: Result<Vars, ServiceError>)
      requires WellFormed(cfg)
      modifies this
      ensures Transact(cfg, old(tables), steps, faults).Err? ==>
              r == Err(Transact(cfg, old(tables), steps, faults).error) && tables == old(tables) && log == old(log)
      ensures Transact(cfg, old(tables), steps, faults).Ok? ==>
              var s := Transact(cfg, old(tables), steps, faults).value;
              r == Ok(s.vars) && tables == s.tables && log == old(log) + [Commit(s.tables, s.wrote)]
    {
      if faults.begin {
        return Err(Internal);
      }
      working := tables;
      var vars := INITIAL_VARS;
      ghost var wrote: set<Key> := {};
      ghost var start := Session(tables, {}, INITIAL_VARS);
      for i := 0 to |steps|
        invariant tables == old(tables) && log == old(log)
        invariant RunSteps(cfg, start, steps, 0, faults) ==
                  RunSteps(cfg, Session(working, wrote, vars), steps, i, faults)
      {
        if i in faults.steps {
          working := tables;
          return Err(Internal);
        }
        var result;
        result, wrote := PerformStep(vars, wrote, steps[i]);
        if result.Err? {
          working := tables;
          return Err(result.error);
        }
        vars := result.value;
      }
      if faults.commit {
        working := tables;
        return Err(Internal);
      }
      tables := working;
      log := log + [Commit(tables, wrote)];
      return Ok(vars);
    }
  }
}
