/** From one consent's record to the whole database: a transaction run on the tables does to its
    consent what the same run does to the record, and leaves every other consent alone. */
module TableRuns {
  import opened Wrappers
  import opened Config
  import opened Rows
  import opened Records
  import opened Tables
  import opened Transactions
  import opened Refinement

  function OnAll(k: Key, steps: seq<Step>): seq<KeyedStep> {
    seq(|steps|, i requires 0 <= i < |steps| => On(k, steps[i]))
  }

  ghost predicate WritesKeyed(t: Tables, k: Key, ws: seq<Write>) {
    forall i :: 0 <= i < |ws| ==> WellKeyed(t, k, ws[i])
  }

  ghost predicate WritesClear(t: Tables, k: Key, ws: seq<Write>) {
    forall i :: 0 <= i < |ws| ==> !Clashes(t, k, ws[i])
  }

  /** Everything but one consent is as it was. */
  ghost predicate SameExcept(t: Tables, t': Tables, k: Key) {
    && t'.catalog == t.catalog
    && forall k' :: k' != k ==> Untouched(t, t', k')
  }

  predicate Untouched(t: Tables, t': Tables, k: Key) {
    Project(t', k) == Project(t, k)
  }

  ghost predicate KeepsOwnership(t: Tables, t': Tables, k: Key) {
    && (AtHome(t, k) ==> AtHome(t', k))
    && forall id :: OwnedBy(t, k, id) ==> OwnedBy(t', k, id)
  }

  lemma ExecuteSameExcept(t: Tables, k: Key, w: Write, t': Tables)
    requires WellKeyed(t, k, w) && Execute(t, k, w) == Ok(t')
    ensures SameExcept(t, t', k)
    ensures Apply(Project(t, k), w) == Ok(Project(t', k))
  {
    forall k' | k' != k
      ensures Untouched(t, t', k')
    {
      ExecuteRefinesApply(t, k, w, k');
    }
    ExecuteRefinesApply(t, k, w, k);
  }

  lemma ExecuteKeepsHome(t: Tables, k: Key, w: Write, t': Tables)
    requires WellKeyed(t, k, w) && Execute(t, k, w) == Ok(t')
    ensures AtHome(t, k) ==> AtHome(t', k)
  {
  }

  lemma ExecuteKeepsKeys(t: Tables, k: Key, w: Write, t': Tables)
    requires UniqueAuths(t) && WellKeyed(t, k, w) && Execute(t, k, w) == Ok(t')
    ensures UniqueAuths(t') && KeepsOwnership(t, t', k) && SameExcept(t, t', k)
    ensures Apply(Project(t, k), w) == Ok(Project(t', k))
  {
    ExecuteKeepsUniqueAuths(t, k, w);
    ExecuteKeepsHome(t, k, w, t');
    ExecuteSameExcept(t, k, w, t');
    forall id | OwnedBy(t, k, id)
      ensures OwnedBy(t', k, id)
    {
      ExecuteKeepsOwnership(t, k, w, id);
    }
  }

  lemma KeysStayGood(t: Tables, t': Tables, k: Key, ws: seq<Write>)
    requires KeepsOwnership(t, t', k)
    ensures WritesKeyed(t, k, ws) ==> WritesKeyed(t', k, ws)
    ensures WritesClear(t, k, ws) ==> WritesClear(t', k, ws)
  {
  }

  /** One statement, both ways: success on the tables is success on the record, and failure on the
      tables without a key clash is failure on the record. */
  lemma ExecuteBothWays(t: Tables, k: Key, w: Write)
    requires UniqueAuths(t) && WellKeyed(t, k, w)
    ensures Execute(t, k, w).Ok? ==> Advances(t, Execute(t, k, w).value, k) &&
                                     Apply(Project(t, k), w) == Ok(Project(Execute(t, k, w).value, k))
    ensures Execute(t, k, w).Err? && !Clashes(t, k, w) ==> Apply(Project(t, k), w).Err?
  {
    if Execute(t, k, w).Ok? {
      ExecuteKeepsKeys(t, k, w, Execute(t, k, w).value);
    } else if !Clashes(t, k, w) && Apply(Project(t, k), w).Ok? {
      ExecuteSucceeds(t, k, w);
    }
  }

  ghost predicate Advances(t: Tables, t': Tables, k: Key) {
    UniqueAuths(t') && SameExcept(t, t', k) && KeepsOwnership(t, t', k)
  }

  lemma AdvancesTransitive(t: Tables, t1: Tables, t2: Tables, k: Key)
    requires Advances(t, t1, k) && Advances(t1, t2, k)
    ensures Advances(t, t2, k)
  {
    forall k' | k' != k
      ensures Untouched(t, t2, k')
    {
      assert Untouched(t, t1, k') && Untouched(t1, t2, k');
    }
  }

  lemma {:induction false} IssueRefines(t: Tables, k: Key, ws: seq<Write>)
    requires UniqueAuths(t) && WritesKeyed(t, k, ws)
    ensures ExecuteAll(t, k, ws).Ok? ==> Advances(t, ExecuteAll(t, k, ws).value, k) &&
                                         ApplyAll(Project(t, k), ws) == Ok(Project(ExecuteAll(t, k, ws).value, k))
    ensures ExecuteAll(t, k, ws).Err? && WritesClear(t, k, ws) ==> ApplyAll(Project(t, k), ws).Err?
    decreases |ws|
  {
    if ws != [] {
      ExecuteBothWays(t, k, ws[0]);
      if Execute(t, k, ws[0]).Ok? {
        var t1 := Execute(t, k, ws[0]).value;
        KeysStayGood(t, t1, k, ws[1..]);
        IssueRefines(t1, k, ws[1..]);
        if ExecuteAll(t1, k, ws[1..]).Ok? {
          AdvancesTransitive(t, t1, ExecuteAll(t1, k, ws[1..]).value, k);
        }
      }
    }
  }

  /** The statement a step was built around, if any. */
  predicate StepKeyed(k: Key, st: Step) {
    && (st.Statement? && st.w.InsertConsent? ==> st.w.row.id == k.id && st.w.row.org == k.org)
    && (st.IfExpiring? ==> st.w.SetStatus? || st.w.SetAllAuthStatus?)
  }

  ghost predicate StepOwned(t: Tables, k: Key, st: Step) {
    st.Statement? && st.w.UpdateAuth? ==> OwnedBy(t, k, st.w.auth.id)
  }

  ghost predicate StepClear(t: Tables, k: Key, st: Step) {
    && (st.Statement? && st.w.InsertAuth? ==> OwnedBy(t, k, st.w.auth.id))
    && (st.Statement? && st.w.InsertConsent? ==> AtHome(t, k))
  }

  lemma PlannedWritesKeyed(cfg: Config, t: Tables, k: Key, vars: Vars, st: Step)
    requires StepKeyed(k, st) && StepOwned(t, k, st)
    requires PlanStep(cfg, t.catalog, Project(t, k), vars, st).Do?
    ensures WritesKeyed(t, k, PlanStep(cfg, t.catalog, Project(t, k), vars, st).writes)
    ensures StepClear(t, k, st) ==> WritesClear(t, k, PlanStep(cfg, t.catalog, Project(t, k), vars, st).writes)
  {
    PlannedWritesFree(cfg, t.catalog, Project(t, k), vars, st);
    FreeWritesKeyed(t, k, st, PlanStep(cfg, t.catalog, Project(t, k), vars, st).writes);
  }

  /** A statement names no row of another consent by identifier. */
  predicate Free(w: Write) {
    !w.InsertConsent? && !w.InsertAuth? && !w.UpdateAuth?
  }

  /** Only a plain statement inserts a consent or writes an authorization row of its own. */
  lemma PlannedWritesFree(cfg: Config, cat: Catalog, rec: Record, vars: Vars, st: Step)
    requires PlanStep(cfg, cat, rec, vars, st).Do?
    requires st.IfExpiring? ==> st.w.SetStatus? || st.w.SetAllAuthStatus?
    ensures var ws := PlanStep(cfg, cat, rec, vars, st).writes;
            if st.Statement? then ws == [st.w] else forall i :: 0 <= i < |ws| ==> Free(ws[i])
  {
  }

  lemma FreeWritesKeyed(t: Tables, k: Key, st: Step, ws: seq<Write>)
    requires StepKeyed(k, st) && StepOwned(t, k, st)
    requires if st.Statement? then ws == [st.w] else forall i :: 0 <= i < |ws| ==> Free(ws[i])
    ensures WritesKeyed(t, k, ws) && (StepClear(t, k, st) ==> WritesClear(t, k, ws))
  {
  }

  /** The session on the tables and the session on the record go in step. */
  predicate InStep(s: Session, r: RecordSession, k: Key) {
    Project(s.tables, k) == r.rec && s.vars == r.vars && s.wrote == if r.wrote then {k} else {}
  }

  lemma PerformRefines(cfg: Config, s: Session, r: RecordSession, k: Key, st: Step)
    requires UniqueAuths(s.tables) && InStep(s, r, k)
    requires StepKeyed(k, st) && StepOwned(s.tables, k, st)
    ensures Perform(cfg, s, On(k, st)).Ok? ==>
              var s' := Perform(cfg, s, On(k, st)).value;
              && PerformOn(cfg, s.tables.catalog, r, st).Ok?
              && InStep(s', PerformOn(cfg, s.tables.catalog, r, st).value, k)
              && Advances(s.tables, s'.tables, k)
    ensures Perform(cfg, s, On(k, st)).Err? && StepClear(s.tables, k, st) ==>
              PerformOn(cfg, s.tables.catalog, r, st) == Err(Perform(cfg, s, On(k, st)).error)
  {
    var plan := PlanStep(cfg, s.tables.catalog, r.rec, r.vars, st);
    if plan.Do? {
      PlannedWritesKeyed(cfg, s.tables, k, s.vars, st);
    }
    assert r == RecordSession(Project(s.tables, k), r.wrote, s.vars);
    CarryOutRefines(s, r.wrote, k, plan);
  }

  lemma CarryOutRefines(s: Session, wrote: bool, k: Key, plan: Plan)
    requires UniqueAuths(s.tables) && s.wrote == if wrote then {k} else {}
    requires plan.Do? ==> WritesKeyed(s.tables, k, plan.writes)
    ensures var r := RecordSession(Project(s.tables, k), wrote, s.vars);
            && (CarryOut(s, k, plan).Ok? ==>
                  && CarryOutOn(r, plan).Ok?
                  && InStep(CarryOut(s, k, plan).value, CarryOutOn(r, plan).value, k)
                  && Advances(s.tables, CarryOut(s, k, plan).value.tables, k))
            && (CarryOut(s, k, plan).Err? && (plan.Do? ==> WritesClear(s.tables, k, plan.writes)) ==>
                  CarryOutOn(r, plan) == Err(CarryOut(s, k, plan).error))
  {
    if plan.Do? {
      IssueRefines(s.tables, k, plan.writes);
      assert {} + {k} == {k} && {k} + {k} == {k};
    }
  }

  /** What a step list needs of the tables: rows keyed by their consent, and the authorization it
      updates held by that consent. */
  ghost predicate Runnable(t: Tables, k: Key, steps: seq<Step>) {
    forall i :: 0 <= i < |steps| ==> StepKeyed(k, steps[i]) && StepOwned(t, k, steps[i])
  }

  ghost predicate ClearToRun(t: Tables, k: Key, steps: seq<Step>) {
    forall i :: 0 <= i < |steps| ==> StepClear(t, k, steps[i])
  }

  lemma StepsStayGood(t: Tables, t': Tables, k: Key, steps: seq<Step>)
    requires KeepsOwnership(t, t', k)
    ensures Runnable(t, k, steps) ==> Runnable(t', k, steps)
    ensures ClearToRun(t, k, steps) ==> ClearToRun(t', k, steps)
  {
  }

  lemma {:induction false} RunRefines(cfg: Config, s: Session, r: RecordSession, k: Key, steps: seq<Step>, i: nat,
                                      faults: Faults)
    requires i <= |steps| && UniqueAuths(s.tables) && InStep(s, r, k) && Runnable(s.tables, k, steps)
    requires RunSteps(cfg, s, OnAll(k, steps), i, faults).Ok?
    ensures RunOn(cfg, s.tables.catalog, r, steps[i..]).Ok?
    ensures InStep(RunSteps(cfg, s, OnAll(k, steps), i, faults).value,
                   RunOn(cfg, s.tables.catalog, r, steps[i..]).value, k)
    ensures Advances(s.tables, RunSteps(cfg, s, OnAll(k, steps), i, faults).value.tables, k)
    decreases |steps| - i
  {
    if i < |steps| {
      PerformRefines(cfg, s, r, k, steps[i]);
      assert steps[i..][0] == steps[i] && steps[i..][1..] == steps[i + 1..];
      assert OnAll(k, steps)[i] == On(k, steps[i]);
      var s1 := Perform(cfg, s, On(k, steps[i])).value;
      var r1 := PerformOn(cfg, s.tables.catalog, r, steps[i]).value;
      StepsStayGood(s.tables, s1.tables, k, steps);
      RunRefines(cfg, s1, r1, k, steps, i + 1, faults);
      AdvancesTransitive(s.tables, s1.tables, RunSteps(cfg, s1, OnAll(k, steps), i + 1, faults).value.tables, k);
    }
  }

  lemma {:induction false} RunFailsTogether(cfg: Config, s: Session, r: RecordSession, k: Key, steps: seq<Step>, i: nat)
    requires i <= |steps| && UniqueAuths(s.tables) && InStep(s, r, k)
    requires Runnable(s.tables, k, steps) && ClearToRun(s.tables, k, steps)
    requires RunSteps(cfg, s, OnAll(k, steps), i, NO_FAULTS).Err?
    ensures RunOn(cfg, s.tables.catalog, r, steps[i..]) == Err(RunSteps(cfg, s, OnAll(k, steps), i, NO_FAULTS).error)
    decreases |steps| - i
  {
    PerformRefines(cfg, s, r, k, steps[i]);
    assert steps[i..][0] == steps[i] && steps[i..][1..] == steps[i + 1..];
    assert OnAll(k, steps)[i] == On(k, steps[i]);
    if Perform(cfg, s, On(k, steps[i])).Ok? {
      var s1 := Perform(cfg, s, On(k, steps[i])).value;
      var r1 := PerformOn(cfg, s.tables.catalog, r, steps[i]).value;
      StepsStayGood(s.tables, s1.tables, k, steps);
      RunFailsTogether(cfg, s1, r1, k, steps, i + 1);
    }
  }

  /** A whole transaction on one consent: if it commits, the consent's record is where the steps lead
      and nothing else moved; without a store failure and key clashes it commits exactly when the
      steps succeed on the record. */
  lemma TransactRefines(cfg: Config, t: Tables, k: Key, steps: seq<Step>, faults: Faults)
    requires UniqueAuths(t) && Runnable(t, k, steps)
    ensures Transact(cfg, t, OnAll(k, steps), faults).Ok? ==>
              var s := Transact(cfg, t, OnAll(k, steps), faults).value;
              var r := RecordSession(Project(t, k), false, INITIAL_VARS);
              && RunOn(cfg, t.catalog, r, steps).Ok?
              && InStep(s, RunOn(cfg, t.catalog, r, steps).value, k)
              && Advances(t, s.tables, k)
    ensures Transact(cfg, t, OnAll(k, steps), faults).Err? && !Hits(faults, |steps|) && ClearToRun(t, k, steps) ==>
              RunOn(cfg, t.catalog, RecordSession(Project(t, k), false, INITIAL_VARS), steps) ==
              Err(Transact(cfg, t, OnAll(k, steps), faults).error)
  {
    var r := RecordSession(Project(t, k), false, INITIAL_VARS);
    var s := Session(t, {}, INITIAL_VARS);
    assert steps[0..] == steps;
    if RunSteps(cfg, s, OnAll(k, steps), 0, faults).Ok? {
      RunRefines(cfg, s, r, k, steps, 0, faults);
    } else if !Hits(faults, |steps|) && ClearToRun(t, k, steps) {
      MissesAgree(cfg, s, OnAll(k, steps), 0, faults);
      RunFailsTogether(cfg, s, r, k, steps, 0);
    }
  }
}
