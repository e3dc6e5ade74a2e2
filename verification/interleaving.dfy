/** Any number of authorization additions and expiries of one consent, interleaved closure by closure.
    Each transaction keeps its writes to itself until it commits and holds the row lock from its first
    closure until commit or rollback. */
module Interleaving {
  import opened Wrappers
  import opened Config
  import opened StatusDerivation
  import opened Rows
  import opened Records
  import opened Transactions
  import opened Lifecycle
  import opened Invariants
  import opened Refinement
  import opened StepLists

  datatype Phase = Waiting | Running(pc: nat, log: seq<Write>, vars: Vars) | Committed | Aborted

  /** The committed record, the transactions, who holds the row lock, and who committed in what order. */
  datatype World = World(rec: Record, phases: seq<Phase>, holder: Option<nat>, order: seq<nat>)

  /** A transaction opens and locks, performs its next closure, fails and rolls back, or commits. */
  datatype Move = Begin(p: nat) | Advance(p: nat) | Fail(p: nat) | Finish(p: nat)

  /** The transactions that lock the row first. A reserved status is refused before one is opened. */
  predicate Locks(cfg: Config, tx: Tx) {
    tx.Expire? || (tx.AddAuth? && !IsSystemStatus(cfg, BuildAuth(cfg, tx.add, tx.authId, tx.now).status))
  }

  predicate AllLock(cfg: Config, txs: seq<Tx>) {
    forall i :: 0 <= i < |txs| ==> Locks(cfg, txs[i])
  }

  function StepsOf(cfg: Config, tx: Tx): seq<Step>
    requires Locks(cfg, tx)
  {
    if tx.Expire? then ExpireSteps(cfg, tx) else AddAuthSteps(cfg, tx)
  }

  /** What a transaction reads: the committed rows with its own writes on top. */
  function Seen(rec: Record, log: seq<Write>): Record {
    match ApplyAll(rec, log)
    case Ok(rec') => rec'
    case Err(_) => rec
  }

  function RollBack(w: World, p: nat): World
    requires p < |w.phases|
  {
    w.(phases := w.phases[p := Aborted], holder := if w.holder == Some(p) then None else w.holder)
  }

  /** Performs closure `pc` of transaction `p`. */
  function Perform(cfg: Config, cat: Catalog, txs: seq<Tx>, w: World, p: nat, pc: nat, log: seq<Write>,
                   vars: Vars): World
    requires AllLock(cfg, txs) && p < |txs| == |w.phases| && pc < |StepsOf(cfg, txs[p])|
  {
    match PlanStep(cfg, cat, Seen(w.rec, log), vars, StepsOf(cfg, txs[p])[pc])
    case Abort(_) => RollBack(w, p)
    case Do(ws, vars') =>
      if ApplyAll(Seen(w.rec, log), ws).Err? then RollBack(w, p)
      else w.(phases := w.phases[p := Running(pc + 1, log + ws, vars')], holder := Some(p))
  }

  /** One move; a move that is not enabled changes nothing. A lock can be taken only when it is free;
      a consent that does not exist has no row to lock. */
  function Next(cfg: Config, cat: Catalog, txs: seq<Tx>, w: World, m: Move): World
    requires AllLock(cfg, txs) && |txs| == |w.phases|
  {
    if m.p >= |txs| then w
    else
      var phase := w.phases[m.p];
      match m
      case Begin(p) =>
        if phase.Waiting? && (w.holder.None? || w.rec.consent.None?)
        then Perform(cfg, cat, txs, w, p, 0, [], INITIAL_VARS) else w
      case Advance(p) =>
        if phase.Running? && phase.pc < |StepsOf(cfg, txs[p])|
        then Perform(cfg, cat, txs, w, p, phase.pc, phase.log, phase.vars) else w
      case Fail(p) =>
        if phase.Running? || phase.Waiting? then RollBack(w, p) else w
      case Finish(p) =>
        if phase.Running? && phase.pc == |StepsOf(cfg, txs[p])|
        then World(Seen(w.rec, phase.log), w.phases[p := Committed], None, w.order + [p]) else w
  }

  function Start(rec: Record, n: nat): World {
    World(rec, seq(n, i requires 0 <= i < n => Waiting), None, [])
  }

  /** The world after a schedule: any sequence of moves. */
  function Play(cfg: Config, cat: Catalog, txs: seq<Tx>, w: World, moves: seq<Move>): (w': World)
    requires AllLock(cfg, txs) && |txs| == |w.phases|
    ensures |w'.phases| == |txs|
    decreases |moves|
  {
    if moves == [] then w else Play(cfg, cat, txs, Next(cfg, cat, txs, w, moves[0]), moves[1..])
  }

  // ---- The inductive invariant ----

  /** The committed transactions, in commit order. */
  function InOrder(txs: seq<Tx>, order: seq<nat>): seq<Tx>
    requires forall i :: 0 <= i < |order| ==> order[i] < |txs|
  {
    seq(|order|, i requires 0 <= i < |order| => txs[order[i]])
  }

  /** After `pc` closures a transaction has the variables, and with its writes the rows, of a run of its own
      on the committed record. */
  ghost predicate OnCourse(cfg: Config, cat: Catalog, rec: Record, tx: Tx, pc: nat, log: seq<Write>, vars: Vars)
    requires Locks(cfg, tx)
  {
    && pc <= |StepsOf(cfg, tx)|
    && var r := RunOn(cfg, cat, StepLists.Start(rec), StepsOf(cfg, tx)[..pc]);
       r.Ok? && r.value.vars == vars && ApplyAll(rec, log) == Ok(r.value.rec)
  }

  /** A running transaction is on course. */
  ghost predicate InFlight(cfg: Config, cat: Catalog, rec: Record, tx: Tx, phase: Phase)
    requires Locks(cfg, tx)
  {
    phase.Running? ==> phase.pc >= 1 && OnCourse(cfg, cat, rec, tx, phase.pc, phase.log, phase.vars)
  }

  /** Committed exactly once, in range. */
  ghost predicate OrderSound(w: World) {
    && (forall i :: 0 <= i < |w.order| ==> w.order[i] < |w.phases| && w.phases[w.order[i]].Committed?)
    && (forall i, j :: 0 <= i < j < |w.order| ==> w.order[i] != w.order[j])
    && (forall p :: 0 <= p < |w.phases| && w.phases[p].Committed? ==> p in w.order)
  }

  ghost predicate LockSound(w: World) {
    && (forall p :: 0 <= p < |w.phases| && w.phases[p].Running? ==> w.holder == Some(p))
    && (w.holder.Some? ==> w.holder.value < |w.phases| && w.phases[w.holder.value].Running?)
  }

  ghost predicate FlightsSound(cfg: Config, cat: Catalog, txs: seq<Tx>, w: World)
    requires AllLock(cfg, txs) && |txs| == |w.phases|
  {
    forall p :: 0 <= p < |txs| ==> InFlight(cfg, cat, w.rec, txs[p], w.phases[p])
  }

  /** The committed record is the serial run of the committed transactions. */
  ghost predicate Serial(cfg: Config, cat: Catalog, k: Key, rec0: Record, txs: seq<Tx>, w: World)
    requires AllLock(cfg, txs) && |txs| == |w.phases|
  {
    && OrderSound(w) && LockSound(w) && FlightsSound(cfg, cat, txs, w)
    && w.rec == Run(cfg, cat, k, rec0, InOrder(txs, w.order))
  }

  lemma {:induction false} ApplyAllConcat(rec: Record, a: seq<Write>, b: seq<Write>)
    requires ApplyAll(rec, a).Ok?
    ensures ApplyAll(rec, a + b) == ApplyAll(ApplyAll(rec, a).value, b)
    decreases |a|
  {
    if a == [] {
      assert a + b == b;
    } else {
      assert (a + b)[1..] == a[1..] + b;
      ApplyAllConcat(Apply(rec, a[0]).value, a[1..], b);
    }
  }

  lemma {:induction false} RunAppend(cfg: Config, cat: Catalog, k: Key, rec: Record, txs: seq<Tx>, tx: Tx)
    ensures Run(cfg, cat, k, rec, txs + [tx]) == Invariants.Step(cfg, cat, k, Run(cfg, cat, k, rec, txs), tx)
    decreases |txs|
  {
    if txs == [] {
      assert txs + [tx] == [tx];
      assert [tx][1..] == [];
    } else {
      assert (txs + [tx])[1..] == txs[1..] + [tx];
      RunAppend(cfg, cat, k, Invariants.Step(cfg, cat, k, rec, txs[0]), txs[1..], tx);
    }
  }

  /** One more closure of a run on the committed record. */
  lemma FlightContinues(cfg: Config, cat: Catalog, rec: Record, tx: Tx, pc: nat, log: seq<Write>, vars: Vars)
    requires Locks(cfg, tx) && pc < |StepsOf(cfg, tx)|
    requires OnCourse(cfg, cat, rec, tx, pc, log, vars)
    requires PlanStep(cfg, cat, Seen(rec, log), vars, StepsOf(cfg, tx)[pc]).Do?
    requires ApplyAll(Seen(rec, log), PlanStep(cfg, cat, Seen(rec, log), vars, StepsOf(cfg, tx)[pc]).writes).Ok?
    ensures var plan := PlanStep(cfg, cat, Seen(rec, log), vars, StepsOf(cfg, tx)[pc]);
            OnCourse(cfg, cat, rec, tx, pc + 1, log + plan.writes, plan.vars)
  {
    var steps := StepsOf(cfg, tx);
    var plan := PlanStep(cfg, cat, Seen(rec, log), vars, steps[pc]);
    assert steps[..pc + 1] == steps[..pc] + [steps[pc]];
    RunOnConcat(cfg, cat, StepLists.Start(rec), steps[..pc], [steps[pc]]);
    assert [steps[pc]][1..] == [];
    ApplyAllConcat(rec, log, plan.writes);
  }

  /** A transaction ready to commit has its whole effect. */
  lemma FlightLands(cfg: Config, cat: Catalog, k: Key, rec: Record, tx: Tx, phase: Phase)
    requires Locks(cfg, tx) && phase.Running? && InFlight(cfg, cat, rec, tx, phase) && phase.pc == |StepsOf(cfg, tx)|
    ensures Effect(cfg, cat, k, rec, tx) == Ok(Seen(rec, phase.log))
  {
    var steps := StepsOf(cfg, tx);
    assert steps[..phase.pc] == steps;
    if tx.Expire? {
      ExpireRefines(cfg, cat, rec, tx);
    } else {
      AddAuthRefines(cfg, cat, rec, tx);
    }
  }

  lemma RollBackKeepsSerial(cfg: Config, cat: Catalog, k: Key, rec0: Record, txs: seq<Tx>, w: World, p: nat)
    requires AllLock(cfg, txs) && p < |txs| == |w.phases| && Serial(cfg, cat, k, rec0, txs, w)
    requires !w.phases[p].Committed?
    ensures Serial(cfg, cat, k, rec0, txs, RollBack(w, p))
  {
  }

  lemma RunningKeepsSerial(cfg: Config, cat: Catalog, k: Key, rec0: Record, txs: seq<Tx>, w: World, p: nat,
                           phase: Phase)
    requires AllLock(cfg, txs) && p < |txs| == |w.phases| && Serial(cfg, cat, k, rec0, txs, w)
    requires !w.phases[p].Committed? && (w.holder.None? || w.holder == Some(p))
    requires phase.Running? && InFlight(cfg, cat, w.rec, txs[p], phase)
    ensures Serial(cfg, cat, k, rec0, txs, w.(phases := w.phases[p := phase], holder := Some(p)))
  {
  }

  predicate GoesThrough(cfg: Config, cat: Catalog, rec: Record, tx: Tx, pc: nat, log: seq<Write>, vars: Vars)
    requires Locks(cfg, tx) && pc < |StepsOf(cfg, tx)|
  {
    var plan := PlanStep(cfg, cat, Seen(rec, log), vars, StepsOf(cfg, tx)[pc]);
    plan.Do? && ApplyAll(Seen(rec, log), plan.writes).Ok?
  }

  /** A closure that is refused or whose writes fail rolls its transaction back; any other one extends its
      transaction's own writes. */
  lemma PerformIs(cfg: Config, cat: Catalog, txs: seq<Tx>, w: World, p: nat, pc: nat, log: seq<Write>, vars: Vars)
    requires AllLock(cfg, txs) && p < |txs| == |w.phases| && pc < |StepsOf(cfg, txs[p])|
    ensures Perform(cfg, cat, txs, w, p, pc, log, vars) ==
            if !GoesThrough(cfg, cat, w.rec, txs[p], pc, log, vars) then RollBack(w, p)
            else
              var plan := PlanStep(cfg, cat, Seen(w.rec, log), vars, StepsOf(cfg, txs[p])[pc]);
              w.(phases := w.phases[p := Running(pc + 1, log + plan.writes, plan.vars)], holder := Some(p))
  {
  }

  /** A lock is taken only when it is free; a consent that does not exist lets no closure through. */
  lemma ThroughHasLock(cfg: Config, cat: Catalog, rec: Record, tx: Tx, log: seq<Write>, vars: Vars)
    requires Locks(cfg, tx) && log == [] && GoesThrough(cfg, cat, rec, tx, 0, log, vars)
    ensures rec.consent.Some?
  {
  }

  lemma PerformKeepsSerial(cfg: Config, cat: Catalog, k: Key, rec0: Record, txs: seq<Tx>, w: World, p: nat, pc: nat,
                           log: seq<Write>, vars: Vars)
    requires AllLock(cfg, txs) && p < |txs| == |w.phases| && Serial(cfg, cat, k, rec0, txs, w)
    requires !w.phases[p].Committed? && pc < |StepsOf(cfg, txs[p])|
    requires OnCourse(cfg, cat, w.rec, txs[p], pc, log, vars)
    requires GoesThrough(cfg, cat, w.rec, txs[p], pc, log, vars) ==> w.holder.None? || w.holder == Some(p)
    ensures Serial(cfg, cat, k, rec0, txs, Perform(cfg, cat, txs, w, p, pc, log, vars))
  {
    PerformIs(cfg, cat, txs, w, p, pc, log, vars);
    if GoesThrough(cfg, cat, w.rec, txs[p], pc, log, vars) {
      var plan := PlanStep(cfg, cat, Seen(w.rec, log), vars, StepsOf(cfg, txs[p])[pc]);
      FlightContinues(cfg, cat, w.rec, txs[p], pc, log, vars);
      RunningKeepsSerial(cfg, cat, k, rec0, txs, w, p, Running(pc + 1, log + plan.writes, plan.vars));
    } else {
      RollBackKeepsSerial(cfg, cat, k, rec0, txs, w, p);
    }
  }

  lemma CommitKeepsSerial(cfg: Config, cat: Catalog, k: Key, rec0: Record, txs: seq<Tx>, w: World, p: nat)
    requires AllLock(cfg, txs) && p < |txs| == |w.phases| && Serial(cfg, cat, k, rec0, txs, w)
    requires w.phases[p].Running? && w.phases[p].pc == |StepsOf(cfg, txs[p])|
    ensures Serial(cfg, cat, k, rec0, txs, Next(cfg, cat, txs, w, Finish(p)))
  {
    CommitIsRun(cfg, cat, k, rec0, txs, w, p);
    CommitKeepsOrder(txs, w, p, Seen(w.rec, w.phases[p].log));
  }

  /** What a commit makes of the record is one more transaction of the serial run. */
  lemma CommitIsRun(cfg: Config, cat: Catalog, k: Key, rec0: Record, txs: seq<Tx>, w: World, p: nat)
    requires AllLock(cfg, txs) && p < |txs| == |w.phases| && Serial(cfg, cat, k, rec0, txs, w)
    requires w.phases[p].Running? && w.phases[p].pc == |StepsOf(cfg, txs[p])|
    ensures Seen(w.rec, w.phases[p].log) == Run(cfg, cat, k, rec0, InOrder(txs, w.order + [p]))
  {
    FlightLands(cfg, cat, k, w.rec, txs[p], w.phases[p]);
    RunAppend(cfg, cat, k, rec0, InOrder(txs, w.order), txs[p]);
    assert InOrder(txs, w.order + [p]) == InOrder(txs, w.order) + [txs[p]];
  }

  lemma CommitKeepsOrder(txs: seq<Tx>, w: World, p: nat, rec: Record)
    requires p < |txs| == |w.phases| && w.phases[p].Running? && OrderSound(w) && LockSound(w)
    ensures var w' := World(rec, w.phases[p := Committed], None, w.order + [p]);
            && OrderSound(w') && LockSound(w')
            && forall q :: 0 <= q < |txs| ==> !w'.phases[q].Running?
  {
    var order := w.order + [p];
    assert order[|w.order|] == p;
    forall q | 0 <= q < |w.phases| && (w.phases[q].Committed? || q == p)
      ensures q in order
    {
    }
  }

  lemma MoveKeepsSerial(cfg: Config, cat: Catalog, k: Key, rec0: Record, txs: seq<Tx>, w: World, m: Move)
    requires AllLock(cfg, txs) && |txs| == |w.phases| && Serial(cfg, cat, k, rec0, txs, w)
    ensures Serial(cfg, cat, k, rec0, txs, Next(cfg, cat, txs, w, m))
  {
    if m.p < |txs| {
      var phase := w.phases[m.p];
      match m
      case Begin(p) =>
        if phase.Waiting? && (w.holder.None? || w.rec.consent.None?) {
          if GoesThrough(cfg, cat, w.rec, txs[p], 0, [], INITIAL_VARS) {
            ThroughHasLock(cfg, cat, w.rec, txs[p], [], INITIAL_VARS);
          }
          PerformKeepsSerial(cfg, cat, k, rec0, txs, w, p, 0, [], INITIAL_VARS);
        }
      case Advance(p) =>
        if phase.Running? && phase.pc < |StepsOf(cfg, txs[p])| {
          PerformKeepsSerial(cfg, cat, k, rec0, txs, w, p, phase.pc, phase.log, phase.vars);
        }
      case Fail(p) =>
        if phase.Running? || phase.Waiting? {
          RollBackKeepsSerial(cfg, cat, k, rec0, txs, w, p);
        }
      case Finish(p) =>
        if phase.Running? && phase.pc == |StepsOf(cfg, txs[p])| {
          CommitKeepsSerial(cfg, cat, k, rec0, txs, w, p);
        }
    }
  }

  lemma {:induction false} PlayKeepsSerial(cfg: Config, cat: Catalog, k: Key, rec0: Record, txs: seq<Tx>, w: World,
                                           moves: seq<Move>)
    requires AllLock(cfg, txs) && |txs| == |w.phases| && Serial(cfg, cat, k, rec0, txs, w)
    ensures Serial(cfg, cat, k, rec0, txs, Play(cfg, cat, txs, w, moves))
    decreases |moves|
  {
    if moves != [] {
      MoveKeepsSerial(cfg, cat, k, rec0, txs, w, moves[0]);
      PlayKeepsSerial(cfg, cat, k, rec0, txs, Next(cfg, cat, txs, w, moves[0]), moves[1..]);
    }
  }

  // ---- Main results ----

  /** Whatever the schedule, the committed record is what the committed transactions make of it one
      after the other, in the order they committed; at most one transaction is past its lock. */
  lemma InterleavingIsSerial(cfg: Config, cat: Catalog, k: Key, rec: Record, txs: seq<Tx>, moves: seq<Move>)
    requires AllLock(cfg, txs)
    ensures var w := Play(cfg, cat, txs, Start(rec, |txs|), moves);
            && OrderSound(w) && LockSound(w)
            && w.rec == Run(cfg, cat, k, rec, InOrder(txs, w.order))
  {
    PlayKeepsSerial(cfg, cat, k, rec, txs, Start(rec, |txs|), moves);
  }

  /** Every committed state keeps the lifecycle invariant and the audit chain. */
  lemma InterleavingKeepsInvariant(cfg: Config, cat: Catalog, k: Key, rec: Record, txs: seq<Tx>, moves: seq<Move>)
    requires WellFormed(cfg) && AllLock(cfg, txs) && RecordInvariant(cfg, rec)
    ensures RecordInvariant(cfg, Play(cfg, cat, txs, Start(rec, |txs|), moves).rec)
  {
    InterleavingIsSerial(cfg, cat, k, rec, txs, moves);
    RunKeepsInvariant(cfg, cat, k, rec, InOrder(txs, Play(cfg, cat, txs, Start(rec, |txs|), moves).order));
  }

  function ExpiredRows(cfg: Config, audits: seq<Audit>): nat {
    if audits == [] then 0
    else ExpiredRows(cfg, audits[..|audits| - 1]) + if audits[|audits| - 1].current == cfg.consent.expired then 1 else 0
  }

  predicate AnyExpiry(txs: seq<Tx>) {
    exists i :: 0 <= i < |txs| && txs[i].Expire?
  }

  lemma ExpiredRowsAppend(cfg: Config, audits: seq<Audit>, a: Audit)
    ensures ExpiredRows(cfg, audits + [a]) ==
            ExpiredRows(cfg, audits) + if a.current == cfg.consent.expired then 1 else 0
  {
    assert (audits + [a])[..|audits|] == audits;
  }

  /** One transaction: an expiry of an open consent adds the one row; nothing else does. */
  lemma OneStepExpiry(cfg: Config, cat: Catalog, k: Key, rec: Record, tx: Tx)
    requires WellFormed(cfg) && rec.consent.Some? && Locks(cfg, tx)
    ensures var rec' := Invariants.Step(cfg, cat, k, rec, tx);
            && rec'.consent.Some?
            && (rec.consent.value.status == cfg.consent.expired ==> rec' == rec)
            && (rec.consent.value.status != cfg.consent.expired && tx.Expire? ==>
                  rec'.consent.value.status == cfg.consent.expired &&
                    ExpiredRows(cfg, rec'.audits) == ExpiredRows(cfg, rec.audits) + 1)
            && (rec.consent.value.status != cfg.consent.expired && tx.AddAuth? ==>
                  rec'.consent.value.status != cfg.consent.expired &&
                    ExpiredRows(cfg, rec'.audits) == ExpiredRows(cfg, rec.audits))
  {
    if tx.Expire? && rec.consent.value.status != cfg.consent.expired {
      ExpiredRowsAppend(cfg, rec.audits,
        Audit(tx.auditId, cfg.consent.expired, Some(rec.consent.value.status), tx.now, EXPIRED_AUDIT,
              Some(SYSTEM_ACTOR)));
    }
    if tx.AddAuth? {
      var auth := BuildAuth(cfg, tx.add, tx.authId, tx.now);
      var derived := Derive(cfg, Statuses([auth] + rec.auths));
      DeriveIsOpen(cfg, Statuses([auth] + rec.auths));
      ExpiredRowsAppend(cfg, rec.audits,
        Audit(tx.auditId, derived, Some(rec.consent.value.status), tx.now, AUTH_STATUS_AUDIT, None));
    }
  }

  lemma {:induction false} SerialExpiry(cfg: Config, cat: Catalog, k: Key, rec: Record, txs: seq<Tx>)
    requires WellFormed(cfg) && rec.consent.Some? && AllLock(cfg, txs)
    ensures var rec' := Run(cfg, cat, k, rec, txs);
            && rec'.consent.Some?
            && (rec.consent.value.status == cfg.consent.expired ==> rec' == rec)
            && (rec.consent.value.status != cfg.consent.expired ==>
                  && (rec'.consent.value.status == cfg.consent.expired <==> AnyExpiry(txs))
                  && ExpiredRows(cfg, rec'.audits) == ExpiredRows(cfg, rec.audits) + if AnyExpiry(txs) then 1 else 0)
    decreases |txs|
  {
    if txs != [] {
      OneStepExpiry(cfg, cat, k, rec, txs[0]);
      SerialExpiry(cfg, cat, k, Invariants.Step(cfg, cat, k, rec, txs[0]), txs[1..]);
      assert AnyExpiry(txs) <==> txs[0].Expire? || AnyExpiry(txs[1..]) by {
        if i :| 0 < i < |txs| && txs[i].Expire? {
          assert txs[1..][i - 1].Expire?;
        }
      }
    }
  }

  /** Whatever the schedule, all the expirations together add one EXPIRED audit row when any of them
      commits on a consent not yet expired, and nothing at all to one that is. */
  lemma ExpiriesAddOneRow(cfg: Config, cat: Catalog, k: Key, rec: Record, txs: seq<Tx>, moves: seq<Move>)
    requires WellFormed(cfg) && AllLock(cfg, txs) && rec.consent.Some?
    ensures var w := Play(cfg, cat, txs, Start(rec, |txs|), moves);
            var expiry := exists p :: 0 <= p < |txs| && txs[p].Expire? && w.phases[p].Committed?;
            && w.rec.consent.Some?
            && (rec.consent.value.status == cfg.consent.expired ==> w.rec == rec)
            && (rec.consent.value.status != cfg.consent.expired ==>
                  && (w.rec.consent.value.status == cfg.consent.expired <==> expiry)
                  && ExpiredRows(cfg, w.rec.audits) == ExpiredRows(cfg, rec.audits) + if expiry then 1 else 0)
  {
    var w := Play(cfg, cat, txs, Start(rec, |txs|), moves);
    InterleavingIsSerial(cfg, cat, k, rec, txs, moves);
    var serial := InOrder(txs, w.order);
    SerialExpiry(cfg, cat, k, rec, serial);
    if p :| 0 <= p < |txs| && txs[p].Expire? && w.phases[p].Committed? {
      var i :| 0 <= i < |w.order| && w.order[i] == p;
      assert serial[i].Expire?;
    }
    if i :| 0 <= i < |serial| && serial[i].Expire? {
      assert txs[w.order[i]].Expire? && w.phases[w.order[i]].Committed?;
    }
  }

  /** When every transaction is over the lock is free, and a waiting one can always begin: the lock
      never outlives its transaction. */
  lemma LockIsReleased(cfg: Config, cat: Catalog, rec: Record, txs: seq<Tx>, moves: seq<Move>, p: nat)
    requires AllLock(cfg, txs) && p < |txs|
    requires var w := Play(cfg, cat, txs, Start(rec, |txs|), moves);
             w.phases[p].Waiting? && forall q :: 0 <= q < |txs| ==> !w.phases[q].Running?
    ensures var w := Play(cfg, cat, txs, Start(rec, |txs|), moves);
            !Next(cfg, cat, txs, w, Begin(p)).phases[p].Waiting?
  {
    InterleavingIsSerial(cfg, cat, Key("", ""), rec, txs, moves);
  }
}
