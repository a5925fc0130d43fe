/** What the journal decides about an attempt over whole runs: Ready until the attempt is marked, Reconcile
until it is bound, Complete from then on, whatever saves fail and however the process restarts. */
module JournalDecisions {
  import opened Options
  import opened Journal
  import opened JournalRuns
  import opened Sequences

  /** The memory moves only with an acknowledged change, which has then been saved. A refusal, or a save that
      fails before the rename, leaves the machine alone; a save that fails after it changes the file only. */
  lemma CommitAnswers(store: Store, m: Machine, change: Result<Change>, save: Save)
    requires change.Ok? ==> WellFormed(change.value.records)
    requires change.Err? ==> change.error != Persistence
    ensures var a := Commit(store, m, change, save);
            && (a.result.Err? ==> a.machine.memory == m.memory)
            && (change.Err? ==> a == Answer(m, Err(change.error)))
            && (save.FailedBeforeRename? || a.result == Ok(false) ==> a.machine == m)
            && (a.result == Ok(false) <==> change.Ok? && !change.value.changed)
            && (a.result == Ok(true) <==> change.Ok? && change.value.changed && save.Saved?)
            && (a.result == Err(Persistence) <==> change.Ok? && change.value.changed && !save.Saved?)
            && (a.result == Ok(true) ==> a.machine.memory == Some(change.value.records))
            && (a.result == Ok(true) || (a.result == Err(Persistence) && save.FailedAfterRename?) ==>
                  a.machine.disk == Some(store.save(change.value.records)))
  {}

  /** A mark whose save fails after the rename is refused and leaves the attempt Ready in memory; after a
      restart that loads the file the attempt is to be reconciled. */
  lemma MarkAfterFailedSync(store: Store, m: Machine, attempt: Digest)
    requires Faithful(store) && m.memory.Some? && Loadable(m.memory.value)
    requires GoodStep(DoMark(attempt, FailedAfterRename)) && HasPhase(m.memory.value, attempt, Prepared)
    ensures var failed := Next(store, m, DoMark(attempt, FailedAfterRename));
            && failed.result == Err(Persistence) && failed.machine.memory == m.memory
            && DispatchDecision(m.memory.value, attempt) == Ok(Ready)
            && var restarted := Next(store, failed.machine, Restart(true)).machine;
               && restarted.memory.Some? && Sorted(restarted.memory.value)
               && DispatchDecision(restarted.memory.value, attempt) == Ok(Reconcile)
  {
    var records := m.memory.value;
    LookupFinds(records, attempt);
    MarkAdvances(records, attempt);
    var next := Mark(records, attempt).value.records;
    assert store.load(store.save(next)) == Ok(next);
  }

  // ---------------------------------------------------------------------------------------------
  // A record that no step moves on
  // ---------------------------------------------------------------------------------------------

  /** The memory, if there is one, and the file both have exactly this record of its attempt. */
  ghost predicate Stands(store: Store, m: Machine, r: Record)
    requires m.memory.Some? ==> WellFormed(m.memory.value)
  {
    && (m.memory.Some? ==> Lookup(m.memory.value, r.attempt) == Some(r))
    && m.disk.Some? && exists saved :: SavedAs(store, m.disk.value, saved) && Lookup(saved, r.attempt) == Some(r)
  }

  /** The step is the one kind of call that moves the attempt on from this phase. */
  predicate Moves(step: Step, attempt: Digest, phase: Phase) {
    && !step.Restart? && step.attempt == attempt
    && match phase
       case Prepared => step.DoMark?
       case MayHaveReachedProvider => step.DoBind?
       case ProviderReferenceBound => false
  }

  /** A call about one attempt leaves the records of all others alone. */
  lemma OthersUntouched(records: seq<Record>, step: Step, attempt: Digest)
    requires WellFormed(records) && GoodStep(step) && !step.Restart? && ChangeOf(records, step).Ok?
    requires attempt != step.attempt
    ensures Sorted(ChangeOf(records, step).value.records)
    ensures Lookup(ChangeOf(records, step).value.records, attempt) == Lookup(records, attempt)
  {
    ChangeAdvances(records, step);
    var next := ChangeOf(records, step).value.records;
    SameElsewhere(records, step);
    LookupFinds(records, attempt);
    LookupFinds(next, attempt);
    if Lookup(records, attempt).Some? {
      LookupExact(next, Lookup(records, attempt).value);
    }
  }

  lemma SameElsewhere(records: seq<Record>, step: Step)
    requires WellFormed(records) && GoodStep(step) && !step.Restart? && ChangeOf(records, step).Ok?
    ensures forall x: Record | x.attempt != step.attempt :: x in ChangeOf(records, step).value.records <==> x in records
  {
    match step
    case DoPrepare(attempt, endpoint, request, _) => PrepareAnswers(records, attempt, endpoint, request);
    case DoMark(attempt, _) =>
      MarkAnswers(records, attempt);
      LookupFinds(records, attempt);
    case DoBind(attempt, reference, _) =>
      BindAnswers(records, attempt, reference);
      LookupFinds(records, attempt);
  }

  /** A successful call leaves a record alone unless it is the one that moves it on. */
  lemma ChangeLeaves(records: seq<Record>, step: Step, r: Record)
    requires WellFormed(records) && GoodStep(step) && !step.Restart? && ChangeOf(records, step).Ok?
    requires Lookup(records, r.attempt) == Some(r) && !Moves(step, r.attempt, r.phase)
    ensures Sorted(ChangeOf(records, step).value.records)
    ensures Lookup(ChangeOf(records, step).value.records, r.attempt) == Some(r)
  {
    if step.attempt != r.attempt {
      OthersUntouched(records, step, r.attempt);
    } else {
      LookupIsOk(records, r.attempt);
    }
  }

  lemma StandsSaved(store: Store, memory: Option<seq<Record>>, records: seq<Record>, r: Record)
    requires WellFormed(records) && Lookup(records, r.attempt) == Some(r)
    requires memory.Some? ==> WellFormed(memory.value) && Lookup(memory.value, r.attempt) == Some(r)
    ensures Stands(store, Machine(memory, Some(store.save(records))), r)
  {
    assert SavedAs(store, store.save(records), records);
  }

  lemma RestartLeaves(store: Store, m: Machine, readable: bool, r: Record)
    requires Faithful(store) && Sound(store, m) && Stands(store, m, r)
    ensures Sound(store, RestartOf(store, m, readable).machine)
    ensures Stands(store, RestartOf(store, m, readable).machine, r)
  {
    RestartSound(store, m, readable);
    var saved :| SavedAs(store, m.disk.value, saved) && Lookup(saved, r.attempt) == Some(r);
    LoadsAsSaved(store, m.disk.value, saved);
  }

  lemma CommitLeaves(store: Store, m: Machine, c: Change, save: Save, r: Record)
    requires m.memory.Some? && WellFormed(m.memory.value) && Stands(store, m, r)
    requires WellFormed(c.records) && (save.FailedBeforeRename? || Lookup(c.records, r.attempt) == Some(r))
    ensures var next := Commit(store, m, Ok(c), save).machine;
            next.memory.Some? && WellFormed(next.memory.value) && Stands(store, next, r)
  {
    if !save.FailedBeforeRename? {
      StandsSaved(store, m.memory, c.records, r);
      StandsSaved(store, Some(c.records), c.records, r);
    }
  }

  /** The step does not get as far as a rename that moves the attempt on. */
  predicate Quiet(step: Step, attempt: Digest, phase: Phase) {
    Moves(step, attempt, phase) ==> step.save.FailedBeforeRename?
  }

  lemma CallLeaves(store: Store, m: Machine, step: Step, r: Record)
    requires m.memory.Some? && WellFormed(m.memory.value) && GoodStep(step) && !step.Restart?
    requires Stands(store, m, r) && Quiet(step, r.attempt, r.phase) && ChangeOf(m.memory.value, step).Ok?
    ensures var next := Next(store, m, step).machine;
            next.memory.Some? && WellFormed(next.memory.value) && Stands(store, next, r)
  {
    ChangeAdvances(m.memory.value, step);
    if !step.save.FailedBeforeRename? {
      ChangeLeaves(m.memory.value, step, r);
    }
    CommitLeaves(store, m, ChangeOf(m.memory.value, step).value, step.save, r);
  }

  lemma StepLeaves(store: Store, m: Machine, step: Step, r: Record)
    requires Faithful(store) && Sound(store, m) && GoodStep(step)
    requires Stands(store, m, r) && Quiet(step, r.attempt, r.phase)
    ensures Sound(store, Next(store, m, step).machine) && Stands(store, Next(store, m, step).machine, r)
  {
    StepKeepsSound(store, m, step);
    if step.Restart? {
      RestartLeaves(store, m, step.readable, r);
    } else if m.memory.Some? && ChangeOf(m.memory.value, step).Ok? {
      CallLeaves(store, m, step, r);
    }
  }

  // ---------------------------------------------------------------------------------------------
  // Runs
  // ---------------------------------------------------------------------------------------------

  lemma StandsOneMore(store: Store, machines: seq<Machine>, steps: seq<Step>, r: Record, k: nat)
    requires IsRun(store, machines, steps) && k < |steps| && Quiet(steps[k], r.attempt, r.phase)
    requires Sound(store, machines[k]) && Stands(store, machines[k], r)
    ensures Sound(store, machines[k + 1]) && Stands(store, machines[k + 1], r)
  {
    assert StepAt(store, machines, steps, k);
    StepLeaves(store, machines[k], steps[k], r);
  }

  /** A record stands as long as no step moves its attempt on. */
  lemma StandsWhileQuiet(store: Store, machines: seq<Machine>, steps: seq<Step>, r: Record, k: nat, n: nat)
    requires IsRun(store, machines, steps) && k <= n < |machines|
    requires Sound(store, machines[k]) && Stands(store, machines[k], r)
    requires forall j | k <= j < n :: Quiet(steps[j], r.attempt, r.phase)
    ensures Sound(store, machines[n]) && Stands(store, machines[n], r)
  {
    var good := (m: Machine) => Sound(store, m) && Stands(store, m, r);
    forall i | k <= i < n && good(machines[i]) ensures good(machines[i + 1]) {
      StandsOneMore(store, machines, steps, r, i);
    }
    Along(machines, good, k, n);
  }

  lemma ChangedMachine(store: Store, m: Machine, step: Step, next: Machine)
    requires (m.memory.Some? ==> WellFormed(m.memory.value)) && GoodStep(step) && !step.Restart?
    requires Next(store, m, step) == Answer(next, Ok(true))
    ensures m.memory.Some? && ChangeOf(m.memory.value, step).Ok? && ChangeOf(m.memory.value, step).value.changed
    ensures var records := ChangeOf(m.memory.value, step).value.records;
            next == Machine(Some(records), Some(store.save(records)))
  {}

  /** The record that an acknowledged change leaves stands right after it. */
  lemma ChangedStands(store: Store, m: Machine, step: Step, next: Machine)
    requires Faithful(store) && Sound(store, m) && GoodStep(step) && !step.Restart?
    requires Next(store, m, step) == Answer(next, Ok(true))
    ensures m.memory.Some? && ChangeOf(m.memory.value, step).Ok? && ChangeOf(m.memory.value, step).value.changed
    ensures Sound(store, next) && Stands(store, next, LeftBy(m.memory.value, step))
  {
    ChangedMachine(store, m, step, next);
    StepKeepsSound(store, m, step);
    LeftStands(store, m.memory.value, step);
  }

  lemma LeftStands(store: Store, records: seq<Record>, step: Step)
    requires WellFormed(records) && GoodStep(step) && !step.Restart? && ChangeOf(records, step).Ok?
    ensures var next := ChangeOf(records, step).value.records;
            WellFormed(next) && Stands(store, Machine(Some(next), Some(store.save(next))), LeftBy(records, step))
  {
    ChangeAdvances(records, step);
    LeftByFound(records, step);
    var next := ChangeOf(records, step).value.records;
    StandsSaved(store, Some(next), next, LeftBy(records, step));
  }

  lemma ChangedAt(store: Store, machines: seq<Machine>, steps: seq<Step>, k: nat)
    requires IsRun(store, machines, steps) && k < |steps|
    requires !steps[k].Restart? && ResultAt(store, machines, steps, k) == Ok(true)
    ensures machines[k].memory.Some? && WellFormed(machines[k].memory.value) && GoodStep(steps[k])
    ensures ChangeOf(machines[k].memory.value, steps[k]).Ok?
    ensures ChangeOf(machines[k].memory.value, steps[k]).value.changed
    ensures Sound(store, machines[k + 1])
    ensures Stands(store, machines[k + 1], LeftBy(machines[k].memory.value, steps[k]))
  {
    RunKeepsSound(store, machines, steps, k);
    assert StepAt(store, machines, steps, k);
    ChangedStands(store, machines[k], steps[k], machines[k + 1]);
  }

  /** The record left by an acknowledged change, as long as no step moves its attempt on. */
  lemma StandsAfter(
    store: Store, machines: seq<Machine>, steps: seq<Step>, k: nat, n: nat, left: Record)
    requires IsRun(store, machines, steps) && k < n < |machines|
    requires Sound(store, machines[k + 1]) && Stands(store, machines[k + 1], left)
    requires forall j | k < j < n :: Quiet(steps[j], left.attempt, left.phase)
    ensures machines[n].memory.Some? ==>
              Sorted(machines[n].memory.value) && Lookup(machines[n].memory.value, left.attempt) == Some(left)
  {
    StandsWhileQuiet(store, machines, steps, left, k + 1, n);
  }

  /** What the journal in memory, if there is one, decides about the attempt. */
  ghost predicate Decides(m: Machine, attempt: Digest, decision: Decision) {
    m.memory.Some? ==> Sorted(m.memory.value) && DispatchDecision(m.memory.value, attempt) == Ok(decision)
  }

  /** From the acknowledgement of its first prepare until a mark gets as far as the rename, an attempt is
      Ready. */
  lemma PreparedIsReady(store: Store, machines: seq<Machine>, steps: seq<Step>, k: nat, n: nat)
    requires IsRun(store, machines, steps) && k < n < |machines|
    requires steps[k].DoPrepare? && ResultAt(store, machines, steps, k) == Ok(true)
    requires forall j | k < j < n :: Quiet(steps[j], steps[k].attempt, Prepared)
    ensures Decides(machines[n], steps[k].attempt, Ready)
  {
    ChangedAt(store, machines, steps, k);
    var s := steps[k];
    PrepareAdvances(machines[k].memory.value, s.attempt, s.endpoint, s.request);
    StandsAfter(store, machines, steps, k, n, Record(s.attempt, s.endpoint, s.request, Prepared, None));
  }

  /** From the acknowledgement of its mark until a bind gets as far as the rename, an attempt is to be
      reconciled. */
  lemma MarkedIsReconciled(store: Store, machines: seq<Machine>, steps: seq<Step>, k: nat, n: nat)
    requires IsRun(store, machines, steps) && k < n < |machines|
    requires steps[k].DoMark? && ResultAt(store, machines, steps, k).Ok?
    requires forall j | k < j < n :: Quiet(steps[j], steps[k].attempt, MayHaveReachedProvider)
    ensures Decides(machines[n], steps[k].attempt, Reconcile)
  {
    assert StepAt(store, machines, steps, k);
    ChangedAt(store, machines, steps, k);
    LeftByMark(machines[k].memory.value, steps[k]);
    StandsAfter(store, machines, steps, k, n, LeftBy(machines[k].memory.value, steps[k]));
  }

  /** From the acknowledgement of its reference on, an attempt is complete for good. */
  lemma BoundIsComplete(store: Store, machines: seq<Machine>, steps: seq<Step>, k: nat, n: nat)
    requires IsRun(store, machines, steps) && k < n < |machines|
    requires steps[k].DoBind? && ResultAt(store, machines, steps, k).Ok?
    ensures Decides(machines[n], steps[k].attempt, Complete)
  {
    ReferenceIsImmutable(store, machines, steps, k, n);
  }
}
