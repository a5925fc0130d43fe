/** Runs of the attempt journal: transitions saved before they are acknowledged, saves that fail
before or after the rename, and restarts from the file. */
module JournalRuns {
  import opened Octets
  import opened Options
  import opened Journal
  import opened JournalCodec
  import opened Sequences

  /** How an atomic save ends: the directory sync can fail after the rename. */
  datatype Save = FailedBeforeRename | FailedAfterRename | Saved

  /** The journal in memory, if the process has one, and the file. */
  datatype Machine = Machine(memory: Option<seq<Record>>, disk: Option<Octets>)

  datatype Step =
    | DoPrepare(attempt: Digest, endpoint: Endpoint, request: Digest, save: Save)
    | DoMark(attempt: Digest, save: Save)
    | DoBind(attempt: Digest, reference: Digest, save: Save)
    | Restart(readable: bool)

  datatype Answer = Answer(machine: Machine, result: Result<bool>)

  /** How a journal becomes the bytes of a file, and back. */
  datatype Store = Store(save: seq<Record> -> Octets, load: Octets -> Result<seq<Record>>)

  /** A saved journal loads as itself, unless a request commitment is zero: then the file is refused. */
  ghost predicate Faithful(store: Store) {
    forall records {:trigger store.save(records)} | WellFormed(records) ::
      store.load(store.save(records)) == if NoZeroRequest(records) then Ok(records) else Err(InvalidSnapshot)
  }

  /** The tagged snapshot file. */
  ghost function SnapshotStore(tag: TagHash): Store {
    Store((records: seq<Record>) => if WellFormed(records) then FileOf(tag, records) else [], file => Load(tag, file))
  }

  /** The byte codec is a faithful store, so everything below holds of the tagged snapshot file. */
  lemma SnapshotStoreIsFaithful(tag: TagHash)
    requires TagSized(tag)
    ensures Faithful(SnapshotStore(tag))
  {
    forall records | WellFormed(records)
      ensures Load(tag, FileOf(tag, records)) == if NoZeroRequest(records) then Ok(records) else Err(InvalidSnapshot)
    {
      LoadSavedExactly(tag, records);
    }
  }

  /** Clone, change, save, assign: nothing is adopted or acknowledged before it is saved. */
  ghost function Commit(store: Store, m: Machine, change: Result<Change>, save: Save): Answer
    requires change.Ok? ==> WellFormed(change.value.records)
  {
    match change
    case Err(e) => Answer(m, Err(e))
    case Ok(c) =>
      if !c.changed then Answer(m, Ok(false))
      else
        match save
        case FailedBeforeRename => Answer(m, Err(Persistence))
        case FailedAfterRename => Answer(m.(disk := Some(store.save(c.records))), Err(Persistence))
        case Saved => Answer(Machine(Some(c.records), Some(store.save(c.records))), Ok(true))
  }

  function ChangeOf(records: seq<Record>, step: Step): Result<Change>
    requires Sorted(records) && !step.Restart?
  {
    match step
    case DoPrepare(attempt, endpoint, request, _) => Prepare(records, attempt, endpoint, request)
    case DoMark(attempt, _) => Mark(records, attempt)
    case DoBind(attempt, reference, _) => Bind(records, attempt, reference)
  }

  /** Identifiers are digests, and attempts are not zero, as their type demands. */
  predicate GoodStep(step: Step) {
    match step
    case DoPrepare(attempt, _, request, _) => 0 < attempt && IsDigest(attempt) && IsDigest(request)
    case DoMark(attempt, _) => 0 < attempt && IsDigest(attempt)
    case DoBind(attempt, reference, _) => 0 < attempt && IsDigest(attempt) && IsDigest(reference)
    case Restart(_) => true
  }

  lemma ChangeAdvances(records: seq<Record>, step: Step)
    requires WellFormed(records) && GoodStep(step) && !step.Restart? && ChangeOf(records, step).Ok?
    ensures var next := ChangeOf(records, step).value.records;
            && WellFormed(next) && Ahead(records, next) && Lookup(next, step.attempt).Some?
            && (!ChangeOf(records, step).value.changed ==> next == records)
            && (NoZeroRequest(records) && (step.DoPrepare? ==> step.request != 0) ==> NoZeroRequest(next))
  {
    match step
    case DoPrepare(attempt, endpoint, request, _) => PrepareAdvances(records, attempt, endpoint, request);
    case DoMark(attempt, _) => MarkAdvances(records, attempt);
    case DoBind(attempt, reference, _) => BindAdvances(records, attempt, reference);
  }

  /** A restart loses the memory and loads the file; without a file the journal starts empty, and a file
      that cannot be read or is refused leaves the process without a journal. */
  ghost function RestartOf(store: Store, m: Machine, readable: bool): Answer {
    match m.disk
    case None => Answer(m.(memory := Some([])), Err(Persistence))
    case Some(file) =>
      if !readable then Answer(m.(memory := None), Err(Persistence))
      else
        match store.load(file)
        case Err(e) => Answer(m.(memory := None), Err(e))
        case Ok(records) => Answer(m.(memory := Some(records)), Ok(false))
  }

  /** One step. Without a journal there is nothing to call. */
  ghost function Next(store: Store, m: Machine, step: Step): Answer
    requires m.memory.Some? ==> WellFormed(m.memory.value)
    requires GoodStep(step)
  {
    if step.Restart? then RestartOf(store, m, step.readable)
    else if m.memory.None? then Answer(m, Err(Persistence))
    else
      var change := ChangeOf(m.memory.value, step);
      if change.Err? then Answer(m, Err(change.error))
      else
        ChangeAdvances(m.memory.value, step);
        Commit(store, m, change, step.save)
  }

  // ---------------------------------------------------------------------------------------------
  // Sound machines
  // ---------------------------------------------------------------------------------------------

  ghost predicate SavedAs(store: Store, file: Octets, records: seq<Record>) {
    WellFormed(records) && file == store.save(records)
  }

  /** The file, if there is one, is a saved journal that is ahead of the memory; without a file the
      memory is empty. */
  ghost predicate Sound(store: Store, m: Machine) {
    && (m.memory.Some? ==> WellFormed(m.memory.value))
    && match m.disk
       case None => m.memory == Some([])
       case Some(file) =>
         exists saved :: SavedAs(store, file, saved) && (m.memory.Some? ==> Ahead(m.memory.value, saved))
  }

  /** The attempt's record, or one it has advanced to, is in the memory and in the file. */
  ghost predicate KeptInBoth(store: Store, m: Machine, r: Record)
    requires m.memory.Some? ==> WellFormed(m.memory.value)
  {
    && (m.memory.Some? ==> Kept(r, m.memory.value))
    && m.disk.Some? && exists saved :: SavedAs(store, m.disk.value, saved) && Kept(r, saved)
  }

  lemma KeptAhead(r: Record, earlier: seq<Record>, later: seq<Record>)
    requires Sorted(earlier) && Sorted(later) && Kept(r, earlier) && Ahead(earlier, later)
    ensures Kept(r, later)
  {
    AheadLookup(earlier, later, r.attempt);
  }

  /** A saved file loads as what was saved, or is refused. */
  lemma LoadsAsSaved(store: Store, file: Octets, saved: seq<Record>)
    requires Faithful(store) && SavedAs(store, file, saved)
    ensures store.load(file) == if NoZeroRequest(saved) then Ok(saved) else Err(InvalidSnapshot)
  {}

  lemma RestartSound(store: Store, m: Machine, readable: bool)
    requires Faithful(store) && Sound(store, m)
    ensures Sound(store, RestartOf(store, m, readable).machine)
  {
    if m.disk.Some? {
      var saved :| SavedAs(store, m.disk.value, saved) && (m.memory.Some? ==> Ahead(m.memory.value, saved));
      LoadsAsSaved(store, m.disk.value, saved);
      AheadReflexive(saved);
    }
  }

  lemma CommitSound(store: Store, m: Machine, c: Change, save: Save)
    requires Sound(store, m) && m.memory.Some?
    requires WellFormed(c.records) && Ahead(m.memory.value, c.records)
    ensures Sound(store, Commit(store, m, Ok(c), save).machine)
  {
    AheadReflexive(c.records);
    assert SavedAs(store, store.save(c.records), c.records);
  }

  /** Every step keeps the machine sound. */
  lemma StepKeepsSound(store: Store, m: Machine, step: Step)
    requires Faithful(store) && Sound(store, m) && GoodStep(step)
    ensures Sound(store, Next(store, m, step).machine)
  {
    if step.Restart? {
      RestartSound(store, m, step.readable);
    } else if m.memory.Some? && ChangeOf(m.memory.value, step).Ok? {
      ChangeAdvances(m.memory.value, step);
      CommitSound(store, m, ChangeOf(m.memory.value, step).value, step.save);
    }
  }

  lemma RestartKeeps(store: Store, m: Machine, readable: bool, r: Record)
    requires Faithful(store) && Sound(store, m) && KeptInBoth(store, m, r)
    ensures Sound(store, RestartOf(store, m, readable).machine)
    ensures KeptInBoth(store, RestartOf(store, m, readable).machine, r)
  {
    RestartSound(store, m, readable);
    var saved :| SavedAs(store, m.disk.value, saved) && Kept(r, saved);
    LoadsAsSaved(store, m.disk.value, saved);
  }

  lemma CommitKeeps(store: Store, m: Machine, c: Change, save: Save, r: Record)
    requires Sound(store, m) && m.memory.Some? && KeptInBoth(store, m, r)
    requires WellFormed(c.records) && Ahead(m.memory.value, c.records)
    ensures Sound(store, Commit(store, m, Ok(c), save).machine)
    ensures KeptInBoth(store, Commit(store, m, Ok(c), save).machine, r)
  {
    CommitSound(store, m, c, save);
    KeptAhead(r, m.memory.value, c.records);
    assert SavedAs(store, store.save(c.records), c.records);
  }

  /** No step, whatever its save and however the restart goes, takes an attempt back. */
  lemma StepMovesAhead(store: Store, m: Machine, step: Step, r: Record)
    requires Faithful(store) && Sound(store, m) && GoodStep(step) && KeptInBoth(store, m, r)
    ensures Sound(store, Next(store, m, step).machine)
    ensures KeptInBoth(store, Next(store, m, step).machine, r)
  {
    StepKeepsSound(store, m, step);
    if step.Restart? {
      RestartKeeps(store, m, step.readable, r);
    } else if m.memory.Some? && ChangeOf(m.memory.value, step).Ok? {
      ChangeAdvances(m.memory.value, step);
      CommitKeeps(store, m, ChangeOf(m.memory.value, step).value, step.save, r);
    }
  }

  // ---------------------------------------------------------------------------------------------
  // Runs
  // ---------------------------------------------------------------------------------------------

  /** Step k takes machine k to machine k + 1. */
  ghost predicate StepAt(store: Store, machines: seq<Machine>, steps: seq<Step>, k: nat)
    requires k < |steps| == |machines| - 1
  {
    && GoodStep(steps[k]) && (machines[k].memory.Some? ==> WellFormed(machines[k].memory.value))
    && machines[k + 1] == Next(store, machines[k], steps[k]).machine
  }

  /** A run from any sound machine, such as the empty journal without a file. */
  ghost predicate IsRun(store: Store, machines: seq<Machine>, steps: seq<Step>) {
    && Faithful(store) && |steps| == |machines| - 1 && Sound(store, machines[0])
    && forall k | 0 <= k < |steps| :: StepAt(store, machines, steps, k)
  }

  ghost function ResultAt(store: Store, machines: seq<Machine>, steps: seq<Step>, k: nat): Result<bool>
    requires IsRun(store, machines, steps) && k < |steps|
  {
    assert StepAt(store, machines, steps, k);
    Next(store, machines[k], steps[k]).result
  }

  lemma SoundOneMore(store: Store, machines: seq<Machine>, steps: seq<Step>, k: nat)
    requires IsRun(store, machines, steps) && k < |steps| && Sound(store, machines[k])
    ensures Sound(store, machines[k + 1])
  {
    assert StepAt(store, machines, steps, k);
    StepKeepsSound(store, machines[k], steps[k]);
  }

  lemma RunKeepsSound(store: Store, machines: seq<Machine>, steps: seq<Step>, n: nat)
    requires IsRun(store, machines, steps) && n < |machines|
    ensures Sound(store, machines[n])
  {
    var good := (m: Machine) => Sound(store, m);
    forall i | 0 <= i < n && good(machines[i]) ensures good(machines[i + 1]) {
      SoundOneMore(store, machines, steps, i);
    }
    Along(machines, good, 0, n);
  }

  lemma KeptOneMore(store: Store, machines: seq<Machine>, steps: seq<Step>, r: Record, k: nat)
    requires IsRun(store, machines, steps) && k < |steps|
    requires Sound(store, machines[k]) && KeptInBoth(store, machines[k], r)
    ensures Sound(store, machines[k + 1]) && KeptInBoth(store, machines[k + 1], r)
  {
    assert StepAt(store, machines, steps, k);
    StepMovesAhead(store, machines[k], steps[k], r);
  }

  /** What is kept once is kept ever after. */
  lemma RunMovesAhead(store: Store, machines: seq<Machine>, steps: seq<Step>, r: Record, k: nat, n: nat)
    requires IsRun(store, machines, steps) && k <= n < |machines|
    requires Sound(store, machines[k]) && KeptInBoth(store, machines[k], r)
    ensures Sound(store, machines[n]) && KeptInBoth(store, machines[n], r)
  {
    var good := (m: Machine) => Sound(store, m) && KeptInBoth(store, m, r);
    forall i | k <= i < n && good(machines[i]) ensures good(machines[i + 1]) {
      KeptOneMore(store, machines, steps, r, i);
    }
    Along(machines, good, k, n);
  }

  /** A repeat that changes nothing: its record stands in the memory, and so in the file ahead of it. */
  lemma FoundIsKept(store: Store, m: Machine, r: Record)
    requires Sound(store, m) && m.memory.Some? && Lookup(m.memory.value, r.attempt) == Some(r)
    ensures KeptInBoth(store, m, r)
  {
    assert m.memory != Some([]);
    var saved :| SavedAs(store, m.disk.value, saved) && Ahead(m.memory.value, saved);
    KeptAhead(r, m.memory.value, saved);
  }

  /** The record that an acknowledged step leaves. */
  ghost function LeftBy(records: seq<Record>, step: Step): Record
    requires WellFormed(records) && GoodStep(step) && !step.Restart? && ChangeOf(records, step).Ok?
  {
    ChangeAdvances(records, step);
    Lookup(ChangeOf(records, step).value.records, step.attempt).value
  }

  lemma AcknowledgedMachine(store: Store, m: Machine, step: Step)
    requires Sound(store, m) && GoodStep(step) && !step.Restart? && Next(store, m, step).result.Ok?
    ensures m.memory.Some? && ChangeOf(m.memory.value, step).Ok?
    ensures Next(store, m, step).machine.memory == Some(ChangeOf(m.memory.value, step).value.records)
  {
    ChangeAdvances(m.memory.value, step);
  }

  lemma AcknowledgedIsKept(store: Store, m: Machine, step: Step, next: Machine)
    requires Faithful(store) && Sound(store, m) && GoodStep(step) && !step.Restart?
    requires Next(store, m, step).result.Ok? && next == Next(store, m, step).machine
    ensures m.memory.Some? && ChangeOf(m.memory.value, step).Ok?
    ensures Sound(store, next) && KeptInBoth(store, next, LeftBy(m.memory.value, step))
  {
    AcknowledgedMachine(store, m, step);
    StepKeepsSound(store, m, step);
    LeftByFound(m.memory.value, step);
    FoundIsKept(store, next, LeftBy(m.memory.value, step));
  }

  lemma LeftByFound(records: seq<Record>, step: Step)
    requires WellFormed(records) && GoodStep(step) && !step.Restart? && ChangeOf(records, step).Ok?
    ensures var next := ChangeOf(records, step).value.records;
            Sorted(next) && Lookup(next, LeftBy(records, step).attempt) == Some(LeftBy(records, step))
  {
    ChangeAdvances(records, step);
  }

  /** The record that acknowledged step k leaves is in the memory and the file right after it. */
  lemma LeftAt(store: Store, machines: seq<Machine>, steps: seq<Step>, k: nat)
    requires IsRun(store, machines, steps) && k < |steps|
    requires !steps[k].Restart? && ResultAt(store, machines, steps, k).Ok?
    ensures machines[k].memory.Some? && WellFormed(machines[k].memory.value) && GoodStep(steps[k])
    ensures ChangeOf(machines[k].memory.value, steps[k]).Ok? && Sound(store, machines[k + 1])
    ensures KeptInBoth(store, machines[k + 1], LeftBy(machines[k].memory.value, steps[k]))
  {
    RunKeepsSound(store, machines, steps, k);
    assert StepAt(store, machines, steps, k);
    AcknowledgedIsKept(store, machines[k], steps[k], machines[k + 1]);
  }

  /** And ever after, advanced at most. */
  lemma AcknowledgedStays(store: Store, machines: seq<Machine>, steps: seq<Step>, k: nat, n: nat) returns (left: Record)
    requires IsRun(store, machines, steps) && k < n < |machines|
    requires !steps[k].Restart? && ResultAt(store, machines, steps, k).Ok?
    ensures machines[k].memory.Some? && WellFormed(machines[k].memory.value) && GoodStep(steps[k])
    ensures ChangeOf(machines[k].memory.value, steps[k]).Ok? && left == LeftBy(machines[k].memory.value, steps[k])
    ensures Sound(store, machines[n]) && KeptInBoth(store, machines[n], left)
  {
    LeftAt(store, machines, steps, k);
    left := LeftBy(machines[k].memory.value, steps[k]);
    RunMovesAhead(store, machines, steps, left, k + 1, n);
  }

  lemma LeftByMark(records: seq<Record>, step: Step)
    requires WellFormed(records) && GoodStep(step) && step.DoMark? && ChangeOf(records, step).Ok?
    ensures LeftBy(records, step).phase == MayHaveReachedProvider && LeftBy(records, step).attempt == step.attempt
  {
    MarkAdvances(records, step.attempt);
  }

  /** Once a mark has been acknowledged, the attempt is never Ready again, whatever saves fail and
      however the process restarts. */
  lemma MarkedIsNeverReady(store: Store, machines: seq<Machine>, steps: seq<Step>, k: nat, n: nat)
    requires IsRun(store, machines, steps) && k < n < |machines|
    requires steps[k].DoMark? && ResultAt(store, machines, steps, k).Ok?
    ensures machines[n].memory.Some? ==>
              && Sorted(machines[n].memory.value)
              && DispatchDecision(machines[n].memory.value, steps[k].attempt) in {Ok(Reconcile), Ok(Complete)}
  {
    var left := AcknowledgedStays(store, machines, steps, k, n);
    LeftByMark(machines[k].memory.value, steps[k]);
  }

  /** An attempt crosses the provider boundary at most once. */
  lemma MarkedAtMostOnce(store: Store, machines: seq<Machine>, steps: seq<Step>, i: nat, j: nat)
    requires IsRun(store, machines, steps) && i < j < |steps|
    requires steps[i].DoMark? && steps[j].DoMark? && steps[i].attempt == steps[j].attempt
    requires ResultAt(store, machines, steps, i).Ok?
    ensures ResultAt(store, machines, steps, j) ==
            if machines[j].memory.Some? then Err(InvalidTransition) else Err(Persistence)
  {
    var left := AcknowledgedStays(store, machines, steps, i, j);
    LeftByMark(machines[i].memory.value, steps[i]);
    assert StepAt(store, machines, steps, j);
    if machines[j].memory.Some? { SecondMark(store, machines[j], steps[j], left); }
  }

  lemma SecondMark(store: Store, m: Machine, step: Step, r: Record)
    requires m.memory.Some? && WellFormed(m.memory.value) && GoodStep(step) && step.DoMark?
    requires Kept(r, m.memory.value) && r.attempt == step.attempt && r.phase != Prepared
    ensures Next(store, m, step).result == Err(InvalidTransition)
  {}

  /** An acknowledged provider reference never changes. */
  lemma ReferenceIsImmutable(store: Store, machines: seq<Machine>, steps: seq<Step>, k: nat, n: nat)
    requires IsRun(store, machines, steps) && k < n < |machines|
    requires steps[k].DoBind? && ResultAt(store, machines, steps, k).Ok?
    ensures machines[n].memory.Some? ==>
              && Sorted(machines[n].memory.value)
              && var r := Lookup(machines[n].memory.value, steps[k].attempt);
                 r.Some? && r.value.reference == Some(steps[k].reference) && r.value.phase == ProviderReferenceBound
  {
    var left := AcknowledgedStays(store, machines, steps, k, n);
    BindAdvances(machines[k].memory.value, steps[k].attempt, steps[k].reference);
    if machines[n].memory.Some? { LookupIsOk(machines[n].memory.value, steps[k].attempt); }
  }

  lemma LookupIsOk(records: seq<Record>, attempt: Digest)
    requires WellFormed(records) && Lookup(records, attempt).Some?
    ensures RecordOk(Lookup(records, attempt).value)
  {}

  /** An acknowledged attempt keeps its endpoint and request. */
  lemma RequestIsImmutable(store: Store, machines: seq<Machine>, steps: seq<Step>, k: nat, n: nat)
    requires IsRun(store, machines, steps) && k < n < |machines|
    requires steps[k].DoPrepare? && ResultAt(store, machines, steps, k).Ok?
    ensures machines[n].memory.Some? ==>
              && Sorted(machines[n].memory.value)
              && var r := Lookup(machines[n].memory.value, steps[k].attempt);
                 r.Some? && r.value.endpoint == steps[k].endpoint && r.value.request == steps[k].request
  {
    var left := AcknowledgedStays(store, machines, steps, k, n);
    var s := steps[k];
    PrepareAdvances(machines[k].memory.value, s.attempt, s.endpoint, s.request);
  }

  // ---------------------------------------------------------------------------------------------
  // When the journal is never lost
  // ---------------------------------------------------------------------------------------------

  /** Neither the memory nor the file holds a zero request commitment. */
  ghost predicate Reloadable(store: Store, m: Machine) {
    && m.memory.Some? && Loadable(m.memory.value)
    && (m.disk.Some? ==> store.load(m.disk.value).Ok? && Loadable(store.load(m.disk.value).value))
  }

  predicate Benign(step: Step) {
    && (step.DoPrepare? ==> step.request != 0)
    && (step.Restart? ==> step.readable)
  }

  lemma CommitKeepsReloadable(store: Store, m: Machine, c: Change, save: Save)
    requires Faithful(store) && Reloadable(store, m) && Loadable(c.records)
    ensures Reloadable(store, Commit(store, m, Ok(c), save).machine)
  {
    assert store.load(store.save(c.records)) == Ok(c.records);
  }

  lemma StepKeepsReloadable(store: Store, m: Machine, step: Step)
    requires Faithful(store) && Reloadable(store, m) && GoodStep(step) && Benign(step)
    ensures Reloadable(store, Next(store, m, step).machine)
  {
    if !step.Restart? && ChangeOf(m.memory.value, step).Ok? {
      ChangeAdvances(m.memory.value, step);
      CommitKeepsReloadable(store, m, ChangeOf(m.memory.value, step).value, step.save);
    }
  }

  /** As long as no request commitment is the zero digest and the file can be read, every restart of the
      run brings the journal back. */
  lemma JournalIsNeverLost(store: Store, machines: seq<Machine>, steps: seq<Step>, n: nat)
    requires IsRun(store, machines, steps) && Reloadable(store, machines[0]) && n < |machines|
    requires forall k | 0 <= k < |steps| :: Benign(steps[k])
    ensures Reloadable(store, machines[n])
  {
    var good := (m: Machine) => Reloadable(store, m);
    forall i | 0 <= i < n && good(machines[i]) ensures good(machines[i + 1]) {
      assert StepAt(store, machines, steps, i);
      StepKeepsReloadable(store, machines[i], steps[i]);
    }
    Along(machines, good, 0, n);
  }

  /** A new journal, before it has a file. */
  const NEW_JOURNAL: Machine := Machine(Some([]), None)

  lemma NewIsSound(store: Store)
    ensures Sound(store, NEW_JOURNAL) && Reloadable(store, NEW_JOURNAL)
  {}

  /** Every run that starts with a new journal is a run as above, and loses nothing under the same terms. */
  lemma NewJournalIsNeverLost(store: Store, machines: seq<Machine>, steps: seq<Step>, n: nat)
    requires Faithful(store) && |steps| == |machines| - 1 && machines[0] == NEW_JOURNAL && n < |machines|
    requires forall k | 0 <= k < |steps| :: StepAt(store, machines, steps, k) && Benign(steps[k])
    ensures IsRun(store, machines, steps) && Sound(store, machines[n]) && Reloadable(store, machines[n])
  {
    NewIsSound(store);
    RunKeepsSound(store, machines, steps, n);
    JournalIsNeverLost(store, machines, steps, n);
  }
}
