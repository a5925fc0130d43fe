/** Whole runs of the ledger: calls one after another, and the durable wrapper with failed writes and
restarts in between. */
module LedgerRuns {
  import opened Options
  import opened OrderedMaps
  import opened Ledger
  import opened LedgerAnswers
  import opened LedgerHistory
  import opened LedgerRestore
  import opened Sequences

  // ---------------------------------------------------------------------------------------------
  // An outcome, once given, stays in the ledger
  // ---------------------------------------------------------------------------------------------

  /** The ledger holds the outcome's record, indexes it, and finds its event. */
  ghost predicate Holds(s: State, o: Outcome) {
    var r := o.record;
    && r.settlementId in s.settlements && s.settlements[r.settlementId] == r
    && r.idempotencyId in s.idempotency && s.idempotency[r.idempotencyId] == r.settlementId
    && FindEvent(s.events, r.settlementId) == Some(o.event)
  }

  lemma {:induction false} FindEventAppend(events: seq<Event>, e: Event, id: Digest)
    ensures FindEvent(events + [e], id)
         == match FindEvent(events, id)
            case Some(found) => Some(found)
            case None => if e.settlementId == id then Some(e) else None
  {
    if events == [] {
      assert (events + [e])[0] == e;
    } else {
      assert (events + [e])[0] == events[0] && (events + [e])[1..] == events[1..] + [e];
      FindEventAppend(events[1..], e, id);
    }
  }

  lemma {:induction false} FindEventNone(events: seq<Event>, id: Digest)
    requires forall k | 0 <= k < |events| :: events[k].settlementId != id
    ensures FindEvent(events, id) == None
  {
    if events != [] { FindEventNone(events[1..], id); }
  }

  lemma NoEventYet(commit: Commit, s: State, id: Digest)
    requires Coherent(commit, s) && id !in s.settlements
    ensures FindEvent(s.events, id) == None
  {
    var opening: map<Principal, nat>, records: seq<Record> :| IsHistory(commit, s, opening, records);
    forall k | 0 <= k < |s.events| ensures s.events[k].settlementId != id {
      assert Entered(commit, s, records[k], k);
    }
    FindEventNone(s.events, id);
  }

  lemma SettledHolds(commit: Commit, s: State, i: Instruction, o: Outcome)
    requires Payable(s.accounts, i)
    requires i.SettlementId(commit) !in s.settlements && i.IdempotencyId(commit) !in s.idempotency
    requires Holds(s, o)
    ensures Holds(Settled(commit, s, i), o)
  {
    FindEventAppend(s.events, EventOf(commit, NewRecord(commit, s, i)), o.record.settlementId);
  }

  /** Later calls keep every outcome. */
  lemma SettleKeepsHeld(commit: Commit, s: State, c: Call, o: Outcome)
    requires Coherent(commit, s) && Separates(commit, InstructionsOf(s) + {c.instruction})
    requires Holds(s, o)
    ensures Holds(Settle(commit, s, c).state, o)
  {
    if Settle(commit, s, c).state != s {
      FreshSettlementId(commit, s, c.instruction);
      SettledHolds(commit, s, c.instruction, o);
    }
  }

  /** A successful call leaves its outcome in the ledger, under the call's own ids. */
  lemma SuccessIsHeld(commit: Commit, s: State, c: Call)
    requires Coherent(commit, s) && Separates(commit, InstructionsOf(s) + {c.instruction})
    requires Settle(commit, s, c).result.Ok?
    ensures var o := Settle(commit, s, c).result.value;
            && Holds(Settle(commit, s, c).state, o)
            && o.record.instruction == c.instruction
            && o.record.settlementId == c.instruction.SettlementId(commit)
            && o.record.idempotencyId == c.instruction.IdempotencyId(commit)
  {
    var i, o := c.instruction, Settle(commit, s, c).result.value;
    var id := i.SettlementId(commit);
    if o.duplicate {
      var opening: map<Principal, nat>, records: seq<Record> :| IsHistory(commit, s, opening, records);
      RecordEntered(commit, s, opening, records, id);
      assert s.settlements[id].instruction in InstructionsOf(s) + {i};
    } else {
      FreshSettlementId(commit, s, i);
      NoEventYet(commit, s, id);
      FindEventAppend(s.events, o.event, id);
    }
  }

  /** A call whose triple has an outcome in the ledger: an exact repeat gets the original record and
      event, anything else an error, and the ledger does not change. */
  lemma RepeatOfHeld(commit: Commit, s: State, c: Call, o: Outcome)
    requires Holds(s, o) && o.record.idempotencyId == c.instruction.IdempotencyId(commit)
    requires o.record.settlementId == o.record.instruction.SettlementId(commit)
    requires Separates(commit, {o.record.instruction, c.instruction})
    ensures Settle(commit, s, c).state == s
    ensures Entitled(s, c) && Proven(c) ==>
              Settle(commit, s, c).result == if c.instruction == o.record.instruction
                                             then Ok(Outcome(o.record, o.event, true)) else Err(IdempotencyConflict)
    ensures Settle(commit, s, c).result.Ok? ==> Settle(commit, s, c).result.value == Outcome(o.record, o.event, true)
  {}

  // ---------------------------------------------------------------------------------------------
  // Runs of calls
  // ---------------------------------------------------------------------------------------------

  /** Call k takes ledger k to ledger k + 1. */
  ghost predicate CallAt(commit: Commit, states: seq<State>, calls: seq<Call>, k: nat)
    requires k < |calls| == |states| - 1
  {
    states[k + 1] == Settle(commit, states[k], calls[k]).state
  }

  /** A run: the ledgers met, and the calls between them. */
  ghost predicate IsRun(commit: Commit, states: seq<State>, calls: seq<Call>) {
    && |calls| == |states| - 1
    && forall k | 0 <= k < |calls| :: CallAt(commit, states, calls, k)
  }

  function ResultAt(commit: Commit, states: seq<State>, calls: seq<Call>, k: nat): Result<Outcome>
    requires k < |calls| == |states| - 1
  {
    Settle(commit, states[k], calls[k]).result
  }

  /** The call is good for the ledger it meets, and its instruction is in the universe. */
  ghost predicate GoodCallAt(
    commit: Commit, states: seq<State>, calls: seq<Call>, universe: set<Instruction>, k: nat)
    requires k < |calls| == |states| - 1
  {
    GoodCall(commit, states[k], calls[k]) && calls[k].instruction in universe
  }

  /** A run from a coherent ledger, over instructions whose commitments differ. */
  ghost predicate GoodRun(commit: Commit, states: seq<State>, calls: seq<Call>, universe: set<Instruction>) {
    && IsRun(commit, states, calls) && Separates(commit, universe)
    && Fit(commit, states[0], universe, Total(states[0].accounts))
    && forall k | 0 <= k < |calls| :: GoodCallAt(commit, states, calls, universe, k)
  }

  /** A replayable history over the universe, with the given total. */
  ghost predicate Fit(commit: Commit, s: State, universe: set<Instruction>, total: nat) {
    Coherent(commit, s) && InstructionsOf(s) <= universe && Total(s.accounts) == total
  }

  lemma SettleInstructions(commit: Commit, s: State, c: Call)
    ensures InstructionsOf(Settle(commit, s, c).state) <= InstructionsOf(s) + {c.instruction}
  {}

  lemma SeparatesSubset(commit: Commit, small: set<Instruction>, large: set<Instruction>)
    requires small <= large && Separates(commit, large)
    ensures Separates(commit, small)
  {}

  lemma SettleKeepsFit(commit: Commit, s: State, c: Call, universe: set<Instruction>, total: nat)
    requires Fit(commit, s, universe, total) && Separates(commit, universe)
    requires GoodCall(commit, s, c) && c.instruction in universe
    ensures Fit(commit, Settle(commit, s, c).state, universe, total)
  {
    SeparatesSubset(commit, InstructionsOf(s) + {c.instruction}, universe);
    SettleKeepsCoherent(commit, s, c);
    SettleConserves(commit, s, c);
    SettleInstructions(commit, s, c);
  }

  /** Over any run the ledger stays a replayable history with the same total. */
  lemma {:induction false} RunKeepsCoherent(
    commit: Commit, states: seq<State>, calls: seq<Call>, universe: set<Instruction>, n: nat)
    requires GoodRun(commit, states, calls, universe) && n < |states|
    ensures Fit(commit, states[n], universe, Total(states[0].accounts))
  {
    if n > 0 {
      var k := n - 1;
      RunKeepsCoherent(commit, states, calls, universe, k);
      assert CallAt(commit, states, calls, k) && GoodCallAt(commit, states, calls, universe, k);
      SettleKeepsFit(commit, states[k], calls[k], universe, Total(states[0].accounts));
    }
  }

  /** For every ledger reached from a new one by settle calls, restoring its snapshot gives back the
      same ledger. */
  lemma ReachedLedgerRestores(
    commit: Commit, chain: Digest, unit: Digest, authority: Principal, accounts: map<Principal, nat>,
    states: seq<State>, calls: seq<Call>, universe: set<Instruction>, n: nat)
    requires Bounded(NewState(chain, unit, authority, accounts)) && Separates(commit, universe)
    requires IsRun(commit, states, calls) && states[0] == NewState(chain, unit, authority, accounts)
    requires forall k | 0 <= k < |calls| :: GoodCallAt(commit, states, calls, universe, k)
    requires n < |states|
    ensures Accepts(commit, SnapshotOf(states[n])) && StateOf(SnapshotOf(states[n])) == states[n]
  {
    NewStateCoherent(commit, chain, unit, authority, accounts);
    assert InstructionsOf(states[0]) == {};
    RunKeepsCoherent(commit, states, calls, universe, n);
    SnapshotRestores(commit, states[n]);
  }

  lemma HeldOneMore(
    commit: Commit, states: seq<State>, calls: seq<Call>, universe: set<Instruction>, o: Outcome, k: nat)
    requires GoodRun(commit, states, calls, universe) && k < |calls| && Holds(states[k], o)
    ensures Holds(states[k + 1], o)
  {
    RunKeepsCoherent(commit, states, calls, universe, k);
    assert CallAt(commit, states, calls, k) && GoodCallAt(commit, states, calls, universe, k);
    SeparatesSubset(commit, InstructionsOf(states[k]) + {calls[k].instruction}, universe);
    SettleKeepsHeld(commit, states[k], calls[k], o);
  }

  lemma HeldFromThenOn(
    commit: Commit, states: seq<State>, calls: seq<Call>, universe: set<Instruction>, o: Outcome, k: nat, n: nat)
    requires GoodRun(commit, states, calls, universe) && k <= n < |states| && Holds(states[k], o)
    ensures Holds(states[n], o)
  {
    var good := (s: State) => Holds(s, o);
    forall i | k <= i < n && good(states[i]) ensures good(states[i + 1]) {
      HeldOneMore(commit, states, calls, universe, o, i);
    }
    Along(states, good, k, n);
  }

  /** An outcome given at call k is held after that call and every later one, under the call's ids. */
  lemma HeldEverAfter(
    commit: Commit, states: seq<State>, calls: seq<Call>, universe: set<Instruction>, k: nat, n: nat)
    requires GoodRun(commit, states, calls, universe)
    requires k < n < |states| && ResultAt(commit, states, calls, k).Ok?
    ensures var o := ResultAt(commit, states, calls, k).value;
            && Holds(states[n], o) && o.record.instruction == calls[k].instruction
            && o.record.settlementId == calls[k].instruction.SettlementId(commit)
            && o.record.idempotencyId == calls[k].instruction.IdempotencyId(commit)
  {
    RunKeepsCoherent(commit, states, calls, universe, k);
    assert CallAt(commit, states, calls, k) && GoodCallAt(commit, states, calls, universe, k);
    SeparatesSubset(commit, InstructionsOf(states[k]) + {calls[k].instruction}, universe);
    SuccessIsHeld(commit, states[k], calls[k]);
    HeldFromThenOn(commit, states, calls, universe, ResultAt(commit, states, calls, k).value, k + 1, n);
  }

  /** The same evidence, agreement and policy version. */
  predicate SameTriple(a: Instruction, b: Instruction) {
    && a.finality.evidence == b.finality.evidence && a.agreement == b.agreement
    && a.settlementPolicy == b.settlementPolicy
  }

  /** Exactly once: after a success, no later call with the same evidence, agreement and policy
      version changes the ledger; the exact repeat returns the original record and event, and a
      different instruction is refused. */
  lemma ExactlyOnce(
    commit: Commit, states: seq<State>, calls: seq<Call>, universe: set<Instruction>, i: nat, j: nat)
    requires GoodRun(commit, states, calls, universe)
    requires i < j < |calls| && ResultAt(commit, states, calls, i).Ok?
    requires SameTriple(calls[i].instruction, calls[j].instruction)
    ensures states[j + 1] == states[j]
    ensures var first, again := ResultAt(commit, states, calls, i).value, ResultAt(commit, states, calls, j);
            && (again.Ok? ==> again.value == Outcome(first.record, first.event, true))
            && (Entitled(states[j], calls[j]) && Proven(calls[j]) ==>
                  again == if calls[j].instruction == calls[i].instruction
                           then Ok(Outcome(first.record, first.event, true)) else Err(IdempotencyConflict))
  {
    HeldEverAfter(commit, states, calls, universe, i, j);
    assert GoodCallAt(commit, states, calls, universe, i) && GoodCallAt(commit, states, calls, universe, j);
    SeparatesSubset(commit, {calls[i].instruction, calls[j].instruction}, universe);
    RepeatOfHeld(commit, states[j], calls[j], ResultAt(commit, states, calls, i).value);
    assert CallAt(commit, states, calls, j);
  }

  // ---------------------------------------------------------------------------------------------
  // Whole runs: every record in the ledger was entitled and proven
  // ---------------------------------------------------------------------------------------------

  /** Call k was entitled and proven, and the record is its answer. */
  ghost predicate ProvenBy(commit: Commit, states: seq<State>, calls: seq<Call>, r: Record, k: nat)
    requires |calls| == |states| - 1
  {
    && k < |calls| && Entitled(states[k], calls[k]) && Proven(calls[k]) && r.instruction == calls[k].instruction
    && ResultAt(commit, states, calls, k).Ok? && ResultAt(commit, states, calls, k).value.record == r
    && !ResultAt(commit, states, calls, k).value.duplicate
  }

  lemma RecordOfCall(commit: Commit, s: State, c: Call, id: Digest)
    requires id in Settle(commit, s, c).state.settlements
    requires !(id in s.settlements && s.settlements[id] == Settle(commit, s, c).state.settlements[id])
    ensures Entitled(s, c) && Proven(c)
    ensures var r := Settle(commit, s, c).result;
            && r.Ok? && !r.value.duplicate && r.value.record == Settle(commit, s, c).state.settlements[id]
            && r.value.record.instruction == c.instruction
  {}

  /** In every run, each record of the ledger that was not there at the start was answered by a call
      of the ledger's authority whose evidence was proven. */
  lemma {:induction false} EveryRecordWasProven(
    commit: Commit, states: seq<State>, calls: seq<Call>, id: Digest, n: nat)
    requires IsRun(commit, states, calls) && n < |states| && id in states[n].settlements
    requires !(id in states[0].settlements && states[0].settlements[id] == states[n].settlements[id])
    ensures exists k :: 0 <= k < n && ProvenBy(commit, states, calls, states[n].settlements[id], k)
  {
    var r, k := states[n].settlements[id], n - 1;
    assert CallAt(commit, states, calls, k);
    if id in states[k].settlements && states[k].settlements[id] == r {
      EveryRecordWasProven(commit, states, calls, id, k);
    } else {
      RecordOfCall(commit, states[k], calls[k], id);
      assert ProvenBy(commit, states, calls, r, k);
    }
  }

  // ---------------------------------------------------------------------------------------------
  // The durable wrapper
  // ---------------------------------------------------------------------------------------------

  /** How an attempt to replace the file ends: the directory sync can fail after the rename. */
  datatype Write = FailedBeforeRename | FailedAfterRename | Written

  datatype Machine = Machine(memory: State, disk: Snapshot)

  datatype Step = DurableSettle(call: Call, write: Write) | Reopen

  datatype Answer = Answer(machine: Machine, result: Result<Outcome>)

  /** Settle on a copy, encode and persist the copy, and only then adopt it and answer. */
  function DurableSettleSpec(commit: Commit, m: Machine, c: Call, write: Write): Answer {
    var t := Settle(commit, m.memory, c);
    Persisted(m, t, SnapshotOf(t.state), write)
  }

  /** The copy's transition and snapshot, and what the write makes of them. */
  function Persisted(m: Machine, t: Transition, p: Snapshot, write: Write): Answer {
    if t.result.Err? then Answer(m, t.result)
    else if !Encodable(p) then Answer(m, Err(Encoding))
    else
      match write
      case FailedBeforeRename => Answer(m, Err(Persistence))
      case FailedAfterRename => Answer(m.(disk := p), Err(Persistence))
      case Written => Answer(Machine(t.state, p), t.result)
  }

  /** A restart loses the memory and restores the file. */
  function ReopenSpec(commit: Commit, m: Machine): Machine {
    if Accepts(commit, m.disk) then m.(memory := StateOf(m.disk)) else m
  }

  function Next(commit: Commit, m: Machine, step: Step): Machine {
    match step
    case DurableSettle(c, write) => DurableSettleSpec(commit, m, c, write).machine
    case Reopen => ReopenSpec(commit, m)
  }

  /** Memory and file are both replayable histories over the same instructions and total. */
  ghost predicate Sound(commit: Commit, m: Machine, universe: set<Instruction>, total: nat) {
    Fit(commit, m.memory, universe, total) && Ordered(m.disk) && Fit(commit, StateOf(m.disk), universe, total)
  }

  /** A settle call that is good for the memory it meets. */
  ghost predicate GoodStep(commit: Commit, m: Machine, step: Step, universe: set<Instruction>) {
    step.DurableSettle? ==> GoodCall(commit, m.memory, step.call) && step.call.instruction in universe
  }

  ghost predicate HeldInBoth(m: Machine, o: Outcome) {
    Holds(m.memory, o) && Holds(StateOf(m.disk), o)
  }

  /** What `create` leaves: a coherent ledger and the file of its snapshot. */
  lemma CreatedIsSound(commit: Commit, s: State)
    requires Coherent(commit, s)
    ensures Sound(commit, Machine(s, SnapshotOf(s)), InstructionsOf(s), Total(s.accounts))
  {
    StateOfSnapshotOf(s);
  }

  /** The ledger that a settle call leads to. */
  ghost predicate Follows(commit: Commit, m: Machine, c: Call, next: State) {
    next == Settle(commit, m.memory, c).state
  }

  lemma SettledMachine(
    commit: Commit, m: Machine, c: Call, universe: set<Instruction>, total: nat, next: State)
    requires Sound(commit, m, universe, total) && Separates(commit, universe)
    requires GoodCall(commit, m.memory, c) && c.instruction in universe && Follows(commit, m, c, next)
    ensures Fit(commit, next, universe, total) && Ordered(SnapshotOf(next)) && StateOf(SnapshotOf(next)) == next
  {
    SettleKeepsFit(commit, m.memory, c, universe, total);
    StateOfSnapshotOf(next);
  }

  /** The four machines a step can lead to. */
  ghost predicate Shape(m: Machine, settled: State, next: Machine) {
    || next == m || next == Machine(StateOf(m.disk), m.disk)
    || next == Machine(settled, SnapshotOf(settled)) || next == Machine(m.memory, SnapshotOf(settled))
  }

  lemma PersistedShapes(m: Machine, t: Transition, p: Snapshot, write: Write)
    ensures var a := Persisted(m, t, p, write);
            && (a.machine == m || a.machine == Machine(t.state, p) || a.machine == Machine(m.memory, p))
            && (a.result.Ok? ==> t.result == a.result && a.machine == Machine(t.state, p))
  {}

  lemma SettleShapes(commit: Commit, m: Machine, c: Call, write: Write, settled: State)
    requires Follows(commit, m, c, settled)
    ensures Shape(m, settled, DurableSettleSpec(commit, m, c, write).machine)
    ensures DurableSettleSpec(commit, m, c, write).result.Ok? ==>
              && Settle(commit, m.memory, c).result == DurableSettleSpec(commit, m, c, write).result
              && DurableSettleSpec(commit, m, c, write).machine == Machine(settled, SnapshotOf(settled))
  {
    PersistedShapes(m, Settle(commit, m.memory, c), SnapshotOf(settled), write);
  }

  /** A sound machine's file passes every check of restore. */
  lemma RestartNeverFails(commit: Commit, m: Machine, universe: set<Instruction>, total: nat)
    requires Sound(commit, m, universe, total)
    ensures Accepts(commit, m.disk)
  {
    CoherentIsAccepted(commit, m.disk);
  }

  /** Memory moves only with an acknowledgement, and an acknowledgement is given only after a write that
      succeeded. A refused settlement, or a write that fails before the rename, leaves the machine alone;
      a write that fails after it leaves the settlement in the file only. */
  lemma DurableAnswers(commit: Commit, m: Machine, c: Call, write: Write)
    ensures var t, a := Settle(commit, m.memory, c), DurableSettleSpec(commit, m, c, write);
            && (a.result.Err? ==> a.machine.memory == m.memory)
            && (t.result.Err? ==> a == Answer(m, t.result))
            && (write.FailedBeforeRename? || a.result == Err(Encoding) ==> a.machine == m)
            && (a.result.Ok? <==> t.result.Ok? && Encodable(SnapshotOf(t.state)) && write.Written?)
            && (a.result == Err(Persistence) <==>
                  t.result.Ok? && Encodable(SnapshotOf(t.state)) && !write.Written?)
            && (a.result == Err(Persistence) && write.FailedAfterRename? ==> a.machine.disk == SnapshotOf(t.state))
            && (a.result.Ok? ==> a.result == t.result && a.machine == Machine(t.state, SnapshotOf(t.state)))
  {
    var t := Settle(commit, m.memory, c);
    assert t.result.Err? ==> t.result.error != Persistence && t.result.error != Encoding by {
      SettleErrorsAreItsOwn(commit, m.memory, c);
    }
    PersistedAnswers(m, t, SnapshotOf(t.state), write);
  }

  lemma SettleErrorsAreItsOwn(commit: Commit, s: State, c: Call)
    ensures Settle(commit, s, c).result != Err(Persistence) && Settle(commit, s, c).result != Err(Encoding)
  {}

  lemma PersistedAnswers(m: Machine, t: Transition, p: Snapshot, write: Write)
    requires t.result != Err(Persistence) && t.result != Err(Encoding)
    ensures var a := Persisted(m, t, p, write);
            && (a.result.Err? ==> a.machine.memory == m.memory)
            && (t.result.Err? ==> a == Answer(m, t.result))
            && (write.FailedBeforeRename? || a.result == Err(Encoding) ==> a.machine == m)
            && (a.result.Ok? <==> t.result.Ok? && Encodable(p) && write.Written?)
            && (a.result == Err(Persistence) <==> t.result.Ok? && Encodable(p) && !write.Written?)
            && (a.result == Err(Persistence) && write.FailedAfterRename? ==> a.machine.disk == p)
            && (a.result.Ok? ==> a.result == t.result && a.machine == Machine(t.state, p))
  {}

  lemma ShapesKeepSound(
    commit: Commit, m: Machine, settled: State, universe: set<Instruction>, total: nat, next: Machine)
    requires Sound(commit, m, universe, total) && Shape(m, settled, next) && Fit(commit, settled, universe, total)
    requires Ordered(SnapshotOf(settled)) && StateOf(SnapshotOf(settled)) == settled
    ensures Sound(commit, next, universe, total)
  {}

  /** Every step keeps memory and file sound. */
  lemma StepKeepsSound(
    commit: Commit, m: Machine, step: Step, universe: set<Instruction>, total: nat, next: Machine)
    requires Sound(commit, m, universe, total) && Separates(commit, universe)
    requires GoodStep(commit, m, step, universe) && next == Next(commit, m, step)
    ensures Sound(commit, next, universe, total)
  {
    if step.DurableSettle? {
      var settled := Settle(commit, m.memory, step.call).state;
      SettledMachine(commit, m, step.call, universe, total, settled);
      SettleShapes(commit, m, step.call, step.write, settled);
      ShapesKeepSound(commit, m, settled, universe, total, next);
    }
  }

  lemma ShapesKeepHeld(m: Machine, settled: State, o: Outcome, next: Machine)
    requires HeldInBoth(m, o) && Holds(settled, o) && StateOf(SnapshotOf(settled)) == settled
    requires Shape(m, settled, next)
    ensures HeldInBoth(next, o)
  {}

  /** Every step keeps every acknowledged outcome, in memory and in the file. */
  lemma StepKeepsHeld(
    commit: Commit, m: Machine, step: Step, universe: set<Instruction>, total: nat, o: Outcome, next: Machine)
    requires Sound(commit, m, universe, total) && Separates(commit, universe)
    requires GoodStep(commit, m, step, universe) && HeldInBoth(m, o) && next == Next(commit, m, step)
    ensures HeldInBoth(next, o)
  {
    if step.DurableSettle? {
      var settled := Settle(commit, m.memory, step.call).state;
      SeparatesSubset(commit, InstructionsOf(m.memory) + {step.call.instruction}, universe);
      SettleKeepsHeld(commit, m.memory, step.call, o);
      SettleShapes(commit, m, step.call, step.write, settled);
      StateOfSnapshotOf(settled);
      ShapesKeepHeld(m, settled, o, next);
    }
  }

  /** A ledger that has just been written holds in both places what it holds. */
  lemma WrittenIsHeld(s: State, o: Outcome)
    requires Holds(s, o)
    ensures HeldInBoth(Machine(s, SnapshotOf(s)), o)
  {
    StateOfSnapshotOf(s);
  }

  lemma AcknowledgedIsHeld(
    commit: Commit, m: Machine, c: Call, write: Write, universe: set<Instruction>, total: nat, o: Outcome,
    next: Machine)
    requires Sound(commit, m, universe, total) && Separates(commit, universe)
    requires GoodCall(commit, m.memory, c) && c.instruction in universe
    requires DurableSettleSpec(commit, m, c, write) == Answer(next, Ok(o))
    ensures HeldInBoth(next, o)
    ensures o.record.instruction == c.instruction
    ensures o.record.idempotencyId == c.instruction.IdempotencyId(commit)
  {
    var settled := Settle(commit, m.memory, c).state;
    SettleShapes(commit, m, c, write, settled);
    SeparatesSubset(commit, InstructionsOf(m.memory) + {c.instruction}, universe);
    SuccessIsHeld(commit, m.memory, c);
    WrittenIsHeld(settled, o);
  }

  /** In a sound machine the copy always encodes. */
  lemma SettledEncodes(commit: Commit, m: Machine, c: Call, universe: set<Instruction>, total: nat)
    requires Sound(commit, m, universe, total) && Separates(commit, universe)
    requires GoodCall(commit, m.memory, c) && c.instruction in universe
    ensures Accepts(commit, SnapshotOf(Settle(commit, m.memory, c).state))
  {
    SettleKeepsFit(commit, m.memory, c, universe, total);
    SnapshotRestores(commit, Settle(commit, m.memory, c).state);
  }

  /** A settlement whose write fails after the rename is refused. Repeating the call without a restart
      answers as if the first attempt had not been made, a first settlement if it was one; after a restart,
      which reads the file, it is a duplicate of the settlement that the refused call made. */
  lemma RetryAfterFailedSync(
    commit: Commit, m: Machine, c: Call, universe: set<Instruction>, total: nat, o: Outcome)
    requires Sound(commit, m, universe, total) && Separates(commit, universe)
    requires GoodCall(commit, m.memory, c) && c.instruction in universe
    requires Settle(commit, m.memory, c).result == Ok(o)
    ensures var failed := DurableSettleSpec(commit, m, c, FailedAfterRename);
            && failed.result == Err(Persistence)
            && DurableSettleSpec(commit, failed.machine, c, Written).result == Ok(o)
    ensures var restarted := Next(commit, DurableSettleSpec(commit, m, c, FailedAfterRename).machine, Reopen);
            && restarted.memory == Settle(commit, m.memory, c).state
            && DurableSettleSpec(commit, restarted, c, Written)
            == Answer(restarted, Ok(Outcome(o.record, o.event, true)))
  {
    var settled := Settle(commit, m.memory, c).state;
    var failed := DurableSettleSpec(commit, m, c, FailedAfterRename).machine;
    SettledEncodes(commit, m, c, universe, total);
    DurableAnswers(commit, m, c, FailedAfterRename);
    DurableAnswers(commit, failed, c, Written);
    var restarted := Next(commit, failed, Reopen);
    StateOfSnapshotOf(settled);
    assert restarted == Machine(settled, SnapshotOf(settled));
    RetryOfSettled(commit, m.memory, c, universe, o);
    DurableAnswers(commit, restarted, c, Written);
  }

  /** The ledger that a success leaves answers the same call with the same record and event. */
  lemma RetryOfSettled(commit: Commit, s: State, c: Call, universe: set<Instruction>, o: Outcome)
    requires Coherent(commit, s) && Separates(commit, universe) && InstructionsOf(s) <= universe
    requires c.instruction in universe && Settle(commit, s, c).result == Ok(o)
    ensures var settled := Settle(commit, s, c).state;
            Settle(commit, settled, c) == Transition(settled, Ok(Outcome(o.record, o.event, true)))
  {
    SeparatesSubset(commit, InstructionsOf(s) + {c.instruction}, universe);
    SuccessIsHeld(commit, s, c);
    RepeatOfHeld(commit, Settle(commit, s, c).state, c, o);
  }

  // ---------------------------------------------------------------------------------------------
  // Runs of the durable wrapper
  // ---------------------------------------------------------------------------------------------

  /** Step k takes machine k to machine k + 1, and is good for the memory it meets. */
  ghost predicate GoodStepAt(
    commit: Commit, machines: seq<Machine>, steps: seq<Step>, universe: set<Instruction>, k: nat)
    requires k < |steps| == |machines| - 1
  {
    machines[k + 1] == Next(commit, machines[k], steps[k]) && GoodStep(commit, machines[k], steps[k], universe)
  }

  /** A run of the wrapper from a sound machine: settlements, failed writes and restarts. */
  ghost predicate DurableRun(
    commit: Commit, machines: seq<Machine>, steps: seq<Step>, universe: set<Instruction>, total: nat)
  {
    && |steps| == |machines| - 1 && Sound(commit, machines[0], universe, total) && Separates(commit, universe)
    && forall k | 0 <= k < |steps| :: GoodStepAt(commit, machines, steps, universe, k)
  }

  /** What step k acknowledges, if it is a settlement that succeeds, fits the lists of the encoder, and is
      written. */
  function Acknowledged(commit: Commit, machines: seq<Machine>, steps: seq<Step>, k: nat): Option<Outcome>
    requires k < |steps| == |machines| - 1
  {
    match steps[k]
    case Reopen => None
    case DurableSettle(c, write) =>
      var t := Settle(commit, machines[k].memory, c);
      if t.result.Ok? && WithinLimits(t.state) && write.Written? then Some(t.result.value) else None
  }

  predicate WithinLimits(s: State) {
    && |s.accounts| <= MAX_ACCOUNTS && |s.settlements| <= MAX_SETTLEMENTS
    && |s.idempotency| <= MAX_SETTLEMENTS && |s.events| <= MAX_REPUTATION_EVENTS
  }

  lemma LimitsAreEncodable(s: State)
    ensures WithinLimits(s) <==> Encodable(SnapshotOf(s))
  {}

  /** That is the answer the durable settle gives. */
  lemma AcknowledgedIsAnswer(commit: Commit, machines: seq<Machine>, steps: seq<Step>, k: nat, o: Outcome)
    requires k < |steps| == |machines| - 1 && steps[k].DurableSettle?
    ensures Acknowledged(commit, machines, steps, k) == Some(o) <==>
            DurableSettleSpec(commit, machines[k], steps[k].call, steps[k].write).result == Ok(o)
  {
    var t := Settle(commit, machines[k].memory, steps[k].call);
    LimitsAreEncodable(t.state);
    DurableAnswers(commit, machines[k], steps[k].call, steps[k].write);
  }

  lemma {:induction false} RunKeepsSound(
    commit: Commit, machines: seq<Machine>, steps: seq<Step>, universe: set<Instruction>, total: nat, n: nat)
    requires DurableRun(commit, machines, steps, universe, total) && n < |machines|
    ensures Sound(commit, machines[n], universe, total)
  {
    if n > 0 {
      var k := n - 1;
      RunKeepsSound(commit, machines, steps, universe, total, k);
      assert GoodStepAt(commit, machines, steps, universe, k);
      StepKeepsSound(commit, machines[k], steps[k], universe, total, machines[n]);
    }
  }

  /** What an acknowledged step leaves right after it. */
  lemma HeldAtOnce(
    commit: Commit, machines: seq<Machine>, steps: seq<Step>, universe: set<Instruction>, total: nat, k: nat)
    requires DurableRun(commit, machines, steps, universe, total)
    requires k < |steps| && Acknowledged(commit, machines, steps, k).Some?
    ensures steps[k].DurableSettle?
    ensures var o := Acknowledged(commit, machines, steps, k).value;
            HeldInBoth(machines[k + 1], o) && o.record.idempotencyId == steps[k].call.instruction.IdempotencyId(commit)
  {
    RunKeepsSound(commit, machines, steps, universe, total, k);
    assert GoodStepAt(commit, machines, steps, universe, k);
    var o := Acknowledged(commit, machines, steps, k).value;
    AcknowledgedIsAnswer(commit, machines, steps, k, o);
    AcknowledgedIsHeld(commit, machines[k], steps[k].call, steps[k].write, universe, total, o, machines[k + 1]);
  }

  lemma StillHeldOneMore(
    commit: Commit, machines: seq<Machine>, steps: seq<Step>, universe: set<Instruction>, total: nat, o: Outcome,
    k: nat)
    requires DurableRun(commit, machines, steps, universe, total) && k < |steps| && HeldInBoth(machines[k], o)
    ensures HeldInBoth(machines[k + 1], o)
  {
    RunKeepsSound(commit, machines, steps, universe, total, k);
    assert GoodStepAt(commit, machines, steps, universe, k);
    StepKeepsHeld(commit, machines[k], steps[k], universe, total, o, machines[k + 1]);
  }

  lemma StillHeld(
    commit: Commit, machines: seq<Machine>, steps: seq<Step>, universe: set<Instruction>, total: nat, o: Outcome,
    k: nat, n: nat)
    requires DurableRun(commit, machines, steps, universe, total) && k <= n < |machines| && HeldInBoth(machines[k], o)
    ensures HeldInBoth(machines[n], o)
  {
    var good := (m: Machine) => HeldInBoth(m, o);
    forall i | k <= i < n && good(machines[i]) ensures good(machines[i + 1]) {
      StillHeldOneMore(commit, machines, steps, universe, total, o, i);
    }
    Along(machines, good, k, n);
  }

  /** In any run of settlements, writes that fail before or after the rename, and restarts, every
      acknowledged settlement is in memory and in the file ever after, and the total never changes. */
  lemma AcknowledgedSurvives(
    commit: Commit, machines: seq<Machine>, steps: seq<Step>, universe: set<Instruction>, total: nat, k: nat, n: nat)
    requires DurableRun(commit, machines, steps, universe, total)
    requires k < n < |machines| && Acknowledged(commit, machines, steps, k).Some?
    ensures HeldInBoth(machines[n], Acknowledged(commit, machines, steps, k).value)
    ensures Total(machines[n].memory.accounts) == total && Total(StateOf(machines[n].disk).accounts) == total
  {
    HeldAtOnce(commit, machines, steps, universe, total, k);
    StillHeld(commit, machines, steps, universe, total, Acknowledged(commit, machines, steps, k).value, k + 1, n);
    TotalsStay(commit, machines, steps, universe, total, n);
  }

  lemma TotalsStay(
    commit: Commit, machines: seq<Machine>, steps: seq<Step>, universe: set<Instruction>, total: nat, n: nat)
    requires DurableRun(commit, machines, steps, universe, total) && n < |machines|
    ensures Total(machines[n].memory.accounts) == total && Total(StateOf(machines[n].disk).accounts) == total
  {
    RunKeepsSound(commit, machines, steps, universe, total, n);
  }

  /** Two acknowledged settlements of one triple, with any failures and restarts between them, are
      the same settlement: the second answer repeats the first record and event. */
  lemma AcknowledgedOnce(
    commit: Commit, machines: seq<Machine>, steps: seq<Step>, universe: set<Instruction>, total: nat, i: nat, j: nat)
    requires DurableRun(commit, machines, steps, universe, total) && i < j < |steps|
    requires Acknowledged(commit, machines, steps, i).Some? && Acknowledged(commit, machines, steps, j).Some?
    requires steps[i].DurableSettle? && steps[j].DurableSettle?
    requires SameTriple(steps[i].call.instruction, steps[j].call.instruction)
    ensures var first := Acknowledged(commit, machines, steps, i).value;
            Acknowledged(commit, machines, steps, j).value == Outcome(first.record, first.event, true)
  {
    HeldAtOnce(commit, machines, steps, universe, total, i);
    AcknowledgedSurvives(commit, machines, steps, universe, total, i, j);
    var first, second := Acknowledged(commit, machines, steps, i).value, Acknowledged(commit, machines, steps, j).value;
    var memory, c := machines[j].memory, steps[j].call;
    RepeatedAnswer(commit, memory, c, first, second);
  }

  lemma RepeatedAnswer(commit: Commit, s: State, c: Call, first: Outcome, second: Outcome)
    requires Holds(s, first) && first.record.idempotencyId == c.instruction.IdempotencyId(commit)
    requires Settle(commit, s, c).result == Ok(second)
    ensures second == Outcome(first.record, first.event, true)
  {}
}
