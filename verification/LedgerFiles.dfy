/** The ledger and its file over whole runs: fields keep within their widths, and the file always holds a
ledger that a restart restores, byte for byte. */
module LedgerFiles {
  import opened Codecs
  import opened Ledger
  import opened LedgerCodec
  import opened LedgerHistory
  import opened LedgerRestore
  import opened LedgerRuns
  import opened OrderedMaps
  import opened Sequences
  import opened Widths

  // ---------------------------------------------------------------------------------------------
  // Settling keeps every field within its width
  // ---------------------------------------------------------------------------------------------

  /** The commitment is a 48-byte digest. */
  ghost predicate Digests48(commit: Commit) {
    forall v :: Fits([commit(v)], [48])
  }

  /** The fields of an instruction are within the widths of their types. */
  predicate InstructionSized(i: Instruction) {
    Fits(FinalityRow(i.finality), FINALITY_WIDTHS) && Fits(TermsRow(i), TERMS_WIDTHS)
  }

  predicate AccountsFit(m: map<Principal, nat>) {
    forall k | k in m :: Fits([k], [48]) && Fits([m[k]], [16])
  }

  predicate SettlementsFit(m: map<Digest, Record>) {
    forall k | k in m :: Fits([k], [48]) && RecordSized(m[k])
  }

  predicate IdempotencyFits(m: map<Digest, Digest>) {
    forall k | k in m :: Fits([k], [48]) && Fits([m[k]], [48])
  }

  predicate StateSized(s: State) {
    && Fits([s.chain, s.unit, s.authority], [48, 48, 48]) && Fits([s.sequence], [8])
    && AccountsFit(s.accounts) && SettlementsFit(s.settlements) && IdempotencyFits(s.idempotency)
    && EventsSized(s.events)
  }

  lemma SizedStateHasSizedSnapshot(s: State)
    requires StateSized(s)
    ensures Sized(SnapshotOf(s))
  {}

  lemma IntegersFit(n: nat)
    ensures n < U64_LIMIT ==> Fits([n], [8])
    ensures n < U128_LIMIT <==> Fits([n], [16])
  {
    IntegerLimits();
    assert Pow256(16) == U128_LIMIT;
    assert Fits([n], [16]) <==> [n][0] < Pow256([16][0]);
  }

  /** A field of a row that fits, alone. */
  lemma FieldFits(row: Row, widths: Row, i: nat)
    requires Fits(row, widths) && i < |row|
    ensures Fits([row[i]], [widths[i]])
  {}

  /** A row fits when each of its fields does. */
  lemma FieldsFit(row: Row, widths: Row)
    requires |row| == |widths| && forall i | 0 <= i < |row| :: Fits([row[i]], [widths[i]])
    ensures Fits(row, widths)
  {
    forall i | 0 <= i < |row| ensures row[i] < Pow256(widths[i]) {
      assert Fits([row[i]], [widths[i]]) && [row[i]][0] == row[i] && [widths[i]][0] == widths[i];
    }
  }

  lemma NewOutcomeFits(r: Record)
    requires r.sequence < U64_LIMIT && r.payerBefore < U128_LIMIT && r.payerAfter < U128_LIMIT
    requires r.executorBefore < U128_LIMIT && r.executorAfter < U128_LIMIT
    requires Fits([r.previousCommitment], [48]) && Fits([r.resultingCommitment], [48])
    ensures Fits(OutcomeRow(r), OUTCOME_WIDTHS)
  {
    IntegersFit(r.sequence);
    IntegersFit(r.payerBefore);
    IntegersFit(r.payerAfter);
    IntegersFit(r.executorBefore);
    IntegersFit(r.executorAfter);
    FieldsFit(OutcomeRow(r), OUTCOME_WIDTHS);
  }

  lemma NewEventFits(commit: Commit, r: Record)
    requires Digests48(commit) && InstructionSized(r.instruction) && r.sequence < U64_LIMIT
             && Fits([r.settlementId], [48])
    ensures EventSized(EventOf(commit, r))
  {
    var i, e := r.instruction, EventOf(commit, r);
    FieldFits(FinalityRow(i.finality), FINALITY_WIDTHS, 2);
    FieldFits(TermsRow(i), TERMS_WIDTHS, 2);
    FieldFits(TermsRow(i), TERMS_WIDTHS, 4);
    FieldFits(TermsRow(i), TERMS_WIDTHS, 6);
    FieldFits(TermsRow(i), TERMS_WIDTHS, 10);
    IntegersFit(r.sequence);
    FieldsFit(EventRow(e), EVENT_WIDTHS);
  }

  lemma NewRecordFits(commit: Commit, s: State, i: Instruction)
    requires Digests48(commit) && StateSized(s) && InstructionSized(i) && Payable(s.accounts, i)
    requires s.sequence + 1 < U64_LIMIT
    ensures RecordSized(NewRecord(commit, s, i))
  {
    var r := NewRecord(commit, s, i);
    IntegersFit(s.accounts[i.payer]);
    IntegersFit(s.accounts[i.executor]);
    NewOutcomeFits(r);
    FieldsFit(IdsRow(r), [48, 48]);
  }

  lemma PayKeepsSized(accounts: map<Principal, nat>, i: Instruction)
    requires AccountsFit(accounts) && Payable(accounts, i)
    ensures AccountsFit(Pay(accounts, i))
  {
    var paid := Pay(accounts, i);
    forall k | k in paid ensures Fits([k], [48]) && Fits([paid[k]], [16]) {
      IntegersFit(accounts[i.payer]);
      IntegersFit(paid[k]);
    }
  }

  lemma MapsStaySized(settlements: map<Digest, Record>, idempotency: map<Digest, Digest>, r: Record)
    requires SettlementsFit(settlements) && IdempotencyFits(idempotency) && RecordSized(r)
    ensures SettlementsFit(settlements[r.settlementId := r])
    ensures IdempotencyFits(idempotency[r.idempotencyId := r.settlementId])
  {
    FieldFits(IdsRow(r), [48, 48], 0);
    FieldFits(IdsRow(r), [48, 48], 1);
  }

  lemma SettledIsSized(commit: Commit, s: State, i: Instruction)
    requires Digests48(commit) && StateSized(s) && InstructionSized(i) && Payable(s.accounts, i)
    requires s.sequence + 1 < U64_LIMIT
    ensures StateSized(Settled(commit, s, i))
  {
    var r := NewRecord(commit, s, i);
    PayKeepsSized(s.accounts, i);
    NewRecordFits(commit, s, i);
    MapsStaySized(s.settlements, s.idempotency, r);
    NewEventFits(commit, r);
    EventsStaySized(s.events, EventOf(commit, r));
    IntegersFit(s.sequence + 1);
  }

  lemma EventsStaySized(events: seq<Event>, e: Event)
    requires EventsSized(events) && EventSized(e)
    ensures EventsSized(events + [e])
  {}

  /** Settling a well-typed instruction keeps every field of the ledger within its width. */
  lemma SettleKeepsSized(commit: Commit, s: State, c: Call)
    requires Digests48(commit) && StateSized(s) && InstructionSized(c.instruction)
    ensures StateSized(Settle(commit, s, c).state)
  {
    if Settle(commit, s, c).state != s {
      SettledIsSized(commit, s, c.instruction);
    }
  }

  // ---------------------------------------------------------------------------------------------
  // Runs
  // ---------------------------------------------------------------------------------------------

  ghost predicate SizedMachine(m: Machine) {
    StateSized(m.memory) && StateSized(StateOf(m.disk))
  }

  lemma ShapesKeepSized(m: Machine, settled: State, next: Machine)
    requires SizedMachine(m) && StateSized(settled) && Shape(m, settled, next)
    ensures SizedMachine(next)
  {
    StateOfSnapshotOf(settled);
  }

  ghost predicate SizedStep(step: Step) {
    step.DurableSettle? ==> InstructionSized(step.call.instruction)
  }

  lemma StepKeepsSized(commit: Commit, m: Machine, step: Step, next: Machine)
    requires Digests48(commit) && SizedMachine(m) && SizedStep(step) && next == Next(commit, m, step)
    ensures SizedMachine(next)
  {
    if step.DurableSettle? {
      var settled := Settle(commit, m.memory, step.call).state;
      SettleKeepsSized(commit, m.memory, step.call);
      SettleShapes(commit, m, step.call, step.write, settled);
      ShapesKeepSized(m, settled, next);
    }
  }

  lemma RunKeepsSized(
    commit: Commit, machines: seq<Machine>, steps: seq<Step>, universe: set<Instruction>, total: nat, n: nat)
    requires DurableRun(commit, machines, steps, universe, total) && n < |machines|
    requires Digests48(commit) && SizedMachine(machines[0]) && forall k | 0 <= k < |steps| :: SizedStep(steps[k])
    ensures SizedMachine(machines[n])
  {
    var good := (m: Machine) => SizedMachine(m);
    forall k | 0 <= k < n && good(machines[k]) ensures good(machines[k + 1]) {
      assert GoodStepAt(commit, machines, steps, universe, k);
      StepKeepsSized(commit, machines[k], steps[k], machines[k + 1]);
    }
    Along(machines, good, 0, n);
  }

  /** What the types of the source guarantee: a ledger within the limits fits in a file. */
  ghost predicate TypesFit(f: Files<Snapshot>, s: State) {
    Encodable(SnapshotOf(s)) ==> f.fits(SnapshotOf(s))
  }

  /** Files that lose nothing and take every ledger of the source's types within the limits. */
  ghost predicate TakesAll(f: Files<Snapshot>) {
    Lossless(f) && forall s | StateSized(s) :: TypesFit(f, s)
  }

  lemma SizedTypesFit(s: State)
    requires StateSized(s)
    ensures TypesFit(SnapshotFiles(), s)
  {
    SizedStateHasSizedSnapshot(s);
    SnapshotOk(SnapshotOf(s));
  }

  /** The canonical files are such, so what follows holds of them. */
  lemma SnapshotFilesTakeAll()
    ensures TakesAll(SnapshotFiles())
  {
    SnapshotFilesAreLossless();
    forall s | StateSized(s) ensures TypesFit(SnapshotFiles(), s) { SizedTypesFit(s); }
  }

  lemma SettledTypesFit(commit: Commit, f: Files<Snapshot>, s: State, c: Call)
    requires TakesAll(f) && Digests48(commit) && StateSized(s) && InstructionSized(c.instruction)
    ensures TypesFit(f, Settle(commit, s, c).state)
  {
    SettleKeepsSized(commit, s, c);
  }

  /** The file of a coherent ledger restores to that ledger. */
  lemma FileRestores(commit: Commit, f: Files<Snapshot>, s: State, p: Snapshot)
    requires Lossless(f) && TypesFit(f, s) && Coherent(commit, s) && p == SnapshotOf(s)
    ensures f.fits(p) && RestoreFile(commit, f, f.save(p)) == Ok(s)
  {
    CoherentIsEncodable(commit, s);
    RestoresExactly(commit, f, f.save(p), s);
  }

  /** At any time in any run of settlements, failed writes and restarts, the file's bytes restore, to a
      ledger with the same total that holds every settlement acknowledged before. */
  lemma FileHoldsAcknowledged(
    commit: Commit, f: Files<Snapshot>, machines: seq<Machine>, steps: seq<Step>, universe: set<Instruction>,
    total: nat, k: nat, n: nat)
    requires TakesAll(f) && DurableRun(commit, machines, steps, universe, total)
    requires Digests48(commit) && SizedMachine(machines[0]) && forall k | 0 <= k < |steps| :: SizedStep(steps[k])
    requires k < n < |machines| && Acknowledged(commit, machines, steps, k).Some?
    ensures var saved := StateOf(machines[n].disk);
            && RestoreFile(commit, f, f.save(machines[n].disk)) == Ok(saved)
            && Holds(saved, Acknowledged(commit, machines, steps, k).value) && Total(saved.accounts) == total
  {
    var p := machines[n].disk;
    RunKeepsSound(commit, machines, steps, universe, total, n);
    RunKeepsSized(commit, machines, steps, universe, total, n);
    SnapshotOfStateOf(p);
    FileRestores(commit, f, StateOf(p), p);
    AcknowledgedSurvives(commit, machines, steps, universe, total, k, n);
  }
}
