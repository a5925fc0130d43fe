/** The bytes of a ledger snapshot: exact codecs of its entities, and the theorem that a file is restored if
and only if it is the snapshot of a replayable ledger.

The source judges an instruction, a record or an event as soon as it has read it, and this model judges all of
them after the last byte (SnapshotDecodes): every refusal is the same InvalidState. */
module LedgerCodec {
  import opened Codecs
  import opened Ledger
  import opened LedgerHistory
  import opened LedgerRestore
  import opened Octets
  import opened Options

  const SNAPSHOT_TAG: nat := 0x01d2
  const SNAPSHOT_SCHEMA: nat := 1

  const FINALITY_LENGTH: nat := 48 + 48 + 32 + 48 + 48 + 8 + 48 + 8 + 4
  const INSTRUCTION_LENGTH: nat := FINALITY_LENGTH + 48 * 6 + 32 + 1 + 16 + 2 + 2 + 8
  const RECORD_LENGTH: nat := 48 * 4 + INSTRUCTION_LENGTH + 8 + 16 * 4
  const EVENT_LENGTH: nat := 48 * 4 + 32 + 1 + 1 + 8 + 2

  /** `MAX_ENCODED_LEN` of a snapshot. */
  const SNAPSHOT_LENGTH: nat :=
    48 * 3 + 3 + MAX_ACCOUNTS * (48 + 16) + 3 + MAX_SETTLEMENTS * (48 + RECORD_LENGTH)
    + 3 + MAX_SETTLEMENTS * 96 + 3 + MAX_REPUTATION_EVENTS * EVENT_LENGTH + 8

  const FINALITY_WIDTHS: seq<nat> := [48, 48, 32, 48, 48, 8, 48, 8, 4]
  const TERMS_WIDTHS: seq<nat> := [48, 48, 48, 48, 48, 32, 1, 16, 48, 2, 2, 8]
  const OUTCOME_WIDTHS: seq<nat> := [8, 16, 16, 16, 16, 48, 48]
  const EVENT_WIDTHS: seq<nat> := [48, 48, 32, 48, 48, 1, 1, 8, 2]

  type Row = seq<nat>

  // ---------------------------------------------------------------------------------------------
  // Entities and their rows
  // ---------------------------------------------------------------------------------------------

  function NumberLayout(): Layout<Row, nat> {
    Layout((r: Row) => if |r| == 1 then Some(r[0]) else None, (n: nat) => [n])
  }

  function FinalityRow(f: Finality): Row {
    [f.chain, f.genesis, f.evidence, f.statementReference, f.transaction, f.height, f.block, f.protocolRevision,
     f.verifierRevision]
  }

  function FinalityFrom(r: Row): Option<Finality> {
    if |r| != 9 then None else Some(Finality(r[0], r[1], r[2], r[3], r[4], r[5], r[6], r[7], r[8]))
  }

  function FinalityLayout(): Layout<Row, Finality> {
    Layout((r: Row) => FinalityFrom(r), (f: Finality) => FinalityRow(f))
  }

  /** What follows the finality reference in an instruction; the assurance class is the byte 1. */
  function TermsRow(i: Instruction): Row {
    [i.submitter, i.payer, i.executor, i.agreement, i.capability, i.authorizationScope, 1, i.amount, i.unit,
     i.settlementPolicy, i.reputationPolicy, i.logicalTime]
  }

  function InstructionFrom(f: Finality, r: Row): Option<Instruction> {
    if |r| != 12 || r[6] != 1 then None
    else Some(Instruction(f, r[0], r[1], r[2], r[3], r[4], r[5], Cryptographic, r[7], r[8], r[9], r[10], r[11]))
  }

  function InstructionLayout(): Layout<(Finality, Row), Instruction> {
    Layout((x: (Finality, Row)) => InstructionFrom(x.0, x.1), (i: Instruction) => (i.finality, TermsRow(i)))
  }

  function IdsRow(r: Record): Row {
    [r.settlementId, r.idempotencyId]
  }

  /** What follows the instruction in a record. */
  function OutcomeRow(r: Record): Row {
    [r.sequence, r.payerBefore, r.payerAfter, r.executorBefore, r.executorAfter, r.previousCommitment,
     r.resultingCommitment]
  }

  function RecordFrom(ids: Row, i: Instruction, o: Row): Option<Record> {
    if |ids| != 2 || |o| != 7 then None
    else Some(Record(ids[0], ids[1], i, o[0], o[1], o[2], o[3], o[4], o[5], o[6]))
  }

  function RecordLayout(): Layout<(Row, (Instruction, Row)), Record> {
    Layout((x: (Row, (Instruction, Row))) => RecordFrom(x.0, x.1.0, x.1.1),
          (r: Record) => (IdsRow(r), (r.instruction, OutcomeRow(r))))
  }

  function EventRow(e: Event): Row {
    [e.eventId, e.settlementId, e.evidence, e.executor, e.capability, 1, if e.completed then 1 else 0, e.sequence,
     e.policy]
  }

  function EventFrom(r: Row): Option<Event> {
    if |r| != 9 || r[5] != 1 || r[6] > 1 then None
    else Some(Event(r[0], r[1], r[2], r[3], r[4], Cryptographic, r[6] == 1, r[7], r[8]))
  }

  function EventLayout(): Layout<Row, Event> {
    Layout((r: Row) => EventFrom(r), (e: Event) => EventRow(e))
  }

  lemma NumberIsFaithful()
    ensures Faithful(NumberLayout())
  {
    forall r: Row | NumberLayout().make(r).Some? ensures NumberLayout().parts(NumberLayout().make(r).value) == r {}
  }

  lemma FinalityIsFaithful()
    ensures Faithful(FinalityLayout())
  {
    forall r: Row | FinalityFrom(r).Some? ensures FinalityRow(FinalityFrom(r).value) == r {}
  }

  lemma InstructionIsFaithful()
    ensures Faithful(InstructionLayout())
  {
    forall x: (Finality, Row) | InstructionFrom(x.0, x.1).Some?
      ensures InstructionLayout().parts(InstructionFrom(x.0, x.1).value) == x
    {
      assert TermsRow(InstructionFrom(x.0, x.1).value) == x.1;
    }
  }

  lemma RecordIsFaithful()
    ensures Faithful(RecordLayout())
  {
    forall x: (Row, (Instruction, Row)) | RecordFrom(x.0, x.1.0, x.1.1).Some?
      ensures RecordLayout().parts(RecordFrom(x.0, x.1.0, x.1.1).value) == x
    {
      var r := RecordFrom(x.0, x.1.0, x.1.1).value;
      assert IdsRow(r) == x.0 && OutcomeRow(r) == x.1.1;
    }
  }

  lemma EventIsFaithful()
    ensures Faithful(EventLayout())
  {
    forall r: Row | EventFrom(r).Some? ensures EventRow(EventFrom(r).value) == r {}
  }

  // ---------------------------------------------------------------------------------------------
  // Their codecs
  // ---------------------------------------------------------------------------------------------

  function NumberCodec(width: nat): Codec<nat> {
    Shaped(RowOf([width]), NumberLayout())
  }

  function FinalityCodec(): Codec<Finality> {
    Shaped(RowOf(FINALITY_WIDTHS), FinalityLayout())
  }

  function InstructionCodec(): Codec<Instruction> {
    Shaped(Both(FinalityCodec(), RowOf(TERMS_WIDTHS)), InstructionLayout())
  }

  function RecordCodec(): Codec<Record> {
    Shaped(Both(RowOf([48, 48]), Both(InstructionCodec(), RowOf(OUTCOME_WIDTHS))), RecordLayout())
  }

  function EventCodec(): Codec<Event> {
    Shaped(RowOf(EVENT_WIDTHS), EventLayout())
  }

  lemma NumberIsExact(width: nat)
    ensures Exact(NumberCodec(width))
  {
    RowIsExact([width]);
    NumberIsFaithful();
    ShapedIsExact(RowOf([width]), NumberLayout());
  }

  lemma InstructionIsExact()
    ensures Exact(InstructionCodec())
  {
    RowIsExact(FINALITY_WIDTHS);
    FinalityIsFaithful();
    ShapedIsExact(RowOf(FINALITY_WIDTHS), FinalityLayout());
    RowIsExact(TERMS_WIDTHS);
    BothIsExact(FinalityCodec(), RowOf(TERMS_WIDTHS));
    InstructionIsFaithful();
    ShapedIsExact(Both(FinalityCodec(), RowOf(TERMS_WIDTHS)), InstructionLayout());
  }

  lemma RecordIsExact()
    ensures Exact(RecordCodec())
  {
    InstructionIsExact();
    RowIsExact([48, 48]);
    RowIsExact(OUTCOME_WIDTHS);
    BothIsExact(InstructionCodec(), RowOf(OUTCOME_WIDTHS));
    BothIsExact(RowOf([48, 48]), Both(InstructionCodec(), RowOf(OUTCOME_WIDTHS)));
    RecordIsFaithful();
    ShapedIsExact(Both(RowOf([48, 48]), Both(InstructionCodec(), RowOf(OUTCOME_WIDTHS))), RecordLayout());
  }

  lemma EventIsExact()
    ensures Exact(EventCodec())
  {
    RowIsExact(EVENT_WIDTHS);
    EventIsFaithful();
    ShapedIsExact(RowOf(EVENT_WIDTHS), EventLayout());
  }

  // ---------------------------------------------------------------------------------------------
  // The snapshot
  // ---------------------------------------------------------------------------------------------

  type Accounts = seq<(Principal, nat)>
  type Settlements = seq<(Digest, Record)>
  type Idempotency = seq<(Digest, Digest)>

  function AccountsCodec(): Codec<Accounts> {
    ListOf(Both(NumberCodec(48), NumberCodec(16)), MAX_ACCOUNTS)
  }

  function SettlementsCodec(): Codec<Settlements> {
    ListOf(Both(NumberCodec(48), RecordCodec()), MAX_SETTLEMENTS)
  }

  function IdempotencyCodec(): Codec<Idempotency> {
    ListOf(Both(NumberCodec(48), NumberCodec(48)), MAX_SETTLEMENTS)
  }

  function EventsCodec(): Codec<seq<Event>> {
    ListOf(EventCodec(), MAX_REPUTATION_EVENTS)
  }

  /** The events and the sequence number end a snapshot. */
  type Parts = (Row, (Accounts, (Settlements, (Idempotency, (seq<Event>, nat)))))

  function PartsCodec(): Codec<Parts> {
    Both(RowOf([48, 48, 48]),
         Both(AccountsCodec(), Both(SettlementsCodec(), Both(IdempotencyCodec(), Both(EventsCodec(), NumberCodec(8))))))
  }

  function SnapshotFrom(x: Parts): Option<Snapshot> {
    if |x.0| != 3 then None
    else Some(Snapshot(x.0[0], x.0[1], x.0[2], x.1.0, x.1.1.0, x.1.1.1.0, x.1.1.1.1.0, x.1.1.1.1.1))
  }

  function PartsOf(p: Snapshot): Parts {
    ([p.chain, p.unit, p.authority], (p.accounts, (p.settlements, (p.idempotency, (p.events, p.sequence)))))
  }

  function SnapshotLayout(): Layout<Parts, Snapshot> {
    Layout((x: Parts) => SnapshotFrom(x), (p: Snapshot) => PartsOf(p))
  }

  function SnapshotCodec(): Codec<Snapshot> {
    Shaped(PartsCodec(), SnapshotLayout())
  }

  lemma ListsAreExact()
    ensures Exact(AccountsCodec()) && Exact(SettlementsCodec()) && Exact(IdempotencyCodec()) && Exact(EventsCodec())
  {
    NumberIsExact(48);
    NumberIsExact(16);
    RecordIsExact();
    EventIsExact();
    BothIsExact(NumberCodec(48), NumberCodec(16));
    BothIsExact(NumberCodec(48), RecordCodec());
    BothIsExact(NumberCodec(48), NumberCodec(48));
    ListIsExact(Both(NumberCodec(48), NumberCodec(16)), MAX_ACCOUNTS);
    ListIsExact(Both(NumberCodec(48), RecordCodec()), MAX_SETTLEMENTS);
    ListIsExact(Both(NumberCodec(48), NumberCodec(48)), MAX_SETTLEMENTS);
    ListIsExact(EventCodec(), MAX_REPUTATION_EVENTS);
  }

  lemma SixAreExact<A(!new), B(!new), C(!new), D(!new), E(!new), F(!new)>(
    a: Codec<A>, b: Codec<B>, c: Codec<C>, d: Codec<D>, e: Codec<E>, f: Codec<F>)
    requires Exact(a) && Exact(b) && Exact(c) && Exact(d) && Exact(e) && Exact(f)
    ensures Exact(Both(a, Both(b, Both(c, Both(d, Both(e, f))))))
  {
    BothIsExact(e, f);
    BothIsExact(d, Both(e, f));
    BothIsExact(c, Both(d, Both(e, f)));
    BothIsExact(b, Both(c, Both(d, Both(e, f))));
    BothIsExact(a, Both(b, Both(c, Both(d, Both(e, f)))));
  }

  lemma SnapshotIsFaithful()
    ensures Faithful(SnapshotLayout())
  {
    forall x: Parts | SnapshotFrom(x).Some? ensures PartsOf(SnapshotFrom(x).value) == x {
      var p := SnapshotFrom(x).value;
      assert [p.chain, p.unit, p.authority] == x.0;
    }
  }

  /** Reading a snapshot undoes writing it, and nothing but a written snapshot is read. */
  lemma SnapshotIsExact()
    ensures Exact(SnapshotCodec())
  {
    ListsAreExact();
    RowIsExact([48, 48, 48]);
    NumberIsExact(8);
    SixAreExact(RowOf([48, 48, 48]), AccountsCodec(), SettlementsCodec(), IdempotencyCodec(), EventsCodec(),
      NumberCodec(8));
    SnapshotIsFaithful();
    ShapedIsExact(PartsCodec(), SnapshotLayout());
  }

  // ---------------------------------------------------------------------------------------------
  // What fits
  // ---------------------------------------------------------------------------------------------

  predicate RecordSized(r: Record) {
    && Fits(IdsRow(r), [48, 48]) && Fits(FinalityRow(r.instruction.finality), FINALITY_WIDTHS)
    && Fits(TermsRow(r.instruction), TERMS_WIDTHS) && Fits(OutcomeRow(r), OUTCOME_WIDTHS)
  }

  predicate EventSized(e: Event) {
    Fits(EventRow(e), EVENT_WIDTHS)
  }

  predicate AccountsSized(xs: Accounts) {
    forall k | 0 <= k < |xs| :: Fits([xs[k].0], [48]) && Fits([xs[k].1], [16])
  }

  predicate SettlementsSized(xs: Settlements) {
    forall k | 0 <= k < |xs| :: Fits([xs[k].0], [48]) && RecordSized(xs[k].1)
  }

  predicate IdempotencySized(xs: Idempotency) {
    forall k | 0 <= k < |xs| :: Fits([xs[k].0], [48]) && Fits([xs[k].1], [48])
  }

  predicate EventsSized(xs: seq<Event>) {
    forall k | 0 <= k < |xs| :: EventSized(xs[k])
  }

  /** Every field is within the width of its type in the source. */
  predicate Sized(p: Snapshot) {
    && Fits([p.chain, p.unit, p.authority], [48, 48, 48]) && Fits([p.sequence], [8])
    && AccountsSized(p.accounts) && SettlementsSized(p.settlements) && IdempotencySized(p.idempotency)
    && EventsSized(p.events)
  }

  lemma NumberOk(width: nat, n: nat)
    ensures NumberCodec(width).ok(n) <==> Fits([n], [width])
  {}

  lemma RecordOk(r: Record)
    ensures RecordCodec().ok(r) <==> RecordSized(r)
  {
    var i := r.instruction;
    assert i.assurance.Cryptographic?;
    assert FinalityFrom(FinalityRow(i.finality)) == Some(i.finality);
    assert InstructionFrom(i.finality, TermsRow(i)) == Some(i);
    assert RecordFrom(IdsRow(r), i, OutcomeRow(r)) == Some(r);
  }

  lemma EventOk(e: Event)
    ensures EventCodec().ok(e) <==> EventSized(e)
  {
    assert e.assurance.Cryptographic?;
    assert EventFrom(EventRow(e)) == Some(e);
  }

  lemma AccountsOk(xs: Accounts)
    ensures AccountsCodec().ok(xs) <==> |xs| <= MAX_ACCOUNTS && AccountsSized(xs)
  {}

  lemma SettlementsOk(xs: Settlements)
    ensures SettlementsCodec().ok(xs) <==> |xs| <= MAX_SETTLEMENTS && SettlementsSized(xs)
  {
    var c := Both(NumberCodec(48), RecordCodec());
    forall k | 0 <= k < |xs| ensures c.ok(xs[k]) <==> Fits([xs[k].0], [48]) && RecordSized(xs[k].1) {
      NumberOk(48, xs[k].0);
      RecordOk(xs[k].1);
    }
  }

  lemma IdempotencyOk(xs: Idempotency)
    ensures IdempotencyCodec().ok(xs) <==> |xs| <= MAX_SETTLEMENTS && IdempotencySized(xs)
  {}

  lemma EventsOk(xs: seq<Event>)
    ensures EventsCodec().ok(xs) <==> |xs| <= MAX_REPUTATION_EVENTS && EventsSized(xs)
  {
    forall k | 0 <= k < |xs| ensures EventCodec().ok(xs[k]) <==> EventSized(xs[k]) {
      EventOk(xs[k]);
    }
  }

  lemma SixOk<A, B, C, D, E, F>(
    a: Codec<A>, b: Codec<B>, c: Codec<C>, d: Codec<D>, e: Codec<E>, f: Codec<F>, x: (A, (B, (C, (D, (E, F))))))
    ensures Both(a, Both(b, Both(c, Both(d, Both(e, f))))).ok(x)
       <==> a.ok(x.0) && b.ok(x.1.0) && c.ok(x.1.1.0) && d.ok(x.1.1.1.0) && e.ok(x.1.1.1.1.0) && f.ok(x.1.1.1.1.1)
  {}

  lemma HeaderOk(p: Snapshot)
    ensures RowOf([48, 48, 48]).ok([p.chain, p.unit, p.authority])
            <==> Fits([p.chain, p.unit, p.authority], [48, 48, 48])
  {}

  lemma PartsOk(p: Snapshot)
    ensures PartsCodec().ok(PartsOf(p)) <==>
            && RowOf([48, 48, 48]).ok([p.chain, p.unit, p.authority]) && AccountsCodec().ok(p.accounts)
            && SettlementsCodec().ok(p.settlements) && IdempotencyCodec().ok(p.idempotency)
            && EventsCodec().ok(p.events) && NumberCodec(8).ok(p.sequence)
  {
    SixOk(RowOf([48, 48, 48]), AccountsCodec(), SettlementsCodec(), IdempotencyCodec(), EventsCodec(), NumberCodec(8),
          PartsOf(p));
  }

  lemma ListsOk(p: Snapshot)
    ensures AccountsCodec().ok(p.accounts) && SettlementsCodec().ok(p.settlements)
            && IdempotencyCodec().ok(p.idempotency) && EventsCodec().ok(p.events)
       <==> Encodable(p) && AccountsSized(p.accounts) && SettlementsSized(p.settlements)
            && IdempotencySized(p.idempotency) && EventsSized(p.events)
  {
    AccountsOk(p.accounts);
    SettlementsOk(p.settlements);
    IdempotencyOk(p.idempotency);
    EventsOk(p.events);
  }

  lemma WholeOk(p: Snapshot)
    ensures SnapshotCodec().ok(p) <==> PartsCodec().ok(PartsOf(p))
  {
    assert SnapshotFrom(PartsOf(p)) == Some(p);
  }

  /** The snapshots that can be written. */
  lemma SnapshotOk(p: Snapshot)
    ensures SnapshotCodec().ok(p) <==> Sized(p) && Encodable(p)
  {
    WholeOk(p);
    PartsOk(p);
    HeaderOk(p);
    ListsOk(p);
    NumberOk(8, p.sequence);
  }

  lemma InstructionWidths()
    ensures Size(FINALITY_WIDTHS) == FINALITY_LENGTH && FINALITY_LENGTH + Size(TERMS_WIDTHS) == INSTRUCTION_LENGTH
  {
    SizeIsSum(FINALITY_WIDTHS);
    SizeIsSum(TERMS_WIDTHS);
  }

  lemma RecordWidths()
    ensures Size([48, 48]) + (INSTRUCTION_LENGTH + Size(OUTCOME_WIDTHS)) == RECORD_LENGTH
  {
    SizeIsSum(OUTCOME_WIDTHS);
  }

  lemma EventWidths()
    ensures Size(EVENT_WIDTHS) == EVENT_LENGTH && Size([48, 48, 48]) == 48 * 3
  {
    SizeIsSum(EVENT_WIDTHS);
  }

  lemma NumberAtMost(width: nat)
    ensures AtMost(NumberCodec(width), width)
  {
    RowAtMost([width]);
    ShapedAtMost(RowOf([width]), NumberLayout(), Size([width]));
  }

  lemma RecordAtMost()
    ensures AtMost(RecordCodec(), RECORD_LENGTH)
  {
    InstructionWidths();
    RecordWidths();
    RowAtMost(FINALITY_WIDTHS);
    ShapedAtMost(RowOf(FINALITY_WIDTHS), FinalityLayout(), FINALITY_LENGTH);
    RowAtMost(TERMS_WIDTHS);
    BothAtMost(FinalityCodec(), FINALITY_LENGTH, RowOf(TERMS_WIDTHS), Size(TERMS_WIDTHS));
    ShapedAtMost(Both(FinalityCodec(), RowOf(TERMS_WIDTHS)), InstructionLayout(), INSTRUCTION_LENGTH);
    RowAtMost(OUTCOME_WIDTHS);
    BothAtMost(InstructionCodec(), INSTRUCTION_LENGTH, RowOf(OUTCOME_WIDTHS), Size(OUTCOME_WIDTHS));
    RowAtMost([48, 48]);
    BothAtMost(RowOf([48, 48]), Size([48, 48]), Both(InstructionCodec(), RowOf(OUTCOME_WIDTHS)),
               INSTRUCTION_LENGTH + Size(OUTCOME_WIDTHS));
    ShapedAtMost(Both(RowOf([48, 48]), Both(InstructionCodec(), RowOf(OUTCOME_WIDTHS))), RecordLayout(), RECORD_LENGTH);
  }

  lemma EventAtMost()
    ensures AtMost(EventCodec(), EVENT_LENGTH)
  {
    EventWidths();
    RowAtMost(EVENT_WIDTHS);
    ShapedAtMost(RowOf(EVENT_WIDTHS), EventLayout(), EVENT_LENGTH);
  }

  lemma ListsAtMost()
    ensures AtMost(AccountsCodec(), 3 + MAX_ACCOUNTS * (48 + 16))
    ensures AtMost(SettlementsCodec(), 3 + MAX_SETTLEMENTS * (48 + RECORD_LENGTH))
    ensures AtMost(IdempotencyCodec(), 3 + MAX_SETTLEMENTS * 96)
    ensures AtMost(EventsCodec(), 3 + MAX_REPUTATION_EVENTS * EVENT_LENGTH)
  {
    NumberAtMost(48);
    NumberAtMost(16);
    RecordAtMost();
    EventAtMost();
    BothAtMost(NumberCodec(48), 48, NumberCodec(16), 16);
    BothAtMost(NumberCodec(48), 48, RecordCodec(), RECORD_LENGTH);
    BothAtMost(NumberCodec(48), 48, NumberCodec(48), 48);
    ListAtMost(Both(NumberCodec(48), NumberCodec(16)), 48 + 16, MAX_ACCOUNTS);
    ListAtMost(Both(NumberCodec(48), RecordCodec()), 48 + RECORD_LENGTH, MAX_SETTLEMENTS);
    ListAtMost(Both(NumberCodec(48), NumberCodec(48)), 96, MAX_SETTLEMENTS);
    ListAtMost(EventCodec(), EVENT_LENGTH, MAX_REPUTATION_EVENTS);
  }

  lemma SixAtMost<A(!new), B(!new), C(!new), D(!new), E(!new), F(!new)>(
    a: Codec<A>, b: Codec<B>, c: Codec<C>, d: Codec<D>, e: Codec<E>, f: Codec<F>,
    m: nat, n: nat, o: nat, p: nat, q: nat, r: nat)
    requires AtMost(a, m) && AtMost(b, n) && AtMost(c, o) && AtMost(d, p) && AtMost(e, q) && AtMost(f, r)
    ensures AtMost(Both(a, Both(b, Both(c, Both(d, Both(e, f))))), m + (n + (o + (p + (q + r)))))
  {
    BothAtMost(e, q, f, r);
    BothAtMost(d, p, Both(e, f), q + r);
    BothAtMost(c, o, Both(d, Both(e, f)), p + (q + r));
    BothAtMost(b, n, Both(c, Both(d, Both(e, f))), o + (p + (q + r)));
    BothAtMost(a, m, Both(b, Both(c, Both(d, Both(e, f)))), n + (o + (p + (q + r))));
  }

  /** A snapshot never exceeds the length its type declares, so the encoder's length checks never refuse it. */
  lemma SnapshotAtMost()
    ensures AtMost(SnapshotCodec(), SNAPSHOT_LENGTH)
  {
    EventWidths();
    ListsAtMost();
    RowAtMost([48, 48, 48]);
    NumberAtMost(8);
    SixAtMost(RowOf([48, 48, 48]), AccountsCodec(), SettlementsCodec(), IdempotencyCodec(), EventsCodec(),
      NumberCodec(8),
              48 * 3, 3 + MAX_ACCOUNTS * (48 + 16), 3 + MAX_SETTLEMENTS * (48 + RECORD_LENGTH),
              3 + MAX_SETTLEMENTS * 96, 3 + MAX_REPUTATION_EVENTS * EVENT_LENGTH, 8);
    ShapedAtMost(PartsCodec(), SnapshotLayout(), SNAPSHOT_LENGTH);
  }

  // ---------------------------------------------------------------------------------------------
  // Restoring from bytes
  // ---------------------------------------------------------------------------------------------

  function SnapshotFiles(): Files<Snapshot> {
    FilesOf(SnapshotCodec(), SNAPSHOT_TAG, SNAPSHOT_SCHEMA, SNAPSHOT_LENGTH)
  }

  /** A file is read as a snapshot if and only if the snapshot fits and the file is its encoding. */
  lemma SnapshotFilesAreLossless()
    ensures Lossless(SnapshotFiles())
  {
    SnapshotIsExact();
    SnapshotAtMost();
    FilesAreLossless(SnapshotCodec(), SNAPSHOT_TAG, SNAPSHOT_SCHEMA, SNAPSHOT_LENGTH);
  }

  /** `into_ledger` of what was decoded, if anything. */
  function RestoreFound(commit: Commit, found: Option<Snapshot>): Result<State> {
    if found.Some? && Accepts(commit, found.value) then Ok(StateOf(found.value)) else Err(InvalidState)
  }

  lemma RestoredIsFound(commit: Commit, found: Option<Snapshot>, s: State)
    ensures RestoreFound(commit, found) == Ok(s) <==> Coherent(commit, s) && found == Some(SnapshotOf(s))
  {
    if RestoreFound(commit, found) == Ok(s) {
      AcceptedIsCoherent(commit, found.value);
      SnapshotOfStateOf(found.value);
    }
    if Coherent(commit, s) {
      SnapshotRestores(commit, s);
    }
  }

  /** `restore`. */
  function RestoreFile(commit: Commit, f: Files<Snapshot>, file: Octets): Result<State> {
    RestoreFound(commit, f.load(file))
  }

  /** A file restores to a ledger if and only if the ledger is a replayable history that fits, and the file is
      its snapshot: byte for byte, there is no other. */
  lemma RestoresExactly(commit: Commit, f: Files<Snapshot>, file: Octets, s: State)
    requires Lossless(f)
    ensures RestoreFile(commit, f, file) == Ok(s)
       <==> Coherent(commit, s) && f.fits(SnapshotOf(s)) && file == f.save(SnapshotOf(s))
  {
    RestoredIsFound(commit, f.load(file), s);
    assert LosslessAt(f, file, SnapshotOf(s));
  }

  /** The encoder's limits never refuse a coherent ledger. */
  lemma CoherentIsEncodable(commit: Commit, s: State)
    requires Coherent(commit, s)
    ensures Encodable(SnapshotOf(s))
  {}
}
