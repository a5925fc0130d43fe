/** Snapshots: taking one, and the backwards-undo validation that decides whether one is restored. */
module LedgerRestore {
  import opened Options
  import opened OrderedMaps
  import opened Ledger
  import opened LedgerHistory
  import opened Sequences
  import opened Widths

  /** The persisted value; its bytes are LedgerCodec's. The decoders' checks on its parts are RecordDecodes
      and EventDecodes. */
  datatype Snapshot = Snapshot(
    chain: Digest, unit: Digest, authority: Principal, accounts: seq<(Principal, nat)>,
    settlements: seq<(Digest, Record)>, idempotency: seq<(Digest, Digest)>, events: seq<Event>, sequence: nat)

  function SnapshotOf(s: State): Snapshot {
    Snapshot(s.chain, s.unit, s.authority, Entries(s.accounts), Entries(s.settlements), Entries(s.idempotency),
      s.events, s.sequence)
  }

  function StateOf(p: Snapshot): State {
    State(p.chain, p.unit, p.authority, Collect(p.accounts), Collect(p.settlements), Collect(p.idempotency), p.events,
      p.sequence)
  }

  /** Taking a snapshot and collecting it gives the state back. */
  lemma StateOfSnapshotOf(s: State)
    ensures StateOf(SnapshotOf(s)) == s
  {
    CollectEntries(s.accounts);
    CollectEntries(s.settlements);
    CollectEntries(s.idempotency);
  }

  predicate Ordered(p: Snapshot) {
    StrictlyOrdered(p.accounts) && StrictlyOrdered(p.settlements) && StrictlyOrdered(p.idempotency)
  }

  lemma SnapshotOfStateOf(p: Snapshot)
    requires Ordered(p)
    ensures SnapshotOf(StateOf(p)) == p
  {
    EntriesCollect(p.accounts);
    EntriesCollect(p.settlements);
    EntriesCollect(p.idempotency);
  }

  // ---------------------------------------------------------------------------------------------
  // Sorting the records by sequence number
  // ---------------------------------------------------------------------------------------------

  ghost predicate BySequence(records: seq<Record>) {
    forall i, j | 0 <= i < j < |records| :: records[i].sequence <= records[j].sequence
  }

  function InsertRecord(r: Record, sorted: seq<Record>): (out: seq<Record>)
    ensures |out| == |sorted| + 1
    ensures forall x :: x in out <==> x == r || x in sorted
  {
    if sorted == [] || r.sequence <= sorted[0].sequence then [r] + sorted
    else [sorted[0]] + InsertRecord(r, sorted[1..])
  }

  /** `sort_by_key(|record| record.sequence)`, stable. */
  function SortRecords(records: seq<Record>): (out: seq<Record>)
    ensures |out| == |records|
    ensures forall x :: x in out <==> x in records
  {
    if records == [] then [] else InsertRecord(records[0], SortRecords(records[1..]))
  }

  lemma ConsSorted(first: Record, rest: seq<Record>)
    requires BySequence(rest) && forall k | 0 <= k < |rest| :: first.sequence <= rest[k].sequence
    ensures BySequence([first] + rest)
  {
    var all := [first] + rest;
    forall i, j | 0 <= i < j < |all| ensures all[i].sequence <= all[j].sequence {
      assert all[j] == rest[j - 1];
      if i > 0 { assert all[i] == rest[i - 1]; }
    }
  }

  lemma ConsDistinct(first: Record, rest: seq<Record>)
    requires Distinct(rest) && first !in rest
    ensures Distinct([first] + rest)
  {
    var all := [first] + rest;
    forall i, j | 0 <= i < j < |all| ensures all[i] != all[j] {
      assert all[j] == rest[j - 1] && rest[j - 1] in rest;
      if i > 0 { assert all[i] == rest[i - 1]; }
    }
  }

  lemma {:induction false} InsertKeepsDistinct(r: Record, sorted: seq<Record>)
    requires Distinct(sorted) && r !in sorted
    ensures Distinct(InsertRecord(r, sorted))
  {
    if sorted == [] || r.sequence <= sorted[0].sequence {
      ConsDistinct(r, sorted);
    } else {
      assert sorted[0] !in sorted[1..];
      InsertKeepsDistinct(r, sorted[1..]);
      ConsDistinct(sorted[0], InsertRecord(r, sorted[1..]));
    }
  }

  lemma {:induction false} InsertKeepsSorted(r: Record, sorted: seq<Record>)
    requires BySequence(sorted)
    ensures BySequence(InsertRecord(r, sorted))
  {
    if sorted == [] || r.sequence <= sorted[0].sequence {
      ConsSorted(r, sorted);
    } else {
      var rest := InsertRecord(r, sorted[1..]);
      InsertKeepsSorted(r, sorted[1..]);
      forall k | 0 <= k < |rest| ensures sorted[0].sequence <= rest[k].sequence {
        assert rest[k] in rest;
      }
      ConsSorted(sorted[0], rest);
    }
  }

  lemma {:induction false} SortRecordsSorts(records: seq<Record>)
    ensures BySequence(SortRecords(records))
    ensures Distinct(records) ==> Distinct(SortRecords(records))
  {
    if records != [] {
      var rest := SortRecords(records[1..]);
      SortRecordsSorts(records[1..]);
      InsertKeepsSorted(records[0], rest);
      if Distinct(records) {
        assert records[0] !in records[1..];
        InsertKeepsDistinct(records[0], rest);
      }
    }
  }

  /** The only arrangement of numbered records in sequence order is by number. */
  lemma SortedIsNumbered(sorted: seq<Record>, records: seq<Record>)
    requires BySequence(sorted) && Distinct(sorted) && |sorted| == |records|
    requires forall x :: x in sorted <==> x in records
    requires forall k | 0 <= k < |records| :: records[k].sequence == k + 1
    ensures sorted == records
  {
    forall k | 0 <= k < |sorted|
      ensures 1 <= sorted[k].sequence <= |records| && records[sorted[k].sequence - 1] == sorted[k] {
      assert sorted[k] in records;
    }
    forall i, j | 0 <= i < j < |sorted| ensures sorted[i].sequence < sorted[j].sequence {
      assert sorted[i] != sorted[j];
    }
    forall k: nat | k < |sorted| ensures sorted[k].sequence == k + 1 {
      NumberedFromBelow(sorted, k);
      NumberedFromAbove(sorted, k, |records|);
    }
  }

  lemma {:induction false} NumberedFromBelow(sorted: seq<Record>, k: nat)
    requires k < |sorted|
    requires forall i, j | 0 <= i < j < |sorted| :: sorted[i].sequence < sorted[j].sequence
    requires sorted[0].sequence >= 1
    ensures sorted[k].sequence >= k + 1
  {
    if k > 0 { NumberedFromBelow(sorted, k - 1); }
  }

  lemma {:induction false} NumberedFromAbove(sorted: seq<Record>, k: nat, n: nat)
    requires k < |sorted| <= n
    requires forall i, j | 0 <= i < j < |sorted| :: sorted[i].sequence < sorted[j].sequence
    requires sorted[|sorted| - 1].sequence <= n == |sorted|
    ensures sorted[k].sequence <= k + 1
    decreases |sorted| - k
  {
    if k + 1 < |sorted| { NumberedFromAbove(sorted, k + 1, n); }
  }

  // ---------------------------------------------------------------------------------------------
  // The undo validator
  // ---------------------------------------------------------------------------------------------

  function Values(settlements: map<Digest, Record>): (records: seq<Record>)
    ensures |records| == |settlements|
  {
    var e := Entries(settlements);
    seq(|e|, i requires 0 <= i < |e| => e[i].1)
  }

  /** One turn of the loop: undo the record, or reject. */
  function UndoOne(
    commit: Commit, chain: Digest, unit: Digest, events: seq<Event>, r: Record, accounts: map<Principal, nat>,
    sequence: nat): Option<map<Principal, nat>>
  {
    var i := r.instruction;
    if commit(AccountingValue(chain, unit, sequence, accounts)) != r.resultingCommitment
       || i.payer !in accounts || accounts[i.payer] != r.payerAfter
       || i.executor !in accounts || accounts[i.executor] != r.executorAfter
    then None
    else
      var before := accounts[i.payer := r.payerBefore][i.executor := r.executorBefore];
      if sequence == 0 || commit(AccountingValue(chain, unit, sequence - 1, before)) != r.previousCommitment then None
      else if r.sequence == 0 || r.sequence > |events| || events[r.sequence - 1] != EventOf(commit, r) then None
      else Some(before)
  }

  /** The whole loop, over the records from the last to the first. */
  function Undo(
    commit: Commit, chain: Digest, unit: Digest, events: seq<Event>, records: seq<Record>,
    accounts: map<Principal, nat>, sequence: nat): Option<map<Principal, nat>>
  {
    if records == [] then (if sequence == 0 then Some(accounts) else None)
    else
      var n := |records| - 1;
      match UndoOne(commit, chain, unit, events, records[n], accounts, sequence)
      case None => None
      case Some(before) => Undo(commit, chain, unit, events, records[..n], before, sequence - 1)
  }

  /** The undone balances are the ones the record was paid out of. */
  lemma UndoOneMatches(
    commit: Commit, chain: Digest, unit: Digest, events: seq<Event>, r: Record, accounts: map<Principal, nat>,
    sequence: nat)
    requires RecordDecodes(commit, r) && UndoOne(commit, chain, unit, events, r, accounts, sequence).Some?
    ensures var before := UndoOne(commit, chain, unit, events, r, accounts, sequence).value;
            sequence > 0 && RecordMatches(commit, chain, unit, sequence - 1, before, r)
              && accounts == Pay(before, r.instruction)
    ensures 0 < r.sequence <= |events| && events[r.sequence - 1] == EventOf(commit, r)
  {
    var before := UndoOne(commit, chain, unit, events, r, accounts, sequence).value;
    assert accounts == Pay(before, r.instruction);
  }

  lemma MatchingIsUndone(
    commit: Commit, chain: Digest, unit: Digest, events: seq<Event>, r: Record, before: map<Principal, nat>,
    sequence: nat)
    requires RecordMatches(commit, chain, unit, sequence, before, r)
    requires 0 < r.sequence <= |events| && events[r.sequence - 1] == EventOf(commit, r)
    ensures UndoOne(commit, chain, unit, events, r, Pay(before, r.instruction), sequence + 1) == Some(before)
  {
    var i := r.instruction;
    assert Pay(before, i)[i.payer := r.payerBefore][i.executor := r.executorBefore] == before;
  }

  /** Every record's event stands at its number. */
  ghost predicate EventsMatch(commit: Commit, events: seq<Event>, records: seq<Record>) {
    forall k | 0 <= k < |records| ::
      0 < records[k].sequence <= |events| && events[records[k].sequence - 1] == EventOf(commit, records[k])
  }

  /** Soundness of the loop: what it undoes, the records explain. */
  lemma {:induction false} UndoSound(
    commit: Commit, chain: Digest, unit: Digest, events: seq<Event>, records: seq<Record>,
    accounts: map<Principal, nat>)
    requires forall r | r in records :: RecordDecodes(commit, r)
    requires Undo(commit, chain, unit, events, records, accounts, |records|).Some?
    ensures Explains(commit, chain, unit, Undo(commit, chain, unit, events, records, accounts, |records|).value,
            records, accounts)
    ensures EventsMatch(commit, events, records)
  {
    if records != [] {
      var n := |records| - 1;
      UndoOneMatches(commit, chain, unit, events, records[n], accounts, |records|);
      var before := UndoOne(commit, chain, unit, events, records[n], accounts, |records|).value;
      UndoSound(commit, chain, unit, events, records[..n], before);
      var opening := Undo(commit, chain, unit, events, records[..n], before, n).value;
      ExplainsExtend(commit, chain, unit, opening, records[..n], before, records[n]);
      assert records == records[..n] + [records[n]];
    }
  }

  /** Completeness of the loop: what the records explain, it undoes to the opening balances. */
  lemma {:induction false} UndoComplete(
    commit: Commit, chain: Digest, unit: Digest, events: seq<Event>, opening: map<Principal, nat>, records: seq<Record>,
    accounts: map<Principal, nat>)
    requires Explains(commit, chain, unit, opening, records, accounts)
    requires EventsMatch(commit, events, records)
    ensures Undo(commit, chain, unit, events, records, accounts, |records|) == Some(opening)
  {
    if records != [] {
      var n := |records| - 1;
      ExplainsPeel(commit, chain, unit, opening, records, accounts);
      var before := Replay(opening, records[..n]).value;
      UndoComplete(commit, chain, unit, events, opening, records[..n], before);
      MatchingIsUndone(commit, chain, unit, events, records[n], before, n);
    }
  }

  // ---------------------------------------------------------------------------------------------
  // Restore
  // ---------------------------------------------------------------------------------------------

  /** The limits on the lengths of the lists, for the encoder as for the decoder. */
  predicate Encodable(p: Snapshot) {
    && |p.accounts| <= MAX_ACCOUNTS && |p.settlements| <= MAX_SETTLEMENTS
    && |p.idempotency| <= MAX_SETTLEMENTS && |p.events| <= MAX_REPUTATION_EVENTS
  }

  predicate SnapshotDecodes(commit: Commit, p: Snapshot) {
    && Encodable(p)
    && (forall k | 0 <= k < |p.accounts| :: p.accounts[k].1 < U128_LIMIT)
    && (forall k | 0 <= k < |p.settlements| :: RecordDecodes(commit, p.settlements[k].1))
    && (forall k | 0 <= k < |p.events| :: EventDecodes(p.events[k]))
  }

  /** The checks before the loop. */
  predicate IntoLedgerChecks(p: Snapshot) {
    && p.accounts != [] && |p.accounts| <= MAX_ACCOUNTS && |p.settlements| <= MAX_SETTLEMENTS
    && |p.idempotency| == |p.settlements| && |p.events| == |p.settlements| && p.sequence == |p.settlements|
    && Ordered(p)
    && p.chain != ZERO && p.unit != ZERO && p.authority != ZERO
    && (var s := StateOf(p);
        && (forall id | id in s.settlements ::
              var r := s.settlements[id];
              id == r.settlementId && r.idempotencyId in s.idempotency && s.idempotency[r.idempotencyId] == id)
        && (forall k | 0 <= k < |s.events| ::
           s.events[k].sequence == k + 1 && s.events[k].settlementId in s.settlements))
  }

  predicate NumberedForLedger(s: State, records: seq<Record>) {
    forall k | 0 <= k < |records| ::
      && records[k].sequence == k + 1 && records[k].instruction.finality.chain == s.chain
      && records[k].instruction.unit == s.unit && records[k].instruction.submitter == s.authority
  }

  /** The loop of `validate_restored_state`: undo from the last record, on a private copy. */
  method UndoRecords(commit: Commit, s: State, records: seq<Record>) returns (ok: bool)
    ensures ok <==> Undo(commit, s.chain, s.unit, s.events, records, s.accounts, s.sequence).Some?
  {
    var accounts, sequence, k := s.accounts, s.sequence, |records|;
    assert records[..k] == records;
    while k > 0
      invariant 0 <= k <= |records|
      invariant Undo(commit, s.chain, s.unit, s.events, records[..k], accounts, sequence)
             == Undo(commit, s.chain, s.unit, s.events, records, s.accounts, s.sequence)
    {
      assert records[..k][..k - 1] == records[..k - 1] && records[..k][k - 1] == records[k - 1];
      var undone := UndoOne(commit, s.chain, s.unit, s.events, records[k - 1], accounts, sequence);
      if undone.None? {
        return false;
      }
      accounts, sequence, k := undone.value, sequence - 1, k - 1;
    }
    return sequence == 0;
  }

  predicate Validates(commit: Commit, s: State) {
    var records := SortRecords(Values(s.settlements));
    NumberedForLedger(s, records) && Undo(commit, s.chain, s.unit, s.events, records, s.accounts, s.sequence).Some?
  }

  method ValidateRestoredState(commit: Commit, s: State) returns (ok: bool)
    ensures ok <==> Validates(commit, s)
  {
    var records := SortRecords(Values(s.settlements));
    if !NumberedForLedger(s, records) {
      return false;
    }
    ok := UndoRecords(commit, s, records);
  }

  /** What the code computes: the decoders, the checks of `into_ledger`, and the loop. */
  predicate Accepts(commit: Commit, p: Snapshot) {
    SnapshotDecodes(commit, p) && IntoLedgerChecks(p) && Validates(commit, StateOf(p))
  }

  /** A snapshot is restored exactly when it is the ordered listing of a replayable history. */
  ghost predicate Restorable(commit: Commit, p: Snapshot) {
    Ordered(p) && Coherent(commit, StateOf(p))
  }

  lemma ValueIsStored(settlements: map<Digest, Record>, x: Record) returns (id: Digest)
    requires x in Values(settlements)
    ensures id in settlements && settlements[id] == x
  {
    var e := Entries(settlements);
    var k :| 0 <= k < |e| && Values(settlements)[k] == x;
    id := e[k].0;
  }

  lemma StoredIsValue(settlements: map<Digest, Record>, id: Digest)
    requires id in settlements
    ensures settlements[id] in Values(settlements)
  {
    var k := EntryAt(settlements, id);
    assert Values(settlements)[k] == settlements[id];
  }

  lemma ValuesDistinct(settlements: map<Digest, Record>)
    requires forall id | id in settlements :: settlements[id].settlementId == id
    ensures Distinct(Values(settlements))
  {
    var e := Entries(settlements);
    forall i, j | 0 <= i < j < |e| ensures Values(settlements)[i] != Values(settlements)[j] {
      OrderedFar(e, i, j);
      assert e[i].1.settlementId == e[i].0 && e[j].1.settlementId == e[j].0;
    }
  }

  lemma CollectedRecord(commit: Commit, p: Snapshot, id: Digest)
    requires SnapshotDecodes(commit, p) && Ordered(p) && id in StateOf(p).settlements
    ensures RecordDecodes(commit, StateOf(p).settlements[id])
  {
    CollectOrdered(p.settlements);
    var k :| 0 <= k < |p.settlements| && p.settlements[k].0 == id;
    assert RecordDecodes(commit, p.settlements[k].1);
  }

  lemma CollectedBounds(commit: Commit, p: Snapshot)
    requires SnapshotDecodes(commit, p) && IntoLedgerChecks(p)
    ensures Bounded(StateOf(p))
    ensures |StateOf(p).settlements| == |p.settlements| && |StateOf(p).idempotency| == |p.idempotency|
  {
    CollectOrdered(p.accounts);
    CollectOrdered(p.settlements);
    CollectOrdered(p.idempotency);
    var accounts := StateOf(p).accounts;
    forall owner | owner in accounts ensures accounts[owner] < U128_LIMIT {
      var k :| 0 <= k < |p.accounts| && p.accounts[k].0 == owner;
    }
  }

  /** Soundness of restore. */
  lemma AcceptedIsCoherent(commit: Commit, p: Snapshot)
    requires Accepts(commit, p)
    ensures Restorable(commit, p)
  {
    var s := StateOf(p);
    var records := SortRecords(Values(s.settlements));
    CollectedBounds(commit, p);
    forall r | r in records
      ensures RecordDecodes(commit, r) && r.settlementId in s.settlements && s.settlements[r.settlementId] == r {
      var id := ValueIsStored(s.settlements, r);
      CollectedRecord(commit, p, id);
    }
    UndoSound(commit, s.chain, s.unit, s.events, records, s.accounts);
    var opening := Undo(commit, s.chain, s.unit, s.events, records, s.accounts, s.sequence).value;
    forall k | 0 <= k < |records| ensures Entered(commit, s, records[k], k) {
      assert records[k] in records;
    }
    assert IsHistory(commit, s, opening, records);
  }

  lemma HistoryDecodes(commit: Commit, p: Snapshot, opening: map<Principal, nat>, records: seq<Record>)
    requires Ordered(p) && Bounded(StateOf(p)) && IsHistory(commit, StateOf(p), opening, records)
    ensures SnapshotDecodes(commit, p) && IntoLedgerChecks(p)
  {
    var s := StateOf(p);
    CollectOrdered(p.accounts);
    CollectOrdered(p.settlements);
    CollectOrdered(p.idempotency);
    forall k | 0 <= k < |p.settlements| ensures RecordDecodes(commit, p.settlements[k].1) {
      RecordEntered(commit, s, opening, records, p.settlements[k].0);
    }
    forall k | 0 <= k < |p.events|
      ensures EventDecodes(p.events[k]) && p.events[k].sequence == k + 1 && p.events[k].settlementId in s.settlements
    {
      assert Entered(commit, s, records[k], k);
    }
    forall id | id in s.settlements
      ensures var r := s.settlements[id];
              id == r.settlementId && r.idempotencyId in s.idempotency && s.idempotency[r.idempotencyId] == id
    {
      RecordEntered(commit, s, opening, records, id);
    }
  }

  /** The stored records are the history's. */
  lemma HistoryValues(
    commit: Commit, s: State, opening: map<Principal, nat>, records: seq<Record>, x: Record)
    requires IsHistory(commit, s, opening, records)
    ensures x in Values(s.settlements) <==> x in records
  {
    if x in Values(s.settlements) {
      var id := ValueIsStored(s.settlements, x);
      RecordEntered(commit, s, opening, records, id);
    }
    if x in records {
      var k :| 0 <= k < |records| && records[k] == x;
      assert Entered(commit, s, records[k], k);
      StoredIsValue(s.settlements, x.settlementId);
    }
  }

  lemma HistoryIsSorted(commit: Commit, s: State, opening: map<Principal, nat>, records: seq<Record>)
    requires IsHistory(commit, s, opening, records)
    ensures SortRecords(Values(s.settlements)) == records
  {
    var values := Values(s.settlements);
    forall id | id in s.settlements ensures s.settlements[id].settlementId == id {
      RecordEntered(commit, s, opening, records, id);
    }
    ValuesDistinct(s.settlements);
    SortRecordsSorts(values);
    forall x ensures x in values <==> x in records { HistoryValues(commit, s, opening, records, x); }
    forall k | 0 <= k < |records| ensures records[k].sequence == k + 1 { assert Entered(commit, s, records[k], k); }
    SortedIsNumbered(SortRecords(values), records);
  }

  lemma HistoryIsNumbered(commit: Commit, s: State, opening: map<Principal, nat>, records: seq<Record>)
    requires IsHistory(commit, s, opening, records)
    ensures NumberedForLedger(s, records) && EventsMatch(commit, s.events, records)
  {
    forall k | 0 <= k < |records|
      ensures records[k].sequence == k + 1 && s.events[k] == EventOf(commit, records[k])
      ensures records[k].instruction.finality.chain == s.chain
      ensures records[k].instruction.unit == s.unit && records[k].instruction.submitter == s.authority
    {
      assert Entered(commit, s, records[k], k);
    }
  }

  /** The validation of a history succeeds: its records sort into place and undo to the opening. */
  lemma HistoryValidates(commit: Commit, s: State, opening: map<Principal, nat>, records: seq<Record>)
    requires IsHistory(commit, s, opening, records)
    ensures Validates(commit, s)
  {
    HistoryIsSorted(commit, s, opening, records);
    HistoryIsNumbered(commit, s, opening, records);
    UndoComplete(commit, s.chain, s.unit, s.events, opening, records, s.accounts);
  }

  /** Completeness of restore. */
  lemma CoherentIsAccepted(commit: Commit, p: Snapshot)
    requires Restorable(commit, p)
    ensures Accepts(commit, p)
  {
    var opening: map<Principal, nat>, records: seq<Record> :| IsHistory(commit, StateOf(p), opening, records);
    HistoryDecodes(commit, p, opening, records);
    HistoryValidates(commit, StateOf(p), opening, records);
  }

  method Restore(commit: Commit, p: Snapshot) returns (r: Result<State>)
    ensures r == if Accepts(commit, p) then Ok(StateOf(p)) else Err(InvalidState)
    ensures r.Ok? <==> Restorable(commit, p)
  {
    if Restorable(commit, p) { CoherentIsAccepted(commit, p); }
    if !SnapshotDecodes(commit, p) || !IntoLedgerChecks(p) {
      return Err(InvalidState);
    }
    var ok := ValidateRestoredState(commit, StateOf(p));
    if ok {
      AcceptedIsCoherent(commit, p);
      return Ok(StateOf(p));
    }
    return Err(InvalidState);
  }

  /** The snapshot of a coherent ledger is accepted and reads as the same ledger. */
  lemma SnapshotRestores(commit: Commit, s: State)
    requires Coherent(commit, s)
    ensures Accepts(commit, SnapshotOf(s)) && StateOf(SnapshotOf(s)) == s
  {
    StateOfSnapshotOf(s);
    CoherentIsAccepted(commit, SnapshotOf(s));
  }

  /** Every restored ledger is a replayable history with conserved total. */
  lemma RestoredIsReplayable(commit: Commit, p: Snapshot)
    requires Accepts(commit, p)
    ensures exists opening, records ::
              && IsHistory(commit, StateOf(p), opening, records)
              && Total(opening) == Total(StateOf(p).accounts)
              && SnapshotOf(StateOf(p)) == p
  {
    AcceptedIsCoherent(commit, p);
    var opening: map<Principal, nat>, records: seq<Record> :| IsHistory(commit, StateOf(p), opening, records);
    HistoryConserves(commit, StateOf(p), opening, records);
    SnapshotOfStateOf(p);
  }
}
