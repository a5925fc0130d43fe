/** What it means for a ledger state to be a history: some opening balances from which the recorded
settlements, replayed in sequence order, give the current balances and every recorded value. */
module LedgerHistory {
  import opened Options
  import opened OrderedMaps
  import opened Ledger
  import opened Widths

  // ---------------------------------------------------------------------------------------------
  // Replay
  // ---------------------------------------------------------------------------------------------

  /** The balances after paying the given settlements in order, if all can be paid. */
  function Replay(opening: map<Principal, nat>, records: seq<Record>): Option<map<Principal, nat>> {
    if records == [] then Some(opening)
    else
      var before, r := Replay(opening, records[..|records| - 1]), records[|records| - 1];
      if before.Some? && Payable(before.value, r.instruction) then Some(Pay(before.value, r.instruction)) else None
  }

  /** The record states what really happened when its instruction was paid out of these balances as
      settlement number sequence + 1. */
  ghost predicate RecordMatches(
    commit: Commit, chain: Digest, unit: Digest, sequence: nat, before: map<Principal, nat>, r: Record)
  {
    var i := r.instruction;
    && i.payer != i.executor && Payable(before, i)
    && r.payerBefore == before[i.payer] && r.payerAfter == before[i.payer] - i.amount
    && r.executorBefore == before[i.executor] && r.executorAfter == before[i.executor] + i.amount
    && r.previousCommitment == commit(AccountingValue(chain, unit, sequence, before))
    && r.resultingCommitment == commit(AccountingValue(chain, unit, sequence + 1, Pay(before, i)))
  }

  /** The records lead from the opening to the closing balances, each one truthfully. */
  ghost predicate Explains(
    commit: Commit, chain: Digest, unit: Digest, opening: map<Principal, nat>, records: seq<Record>,
    closing: map<Principal, nat>)
  {
    && Replay(opening, records) == Some(closing)
    && forall k | 0 <= k < |records| :: ExplainsAt(commit, chain, unit, opening, records, k)
  }

  ghost predicate ExplainsAt(
    commit: Commit, chain: Digest, unit: Digest, opening: map<Principal, nat>, records: seq<Record>, k: nat)
    requires k < |records|
  {
    && Replay(opening, records[..k]).Some?
    && RecordMatches(commit, chain, unit, k, Replay(opening, records[..k]).value, records[k])
  }

  /** One more truthful record extends an explanation. */
  lemma ExplainsExtend(
    commit: Commit, chain: Digest, unit: Digest, opening: map<Principal, nat>, records: seq<Record>,
    closing: map<Principal, nat>, r: Record)
    requires Explains(commit, chain, unit, opening, records, closing)
    requires RecordMatches(commit, chain, unit, |records|, closing, r)
    ensures Explains(commit, chain, unit, opening, records + [r], Pay(closing, r.instruction))
  {
    var all := records + [r];
    assert all[..|records|] == records;
    forall k | 0 <= k < |all| ensures ExplainsAt(commit, chain, unit, opening, all, k) {
      if k < |records| {
        assert ExplainsAt(commit, chain, unit, opening, records, k);
        assert all[..k] == records[..k];
      }
    }
  }

  /** An explanation without its last record explains the balances before it. */
  lemma ExplainsPeel(
    commit: Commit, chain: Digest, unit: Digest, opening: map<Principal, nat>, records: seq<Record>,
    closing: map<Principal, nat>)
    requires records != [] && Explains(commit, chain, unit, opening, records, closing)
    ensures var n := |records| - 1;
            var before := Replay(opening, records[..n]);
            && before.Some?
            && Explains(commit, chain, unit, opening, records[..n], before.value)
            && RecordMatches(commit, chain, unit, n, before.value, records[n])
            && closing == Pay(before.value, records[n].instruction)
  {
    var n := |records| - 1;
    assert ExplainsAt(commit, chain, unit, opening, records, n);
    forall k | 0 <= k < n ensures ExplainsAt(commit, chain, unit, opening, records[..n], k) {
      assert ExplainsAt(commit, chain, unit, opening, records, k);
      assert records[..n][..k] == records[..k];
    }
  }

  /** Replaying conserves the total and the set of accounts. */
  lemma {:induction false} ReplayConserves(opening: map<Principal, nat>, records: seq<Record>)
    requires forall k | 0 <= k < |records| :: records[k].instruction.payer != records[k].instruction.executor
    requires Replay(opening, records).Some?
    ensures Total(Replay(opening, records).value) == Total(opening)
    ensures Replay(opening, records).value.Keys == opening.Keys
  {
    if records != [] {
      var n := |records| - 1;
      ReplayConserves(opening, records[..n]);
      var before, i := Replay(opening, records[..n]).value, records[n].instruction;
      TransferKeepsTotal(before, i.payer, i.executor, i.amount);
    }
  }

  // ---------------------------------------------------------------------------------------------
  // Coherent states
  // ---------------------------------------------------------------------------------------------

  /** What the record decoder accepts. */
  predicate RecordDecodes(commit: Commit, r: Record) {
    && r.instruction.WellFormed(commit)
    && r.sequence != 0
    && r.settlementId == r.instruction.SettlementId(commit)
    && r.idempotencyId == r.instruction.IdempotencyId(commit)
    && r.instruction.amount <= r.payerBefore && r.payerAfter == r.payerBefore - r.instruction.amount
    && r.executorAfter == r.executorBefore + r.instruction.amount && r.executorAfter < U128_LIMIT
    && r.previousCommitment != ZERO && r.resultingCommitment != ZERO
  }

  /** What the event decoder accepts. */
  predicate EventDecodes(e: Event) {
    && e.completed && e.eventId != ZERO && e.settlementId != ZERO && e.evidence != ZERO && e.executor != ZERO
    && e.capability != ZERO && e.sequence != 0 && e.policy != 0
  }

  /** Record number k is entered everywhere it should be. */
  ghost predicate Entered(commit: Commit, s: State, r: Record, k: nat)
    requires k < |s.events|
  {
    && RecordDecodes(commit, r) && r.sequence == k + 1
    && r.instruction.finality.chain == s.chain && r.instruction.unit == s.unit && r.instruction.submitter == s.authority
    && r.settlementId in s.settlements && s.settlements[r.settlementId] == r
    && r.idempotencyId in s.idempotency && s.idempotency[r.idempotencyId] == r.settlementId
    && s.events[k] == EventOf(commit, r) && EventDecodes(s.events[k])
  }

  ghost predicate IsHistory(commit: Commit, s: State, opening: map<Principal, nat>, records: seq<Record>) {
    && |records| == |s.settlements| == |s.idempotency| == |s.events| == s.sequence
    && (forall k | 0 <= k < |records| :: Entered(commit, s, records[k], k))
    && Explains(commit, s.chain, s.unit, opening, records, s.accounts)
  }

  predicate Bounded(s: State) {
    && s.chain != ZERO && s.unit != ZERO && s.authority != ZERO
    && 0 < |s.accounts| <= MAX_ACCOUNTS && |s.settlements| <= MAX_SETTLEMENTS
    && forall p | p in s.accounts :: s.accounts[p] < U128_LIMIT
  }

  /** The state is a replayable history of settlements. */
  ghost predicate Coherent(commit: Commit, s: State) {
    Bounded(s) && exists opening, records :: IsHistory(commit, s, opening, records)
  }

  /** The part of Entered that concerns the two indexes. */
  ghost predicate IndexedAt(s: State, r: Record, k: nat) {
    && r.sequence == k + 1
    && r.settlementId in s.settlements && s.settlements[r.settlementId] == r
    && r.idempotencyId in s.idempotency && s.idempotency[r.idempotencyId] == r.settlementId
  }

  ghost predicate Indexed(s: State, records: seq<Record>) {
    && |records| == |s.settlements| == |s.idempotency|
    && forall k | 0 <= k < |records| :: IndexedAt(s, records[k], k)
  }

  lemma HistoryIndexed(commit: Commit, s: State, opening: map<Principal, nat>, records: seq<Record>)
    requires IsHistory(commit, s, opening, records)
    ensures Indexed(s, records)
  {
    forall k | 0 <= k < |records| ensures IndexedAt(s, records[k], k) {
      assert Entered(commit, s, records[k], k);
    }
  }

  /** Settlement ids and idempotency ids do not repeat. */
  lemma IndexedDistinct(s: State, records: seq<Record>, i: nat, j: nat)
    requires Indexed(s, records) && i < j < |records|
    ensures records[i].settlementId != records[j].settlementId && records[i].idempotencyId != records[j].idempotencyId
  {
    assert IndexedAt(s, records[i], i) && IndexedAt(s, records[j], j);
  }

  /** The record map holds exactly the records of the history. */
  lemma RecordsExact(s: State, records: seq<Record>, id: Digest)
    requires Indexed(s, records) && id in s.settlements
    ensures var k := s.settlements[id].sequence - 1;
            0 <= k < |records| && records[k] == s.settlements[id] && records[k].settlementId == id
  {
    var n := |records|;
    var ids := seq(n, k requires 0 <= k < n => records[k].settlementId);
    forall i, j | 0 <= i < j < n ensures ids[i] != ids[j] { IndexedDistinct(s, records, i, j); }
    forall k | 0 <= k < n ensures ids[k] in s.settlements.Keys { assert IndexedAt(s, records[k], k); }
    DistinctExhausts(ids, s.settlements.Keys);
    assert id in ids;
    var k :| 0 <= k < n && ids[k] == id;
    assert IndexedAt(s, records[k], k);
  }

  /** The idempotency index holds exactly the records' ids. */
  lemma IndexExact(s: State, records: seq<Record>, key: Digest)
    requires Indexed(s, records) && key in s.idempotency
    ensures exists k ::
            0 <= k < |records| && records[k].idempotencyId == key && records[k].settlementId == s.idempotency[key]
  {
    var n := |records|;
    var keys := seq(n, k requires 0 <= k < n => records[k].idempotencyId);
    forall i, j | 0 <= i < j < n ensures keys[i] != keys[j] { IndexedDistinct(s, records, i, j); }
    forall k | 0 <= k < n ensures keys[k] in s.idempotency.Keys { assert IndexedAt(s, records[k], k); }
    DistinctExhausts(keys, s.idempotency.Keys);
    assert key in keys;
    var k :| 0 <= k < n && keys[k] == key;
    assert IndexedAt(s, records[k], k);
  }

  /** The opening and the current balances of a history have the same total. */
  lemma HistoryConserves(commit: Commit, s: State, opening: map<Principal, nat>, records: seq<Record>)
    requires IsHistory(commit, s, opening, records)
    ensures Total(opening) == Total(s.accounts) && opening.Keys == s.accounts.Keys
  {
    forall k | 0 <= k < |records| ensures records[k].instruction.payer != records[k].instruction.executor {
      assert Entered(commit, s, records[k], k);
    }
    ReplayConserves(opening, records);
  }

  // ---------------------------------------------------------------------------------------------
  // Settling keeps the history
  // ---------------------------------------------------------------------------------------------

  /** The commitments of the given instructions are all different. */
  ghost predicate Separates(commit: Commit, instructions: set<Instruction>) {
    forall a, b :: a in instructions && b in instructions && a.SettlementId(commit) == b.SettlementId(commit) ==> a == b
  }

  ghost function InstructionsOf(s: State): set<Instruction> {
    set id | id in s.settlements :: s.settlements[id].instruction
  }

  /** The record found under an id belongs to the history. */
  lemma RecordEntered(commit: Commit, s: State, opening: map<Principal, nat>, records: seq<Record>, id: Digest)
    requires IsHistory(commit, s, opening, records) && id in s.settlements
    ensures var r := s.settlements[id];
            && 0 <= r.sequence - 1 < |s.events| && Entered(commit, s, r, r.sequence - 1) && r.settlementId == id
            && records[r.sequence - 1] == r
  {
    HistoryIndexed(commit, s, opening, records);
    RecordsExact(s, records, id);
    var r := s.settlements[id];
    assert Entered(commit, s, records[r.sequence - 1], r.sequence - 1);
  }

  /** An instruction whose triple is not in the index has no record under its settlement id. */
  lemma FreshSettlementId(commit: Commit, s: State, i: Instruction)
    requires Coherent(commit, s) && Separates(commit, InstructionsOf(s) + {i})
    requires i.IdempotencyId(commit) !in s.idempotency
    ensures i.SettlementId(commit) !in s.settlements
  {
    var id := i.SettlementId(commit);
    if id in s.settlements {
      var opening, records :| IsHistory(commit, s, opening, records);
      assert s.settlements[id].instruction in InstructionsOf(s) + {i};
      RecordEntered(commit, s, opening, records, id);
    }
  }

  lemma EnteredKept(commit: Commit, s: State, i: Instruction, r: Record, k: nat)
    requires k < |s.events| && Payable(s.accounts, i) && Entered(commit, s, r, k)
    requires i.SettlementId(commit) !in s.settlements && i.IdempotencyId(commit) !in s.idempotency
    ensures Entered(commit, Settled(commit, s, i), r, k)
  {}

  /** None of the four values that a settlement commits to has the zero digest, which the decoders
      refuse. */
  predicate NonZeroCommitments(commit: Commit, s: State, i: Instruction)
    requires Payable(s.accounts, i)
  {
    var r := NewRecord(commit, s, i);
    && r.settlementId != ZERO && r.previousCommitment != ZERO && r.resultingCommitment != ZERO
    && EventOf(commit, r).eventId != ZERO
  }

  /** A call with a well-formed instruction whose commitments, should it settle, are not zero. */
  predicate GoodCall(commit: Commit, s: State, c: Call) {
    && c.instruction.WellFormed(commit)
    && (Payable(s.accounts, c.instruction) ==> NonZeroCommitments(commit, s, c.instruction))
  }

  lemma EnteredNew(commit: Commit, s: State, i: Instruction)
    requires Payable(s.accounts, i) && NonZeroCommitments(commit, s, i)
    requires i.WellFormed(commit) && |s.events| == s.sequence
    requires i.finality.chain == s.chain && i.unit == s.unit && i.submitter == s.authority
    ensures Entered(commit, Settled(commit, s, i), NewRecord(commit, s, i), s.sequence)
  {}

  /** A settlement extends the history by its record. */
  lemma SettledExtends(commit: Commit, s: State, i: Instruction, opening: map<Principal, nat>, records: seq<Record>)
    requires IsHistory(commit, s, opening, records)
    requires Payable(s.accounts, i) && NonZeroCommitments(commit, s, i) && i.WellFormed(commit)
    requires i.finality.chain == s.chain && i.unit == s.unit && i.submitter == s.authority
    requires i.SettlementId(commit) !in s.settlements && i.IdempotencyId(commit) !in s.idempotency
    ensures IsHistory(commit, Settled(commit, s, i), opening, records + [NewRecord(commit, s, i)])
  {
    var r := NewRecord(commit, s, i);
    var s', all := Settled(commit, s, i), records + [r];
    forall k | 0 <= k < |all| ensures Entered(commit, s', all[k], k) {
      if k < |records| {
        assert Entered(commit, s, records[k], k);
        EnteredKept(commit, s, i, records[k], k);
      } else {
        EnteredNew(commit, s, i);
      }
    }
    ExplainsExtend(commit, s.chain, s.unit, opening, records, s.accounts, r);
  }

  lemma PayBounded(accounts: map<Principal, nat>, i: Instruction)
    requires Payable(accounts, i) && forall p | p in accounts :: accounts[p] < U128_LIMIT
    ensures forall p | p in Pay(accounts, i) :: Pay(accounts, i)[p] < U128_LIMIT
    ensures Pay(accounts, i).Keys == accounts.Keys && |Pay(accounts, i)| == |accounts|
  {
    assert Pay(accounts, i).Keys == accounts.Keys;
    assert |Pay(accounts, i)| == |Pay(accounts, i).Keys|;
  }

  /** Every call keeps the ledger a replayable history. */
  lemma SettleKeepsCoherent(commit: Commit, s: State, c: Call)
    requires Coherent(commit, s) && GoodCall(commit, s, c)
    requires Separates(commit, InstructionsOf(s) + {c.instruction})
    ensures Coherent(commit, Settle(commit, s, c).state)
  {
    var i := c.instruction;
    if Settle(commit, s, c).state != s {
      FreshSettlementId(commit, s, i);
      var opening, records :| IsHistory(commit, s, opening, records);
      SettledExtends(commit, s, i, opening, records);
      PayBounded(s.accounts, i);
    }
  }

  // ---------------------------------------------------------------------------------------------
  // New ledgers
  // ---------------------------------------------------------------------------------------------

  function NewState(chain: Digest, unit: Digest, authority: Principal, accounts: map<Principal, nat>): State {
    State(chain, unit, authority, accounts, map[], map[], [], 0)
  }

  lemma NewStateCoherent(
    commit: Commit, chain: Digest, unit: Digest, authority: Principal, accounts: map<Principal, nat>)
    requires Bounded(NewState(chain, unit, authority, accounts))
    ensures Coherent(commit, NewState(chain, unit, authority, accounts))
  {
    assert IsHistory(commit, NewState(chain, unit, authority, accounts), accounts, []);
  }
}
