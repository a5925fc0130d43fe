/** When a settlement succeeds, what each refusal means, and what a success leaves: every answer of the
settle transition told from the fields of the ledger and of the call alone. */
module LedgerAnswers {
  import opened Ledger

  /** A reference to finalized evidence is one exactly when none of its fields is zero and the statement it
      refers to is the one for its own evidence. */
  lemma FinalityWellFormedExactly(commit: Commit, f: Finality)
    ensures f.WellFormed(commit) <==>
            && 0 !in [f.chain, f.genesis, f.evidence, f.statementReference, f.transaction, f.height, f.block,
                      f.protocolRevision, f.verifierRevision]
            && var domain := "dcn.generation-attestation.evidence-anchor.v1";
               f.statementReference == commit(StatementValue(Statement(domain, f.evidence)))
  {}

  /** An instruction is one exactly when moreover none of its own fields is zero, it pays someone else, and
      the amount fits its width. */
  lemma InstructionWellFormedExactly(commit: Commit, i: Instruction)
    ensures i.WellFormed(commit) <==>
            && 0 !in [i.submitter, i.payer, i.executor, i.agreement, i.capability, i.authorizationScope, i.amount,
                      i.unit, i.settlementPolicy, i.reputationPolicy, i.logicalTime]
            && i.payer != i.executor && i.amount <= 0xffff_ffff_ffff_ffff_ffff_ffff_ffff_ffff
            && i.finality.WellFormed(commit)
  {}

  /** The ledger's authority submits its own instruction, for this chain and this unit of account. */
  predicate Entitled(s: State, c: Call) {
    && c.submitter == s.authority && c.instruction.submitter == s.authority
    && c.instruction.finality.chain == s.chain && c.instruction.unit == s.unit
  }

  /** The evidence is for the finality the instruction names, field by field, and its proofs hold. */
  predicate Proven(c: Call) {
    var e, f := c.evidence, c.instruction.finality;
    && c.proofsOk
    && e.statement == Statement("dcn.generation-attestation.evidence-anchor.v1", f.evidence)
    && e.chain == f.chain && e.genesis == f.genesis
    && e.protocolRevision == f.protocolRevision && e.verifierRevision == f.verifierRevision
    && e.transaction == f.transaction && e.height == f.height && e.block == f.block
  }

  /** One more record and one more event fit. */
  predicate Room(s: State) {
    |s.settlements| < 4_096 && |s.events| < 4_096
  }

  predicate Known(s: State, i: Instruction) {
    i.payer in s.accounts && i.executor in s.accounts
  }

  /** The payer has the amount. */
  predicate Funded(s: State, i: Instruction) {
    Known(s, i) && s.accounts[i.payer] >= i.amount
  }

  /** Neither the executor's balance nor the sequence number leaves its width. */
  predicate Countable(s: State, i: Instruction) {
    && Known(s, i) && s.accounts[i.executor] + i.amount <= 0xffff_ffff_ffff_ffff_ffff_ffff_ffff_ffff
    && s.sequence < 0xffff_ffff_ffff_ffff
  }

  /** The event is the first one of the settlement. */
  ghost predicate IsFirstEvent(events: seq<Event>, id: Digest, e: Event) {
    exists k ::
      && 0 <= k < |events| && events[k] == e && e.settlementId == id
      && forall j | 0 <= j < k :: events[j].settlementId != id
  }

  ghost predicate HasEvent(events: seq<Event>, id: Digest) {
    exists k :: 0 <= k < |events| && events[k].settlementId == id
  }

  lemma {:induction false} FindsFirstEvent(events: seq<Event>, id: Digest)
    ensures FindEvent(events, id).Some? <==> HasEvent(events, id)
    ensures FindEvent(events, id).Some? ==> IsFirstEvent(events, id, FindEvent(events, id).value)
  {
    if events != [] && events[0].settlementId != id {
      var rest := events[1..];
      FindsFirstEvent(rest, id);
      if HasEvent(events, id) {
        var k :| 0 <= k < |events| && events[k].settlementId == id;
        assert rest[k - 1].settlementId == id;
      }
      if HasEvent(rest, id) {
        var e := FindEvent(rest, id).value;
        var k :| 0 <= k < |rest| && rest[k] == e && forall j | 0 <= j < k :: rest[j].settlementId != id;
        assert events[k + 1] == e;
        forall j | 0 <= j < k + 1 ensures events[j].settlementId != id {
          if j > 0 { assert events[j] == rest[j - 1]; }
        }
      }
    }
  }

  /** The digest under which a triple of evidence, agreement and policy version is settled at most once. */
  function TripleId(commit: Commit, i: Instruction): Digest {
    commit(IdempotencyValue(i.finality.evidence, i.agreement, i.settlementPolicy))
  }

  /** The call is one the ledger looks at, and its triple has not been settled. */
  predicate FirstTime(commit: Commit, s: State, c: Call) {
    Entitled(s, c) && Proven(c) && TripleId(commit, c.instruction) !in s.idempotency
  }

  /** The call is one the ledger looks at, and its triple has been settled under the given id. */
  predicate SettledAs(commit: Commit, s: State, c: Call, id: Digest) {
    var key := TripleId(commit, c.instruction);
    Entitled(s, c) && Proven(c) && key in s.idempotency && s.idempotency[key] == id
  }

  /** The refusals of callers and of evidence. */
  lemma DeniedExactly(commit: Commit, s: State, c: Call)
    ensures Settle(commit, s, c).result == Err(AuthorityDenied) <==> !Entitled(s, c)
    ensures Settle(commit, s, c).result == Err(InvalidFinality) <==> Entitled(s, c) && !Proven(c)
  {}

  /** The refusals of a first settlement, in the order of the checks. */
  lemma RefusedExactly(commit: Commit, s: State, c: Call)
    ensures var r, i := Settle(commit, s, c).result, c.instruction;
            && (r == Err(Capacity) <==> FirstTime(commit, s, c) && !Room(s))
            && (r == Err(UnknownAccount) <==> FirstTime(commit, s, c) && Room(s) && !Known(s, i))
            && (r == Err(InsufficientBalance) <==>
                  FirstTime(commit, s, c) && Room(s) && Known(s, i) && !Funded(s, i))
            && (r == Err(Overflow) <==> FirstTime(commit, s, c) && Room(s) && Funded(s, i) && !Countable(s, i))
  {}

  /** The answers to a triple that has been settled. */
  lemma RepeatedExactly(commit: Commit, s: State, c: Call)
    ensures var r, id := Settle(commit, s, c).result, commit(InstructionValue(c.instruction));
            && (r == Err(IdempotencyConflict) <==>
                  exists other :: SettledAs(commit, s, c, other) && other != id)
            && (r == Err(InvalidState) <==>
                  SettledAs(commit, s, c, id) && (id !in s.settlements || !HasEvent(s.events, id)))
            && (r.Ok? && r.value.duplicate <==>
                  SettledAs(commit, s, c, id) && id in s.settlements && HasEvent(s.events, id))
            && (r.Ok? && r.value.duplicate ==>
                  r.value.record == s.settlements[id] && IsFirstEvent(s.events, id, r.value.event))
  {
    FindsFirstEvent(s.events, commit(InstructionValue(c.instruction)));
    var key := TripleId(commit, c.instruction);
    if key in s.idempotency {
      assert Entitled(s, c) && Proven(c) ==> SettledAs(commit, s, c, s.idempotency[key]);
    }
  }

  /** A settlement succeeds, and moves value, exactly when everything checks out; no other error is
      ever given. */
  lemma SucceedsExactly(commit: Commit, s: State, c: Call)
    ensures var r, i := Settle(commit, s, c).result, c.instruction;
            && (r.Ok? && !r.value.duplicate <==>
                  FirstTime(commit, s, c) && Room(s) && Funded(s, i) && Countable(s, i))
            && (r.Err? ==> r.error in {
                  AuthorityDenied, InvalidFinality, IdempotencyConflict, InvalidState, Capacity, UnknownAccount,
                  InsufficientBalance, Overflow})
  {}

  /** A first settlement takes the amount from the payer, gives it to the executor, and touches no
      other account; it indexes the triple and appends one record and one event. */
  lemma FirstSettlementMoves(commit: Commit, s: State, c: Call)
    requires Settle(commit, s, c).result.Ok? && !Settle(commit, s, c).result.value.duplicate
    ensures var i, n, o := c.instruction, Settle(commit, s, c).state, Settle(commit, s, c).result.value;
            && n.accounts.Keys == s.accounts.Keys && i.payer in s.accounts && i.executor in s.accounts
            && (i.payer != i.executor ==> n.accounts[i.payer] == s.accounts[i.payer] - i.amount)
            && n.accounts[i.executor] == s.accounts[i.executor] + i.amount
            && (forall p | p in s.accounts && p != i.payer && p != i.executor :: n.accounts[p] == s.accounts[p])
            && n.sequence == s.sequence + 1
            && n.idempotency == s.idempotency[TripleId(commit, i) := commit(InstructionValue(i))]
            && n.settlements == s.settlements[commit(InstructionValue(i)) := o.record]
            && n.events == s.events + [o.event]
            && n.chain == s.chain && n.unit == s.unit && n.authority == s.authority
  {}

  /** What the record and the event of a first settlement say. */
  lemma FirstSettlementRecords(commit: Commit, s: State, c: Call)
    requires Settle(commit, s, c).result.Ok? && !Settle(commit, s, c).result.value.duplicate
    ensures var i, n, r := c.instruction, Settle(commit, s, c).state, Settle(commit, s, c).result.value.record;
            && i.payer in s.accounts && i.executor in s.accounts && i.executor in n.accounts
            && r.settlementId == commit(InstructionValue(i)) && r.idempotencyId == TripleId(commit, i)
            && r.instruction == i && r.sequence == s.sequence + 1
            && r.payerBefore == s.accounts[i.payer] && r.payerAfter == r.payerBefore - i.amount
            && r.executorBefore == s.accounts[i.executor] && r.executorAfter == n.accounts[i.executor]
            && r.previousCommitment == commit(AccountingValue(s.chain, s.unit, s.sequence, s.accounts))
            && r.resultingCommitment == commit(AccountingValue(n.chain, n.unit, n.sequence, n.accounts))
    ensures var i, e := c.instruction, Settle(commit, s, c).result.value.event;
            && e.eventId == commit(EventValue(e.settlementId, e.executor, e.sequence, e.policy))
            && e.settlementId == commit(InstructionValue(i)) && e.evidence == i.finality.evidence
            && e.executor == i.executor && e.capability == i.capability && e.assurance == i.assurance
            && e.completed && e.sequence == s.sequence + 1 && e.policy == i.reputationPolicy
  {}
}
