/** Evidence settlement ledger: values, and the settle transition on them.

Digests are numbers (the big-endian value of the 48 or 32 bytes, so number order is byte order).
`commit`, the canonical-encoding hash, is a parameter. */
module Ledger {
  import opened Options
  import opened OrderedMaps
  import opened Widths

  type Digest = nat
  type Principal = Digest

  const ZERO: Digest := 0
  const MAX_ACCOUNTS: nat := 1_024
  const MAX_SETTLEMENTS: nat := 4_096
  const MAX_REPUTATION_EVENTS: nat := 4_096
  const EVIDENCE_DOMAIN: string := "dcn.generation-attestation.evidence-anchor.v1"

  datatype Error =
    | InvalidInstruction | InvalidAccount | InvalidFinality | AuthorityDenied | UnknownAccount
    | InsufficientBalance | IdempotencyConflict | Capacity | Overflow | Encoding | InvalidState | Persistence

  datatype Result<+T> = Ok(value: T) | Err(error: Error)

  datatype Assurance = Cryptographic

  datatype Statement = Statement(domain: string, digest: Digest)

  datatype Finality = Finality(
    chain: Digest, genesis: Digest, evidence: Digest, statementReference: Digest, transaction: Digest,
    height: nat, block: Digest, protocolRevision: nat, verifierRevision: nat)
  {
    function ExpectedStatement(): Statement {
      Statement(EVIDENCE_DOMAIN, evidence)
    }

    /** What the constructor (and hence the decoder) of the source accepts. */
    predicate WellFormed(commit: Commit) {
      && chain != ZERO && genesis != ZERO && evidence != ZERO && statementReference != ZERO && transaction != ZERO
      && height != 0 && block != ZERO && protocolRevision != 0 && verifierRevision != 0
      && commit(StatementValue(ExpectedStatement())) == statementReference
    }
  }

  datatype Instruction = Instruction(
    finality: Finality, submitter: Principal, payer: Principal, executor: Principal, agreement: Digest,
    capability: Digest, authorizationScope: Digest, assurance: Assurance, amount: nat, unit: Digest,
    settlementPolicy: nat, reputationPolicy: nat, logicalTime: nat)
  {
    predicate WellFormed(commit: Commit) {
      && finality.WellFormed(commit)
      && submitter != ZERO && payer != ZERO && executor != ZERO && payer != executor && agreement != ZERO
      && capability != ZERO && authorizationScope != ZERO && 0 < amount < U128_LIMIT && unit != ZERO
      && settlementPolicy != 0 && reputationPolicy != 0 && logicalTime != 0
    }

    function SettlementId(commit: Commit): Digest {
      commit(InstructionValue(this))
    }

    /** The triple that may move value at most once. */
    function IdempotencyKey(): CommittedValue {
      IdempotencyValue(finality.evidence, agreement, settlementPolicy)
    }

    function IdempotencyId(commit: Commit): Digest {
      commit(IdempotencyKey())
    }
  }

  /** Everything the ledger commits to; the type tags of the canonical encoding keep the kinds apart.
      An ordered map is committed as its entries in key order, which the map determines. */
  datatype CommittedValue =
    | StatementValue(statement: Statement)
    | InstructionValue(instruction: Instruction)
    | IdempotencyValue(evidence: Digest, agreement: Digest, settlementPolicy: nat)
    | EventValue(settlementId: Digest, executor: Principal, sequence: nat, policy: nat)
    | AccountingValue(chain: Digest, unit: Digest, sequence: nat, accounts: map<Principal, nat>)

  type Commit = CommittedValue -> Digest

  datatype Record = Record(
    settlementId: Digest, idempotencyId: Digest, instruction: Instruction, sequence: nat,
    payerBefore: nat, payerAfter: nat, executorBefore: nat, executorAfter: nat,
    previousCommitment: Digest, resultingCommitment: Digest)

  datatype Event = Event(
    eventId: Digest, settlementId: Digest, evidence: Digest, executor: Principal, capability: Digest,
    assurance: Assurance, completed: bool, sequence: nat, policy: nat)

  datatype Outcome = Outcome(record: Record, event: Event, duplicate: bool)

  /** Finalized anchor evidence, as far as settle looks at it. */
  datatype Evidence = Evidence(
    statement: Statement, chain: Digest, genesis: Digest, transaction: Digest, height: nat, block: Digest,
    protocolRevision: nat, verifierRevision: nat)

  /** The cryptographic proofs are an oracle: proofsOk is what the host's callback answers. */
  predicate VerifyAnchorEvidence(e: Evidence, expected: Statement, chain: Digest, genesis: Digest,
                                 protocolRevision: nat, verifierRevision: nat, proofsOk: bool)
  {
    && e.statement == expected && e.chain == chain && e.genesis == genesis
    && e.protocolRevision == protocolRevision && e.verifierRevision == verifierRevision && proofsOk
  }

  /** The fields of the ledger object. */
  datatype State = State(
    chain: Digest, unit: Digest, authority: Principal, accounts: map<Principal, nat>,
    settlements: map<Digest, Record>, idempotency: map<Digest, Digest>, events: seq<Event>, sequence: nat)

  datatype Call = Call(instruction: Instruction, evidence: Evidence, submitter: Principal, proofsOk: bool)

  datatype Transition = Transition(state: State, result: Result<Outcome>)

  function AccountingCommitment(commit: Commit, s: State): Digest {
    commit(AccountingValue(s.chain, s.unit, s.sequence, s.accounts))
  }

  predicate Authorized(s: State, c: Call) {
    && c.instruction.submitter == c.submitter && c.submitter == s.authority
    && c.instruction.finality.chain == s.chain && c.instruction.unit == s.unit
    && c.instruction.assurance == Cryptographic
  }

  predicate FinalityVerified(c: Call) {
    var f := c.instruction.finality;
    && VerifyAnchorEvidence(c.evidence, f.ExpectedStatement(), f.chain, f.genesis, f.protocolRevision,
       f.verifierRevision, c.proofsOk)
    && c.evidence.transaction == f.transaction && c.evidence.height == f.height && c.evidence.block == f.block
  }

  /** The first event of the given settlement. */
  function FindEvent(events: seq<Event>, settlementId: Digest): Option<Event> {
    if events == [] then None
    else if events[0].settlementId == settlementId then Some(events[0])
    else FindEvent(events[1..], settlementId)
  }

  function EventOf(commit: Commit, r: Record): Event {
    var i := r.instruction;
    Event(commit(EventValue(r.settlementId, i.executor, r.sequence, i.reputationPolicy)),
          r.settlementId, i.finality.evidence, i.executor, i.capability, i.assurance, true, r.sequence,
          i.reputationPolicy)
  }

  /** A repeat of a settled triple: the original outcome, or a conflict. */
  function Repeat(commit: Commit, s: State, i: Instruction): Result<Outcome>
    requires i.IdempotencyId(commit) in s.idempotency
  {
    var existing := s.idempotency[i.IdempotencyId(commit)];
    if existing != i.SettlementId(commit) then Err(IdempotencyConflict)
    else if existing !in s.settlements then Err(InvalidState)
    else
      match FindEvent(s.events, existing)
      case None => Err(InvalidState)
      case Some(event) => Ok(Outcome(s.settlements[existing], event, true))
  }

  /** The accounts after one settlement. */
  function Pay(accounts: map<Principal, nat>, i: Instruction): map<Principal, nat>
    requires i.payer in accounts && i.executor in accounts && i.amount <= accounts[i.payer]
  {
    accounts[i.payer := accounts[i.payer] - i.amount][i.executor := accounts[i.executor] + i.amount]
  }

  predicate Payable(accounts: map<Principal, nat>, i: Instruction) {
    && i.payer in accounts && i.executor in accounts && i.amount <= accounts[i.payer]
    && accounts[i.executor] + i.amount < U128_LIMIT
  }

  function NewRecord(commit: Commit, s: State, i: Instruction): Record
    requires Payable(s.accounts, i)
  {
    var next := Pay(s.accounts, i);
    Record(i.SettlementId(commit), i.IdempotencyId(commit), i, s.sequence + 1,
           s.accounts[i.payer], s.accounts[i.payer] - i.amount,
           s.accounts[i.executor], s.accounts[i.executor] + i.amount,
           AccountingCommitment(commit, s), commit(AccountingValue(s.chain, s.unit, s.sequence + 1, next)))
  }

  function Settled(commit: Commit, s: State, i: Instruction): State
    requires Payable(s.accounts, i)
  {
    var record := NewRecord(commit, s, i);
    s.(accounts := Pay(s.accounts, i),
       sequence := s.sequence + 1,
       idempotency := s.idempotency[record.idempotencyId := record.settlementId],
       settlements := s.settlements[record.settlementId := record],
       events := s.events + [EventOf(commit, record)])
  }

  /** Why a first settlement is refused, in the order of the checks. */
  function Refusal(s: State, i: Instruction): Option<Error> {
    if |s.settlements| >= MAX_SETTLEMENTS || |s.events| >= MAX_REPUTATION_EVENTS then Some(Capacity)
    else if i.payer !in s.accounts || i.executor !in s.accounts then Some(UnknownAccount)
    else if i.amount > s.accounts[i.payer] then Some(InsufficientBalance)
    else if s.accounts[i.executor] + i.amount >= U128_LIMIT || s.sequence + 1 >= U64_LIMIT then Some(Overflow)
    else None
  }

  /** A first settlement of its instruction. */
  function SettleFirst(commit: Commit, s: State, i: Instruction): Transition {
    match Refusal(s, i)
    case Some(e) => Transition(s, Err(e))
    case None =>
      var record := NewRecord(commit, s, i);
      Transition(Settled(commit, s, i), Ok(Outcome(record, EventOf(commit, record), false)))
  }

  /** The settle transition. */
  function Settle(commit: Commit, s: State, c: Call): Transition {
    var i := c.instruction;
    if !Authorized(s, c) then Transition(s, Err(AuthorityDenied))
    else if !FinalityVerified(c) then Transition(s, Err(InvalidFinality))
    else if i.IdempotencyId(commit) in s.idempotency then Transition(s, Repeat(commit, s, i))
    else SettleFirst(commit, s, i)
  }

  // ---------------------------------------------------------------------------------------------
  // One call: errors and repeats change nothing, and value is conserved
  // ---------------------------------------------------------------------------------------------

  lemma ErrorsAndRepeatsChangeNothing(commit: Commit, s: State, c: Call)
    ensures Settle(commit, s, c).result.Err? ==> Settle(commit, s, c).state == s
    ensures c.instruction.IdempotencyId(commit) in s.idempotency ==> Settle(commit, s, c).state == s
    ensures Settle(commit, s, c).result.Ok? && Settle(commit, s, c).result.value.duplicate ==>
            Settle(commit, s, c).state == s
  {}

  lemma SettleConserves(commit: Commit, s: State, c: Call)
    requires c.instruction.payer != c.instruction.executor
    ensures Total(Settle(commit, s, c).state.accounts) == Total(s.accounts)
    ensures Settle(commit, s, c).state.accounts.Keys == s.accounts.Keys
  {
    var i := c.instruction;
    if Settle(commit, s, c).state != s {
      TransferKeepsTotal(s.accounts, i.payer, i.executor, i.amount);
    }
  }
}
