/** The ledger object and its durable wrapper, each method proved against the transitions on values. */
module LedgerObjects {
  import opened Options
  import opened OrderedMaps
  import opened Ledger
  import opened LedgerHistory
  import opened LedgerRestore
  import opened LedgerRuns
  import opened Codecs
  import opened LedgerCodec
  import opened LedgerFiles
  import opened Octets
  import opened Widths

  datatype AccountBalance = AccountBalance(owner: Principal, unit: Digest, balance: nat)

  /** The opening accounts are accepted: right unit, no owner twice. */
  ghost predicate GoodAccounts(unit: Digest, accounts: seq<AccountBalance>) {
    && (forall k | 0 <= k < |accounts| :: accounts[k].unit == unit)
    && (forall i, j | 0 <= i < j < |accounts| :: accounts[i].owner != accounts[j].owner)
  }

  /** The balances are the opening ones, each under its owner. */
  ghost predicate Opened(opening: seq<AccountBalance>, balances: map<Principal, nat>) {
    && |balances| == |opening|
    && (forall k | 0 <= k < |opening| ::
       opening[k].owner in balances && balances[opening[k].owner] == opening[k].balance)
    && (forall p | p in balances :: balances[p] < U128_LIMIT && OwnsOne(opening, p))
  }

  ghost predicate OwnsOne(opening: seq<AccountBalance>, p: Principal) {
    exists k :: 0 <= k < |opening| && opening[k].owner == p
  }

  lemma OpenNext(opening: seq<AccountBalance>, account: AccountBalance, balances: map<Principal, nat>)
    requires Opened(opening, balances) && account.owner !in balances && account.balance < U128_LIMIT
    ensures Opened(opening + [account], balances[account.owner := account.balance])
  {
    var more, next := opening + [account], balances[account.owner := account.balance];
    assert more[|opening|] == account;
    forall p | p in next ensures OwnsOne(more, p) {
      if p != account.owner {
        assert OwnsOne(opening, p);
        var k :| 0 <= k < |opening| && opening[k].owner == p;
        assert more[k].owner == p;
      }
    }
  }

  lemma GoodNext(unit: Digest, opening: seq<AccountBalance>, n: nat, balances: map<Principal, nat>)
    requires n < |opening| && GoodAccounts(unit, opening[..n]) && Opened(opening[..n], balances)
    ensures GoodAccounts(unit, opening[..n + 1]) <==> opening[n].unit == unit && opening[n].owner !in balances
  {
    var now, next := opening[..n], opening[..n + 1];
    assert next == now + [opening[n]];
    if opening[n].owner in balances {
      assert OwnsOne(now, opening[n].owner);
      var k :| 0 <= k < n && now[k].owner == opening[n].owner;
      assert next[k].owner == next[n].owner;
    }
  }

  lemma GoodPrefix(unit: Digest, opening: seq<AccountBalance>, n: nat)
    requires n <= |opening| && GoodAccounts(unit, opening)
    ensures GoodAccounts(unit, opening[..n])
  {}

  method OpenAccounts(unit: Digest, opening: seq<AccountBalance>) returns (r: Option<map<Principal, nat>>)
    requires forall k | 0 <= k < |opening| :: opening[k].balance < U128_LIMIT
    ensures r.Some? <==> GoodAccounts(unit, opening)
    ensures r.Some? ==> Opened(opening, r.value)
  {
    var balances: map<Principal, nat> := map[];
    for n := 0 to |opening|
      invariant GoodAccounts(unit, opening[..n]) && Opened(opening[..n], balances)
    {
      var account := opening[n];
      GoodNext(unit, opening, n, balances);
      if account.unit != unit || account.owner in balances {
        assert !GoodAccounts(unit, opening[..n + 1]);
        if GoodAccounts(unit, opening) { GoodPrefix(unit, opening, n + 1); }
        return None;
      }
      assert opening[..n + 1] == opening[..n] + [account];
      OpenNext(opening[..n], account, balances);
      balances := balances[account.owner := account.balance];
    }
    assert opening[..|opening|] == opening;
    r := Some(balances);
  }

  class EvidenceSettlementLedger {
    const commit: Commit
    const chain: Digest
    const unit: Digest
    const authority: Principal
    var accounts: map<Principal, nat>
    var settlements: map<Digest, Record>
    var idempotency: map<Digest, Digest>
    var events: seq<Event>
    var sequence: nat

    function Value(): State
      reads this
    {
      State(chain, unit, authority, accounts, settlements, idempotency, events, sequence)
    }

    constructor (commit: Commit, s: State)
      ensures Value() == s && this.commit == commit
    {
      this.commit, chain, unit, authority := commit, s.chain, s.unit, s.authority;
      accounts, settlements, idempotency, events, sequence := s.accounts, s.settlements, s.idempotency, s.events,
        s.sequence;
    }

    static method New(commit: Commit, chain: Digest, unit: Digest, authority: Principal, opening: seq<AccountBalance>)
      returns (r: Result<EvidenceSettlementLedger>)
      requires forall k | 0 <= k < |opening| :: opening[k].balance < U128_LIMIT
      ensures r.Ok? <==>
                && chain != ZERO && unit != ZERO && authority != ZERO
                && 0 < |opening| <= MAX_ACCOUNTS && GoodAccounts(unit, opening)
      ensures r.Err? ==> r.error == InvalidAccount
      ensures r.Ok? ==> fresh(r.value) && r.value.commit == commit && Coherent(commit, r.value.Value())
      ensures r.Ok? ==> r.value.Value() == NewState(chain, unit, authority, r.value.accounts)
      ensures r.Ok? ==> r.value.chain == chain && r.value.unit == unit && r.value.authority == authority
      ensures r.Ok? ==> r.value.settlements == map[] && r.value.idempotency == map[] && r.value.events == []
      ensures r.Ok? ==> r.value.sequence == 0
      ensures r.Ok? ==> Opened(opening, r.value.accounts)
    {
      if chain == ZERO || unit == ZERO || authority == ZERO || opening == [] || |opening| > MAX_ACCOUNTS {
        return Err(InvalidAccount);
      }
      var balances := OpenAccounts(unit, opening);
      if balances.None? {
        return Err(InvalidAccount);
      }
      NewStateCoherent(commit, chain, unit, authority, balances.value);
      var ledger := new EvidenceSettlementLedger(commit, NewState(chain, unit, authority, balances.value));
      return Ok(ledger);
    }

    /** One settlement. Nothing is written before every check has passed. */
    method Settle(c: Call) returns (r: Result<Outcome>)
      modifies this
      ensures Transition(Value(), r) == Ledger.Settle(commit, old(Value()), c)
    {
      var i := c.instruction;
      if i.submitter != c.submitter || c.submitter != authority || i.finality.chain != chain || i.unit != unit
         || i.assurance != Cryptographic
      {
        return Err(AuthorityDenied);
      }
      if !FinalityVerified(c) {
        return Err(InvalidFinality);
      }
      if i.IdempotencyId(commit) in idempotency {
        r := Repeated(i);
      } else {
        r := SettleFirst(i);
      }
    }

    /** An instruction that is already indexed: its stored outcome again. */
    method Repeated(i: Instruction) returns (r: Result<Outcome>)
      requires i.IdempotencyId(commit) in idempotency
      ensures r == Repeat(commit, Value(), i)
    {
      var settlementId, existing := i.SettlementId(commit), idempotency[i.IdempotencyId(commit)];
      if existing != settlementId {
        return Err(IdempotencyConflict);
      }
      if existing !in settlements {
        return Err(InvalidState);
      }
      var found := FindEvent(events, existing);
      return match found
        case None => Err(InvalidState)
        case Some(event) => Ok(Outcome(settlements[existing], event, true));
    }

    method SettleFirst(i: Instruction) returns (r: Result<Outcome>)
      modifies this
      ensures Transition(Value(), r) == Ledger.SettleFirst(commit, old(Value()), i)
    {
      if |settlements| >= MAX_SETTLEMENTS || |events| >= MAX_REPUTATION_EVENTS {
        return Err(Capacity);
      }
      if i.payer !in accounts || i.executor !in accounts {
        return Err(UnknownAccount);
      }
      var payerBefore, executorBefore := accounts[i.payer], accounts[i.executor];
      if i.amount > payerBefore {
        return Err(InsufficientBalance);
      }
      if executorBefore + i.amount >= U128_LIMIT || sequence + 1 >= U64_LIMIT {
        return Err(Overflow);
      }
      var settlementId, idempotencyId := i.SettlementId(commit), i.IdempotencyId(commit);
      var next := accounts[i.payer := payerBefore - i.amount][i.executor := executorBefore + i.amount];
      var record := Record(settlementId, idempotencyId, i, sequence + 1, payerBefore, payerBefore - i.amount,
                           executorBefore, executorBefore + i.amount,
                           commit(AccountingValue(chain, unit, sequence, accounts)),
                           commit(AccountingValue(chain, unit, sequence + 1, next)));
      var event := EventOf(commit, record);
      accounts := next;
      sequence := sequence + 1;
      idempotency := idempotency[idempotencyId := settlementId];
      settlements := settlements[settlementId := record];
      events := events + [event];
      return Ok(Outcome(record, event, false));
    }

    /** The checked sum of all balances is the mathematical total, or an overflow when that does not
        fit; with SettleConserves, no settlement changes the answer. */
    method TotalBalance() returns (r: Result<nat>)
      ensures r == if Total(accounts) < U128_LIMIT then Ok(Total(accounts)) else Err(Overflow)
    {
      var keys := SortedKeys(accounts.Keys);
      var sum := 0;
      for n := 0 to |keys|
        invariant sum == SumFirst(accounts, keys, n) && sum < U128_LIMIT
      {
        SumNext(accounts, keys, n);
        sum := sum + accounts[keys[n]];
        if sum >= U128_LIMIT {
          SumFirstAtMost(accounts, n + 1);
          return Err(Overflow);
        }
      }
      SumFirstAtMost(accounts, |keys|);
      return Ok(sum);
    }
  }

  /** A ledger kept in a file. */
  class DurableEvidenceSettlementLedger {
    const files: Files<Snapshot>
    var ledger: EvidenceSettlementLedger
    /** The bytes at the path. */
    var file: Octets

    /** The object stands for the machine: its ledger is the memory, and its file that of the snapshot. */
    ghost predicate Models(m: Machine)
      reads this, ledger
    {
      ledger.Value() == m.memory && files.fits(m.disk) && file == files.save(m.disk)
    }

    constructor (files: Files<Snapshot>, ledger: EvidenceSettlementLedger, file: Octets)
      ensures this.files == files && this.ledger == ledger && this.file == file
    {
      this.files, this.ledger, this.file := files, ledger, file;
    }

    /** Creating refuses a path that exists; otherwise it writes the first file, and answers only when that is
        safely in place. The bytes it put at the path are returned too. */
    static method Create(files: Files<Snapshot>, ledger: EvidenceSettlementLedger, taken: bool, write: Write)
      returns (r: Result<DurableEvidenceSettlementLedger>, placed: Option<Octets>)
      requires TypesFit(files, ledger.Value())
      ensures var p := SnapshotOf(ledger.Value());
              && (r.Ok? <==> !taken && Encodable(p) && write == Written)
              && (r.Err? ==> r.error == if !taken && !Encodable(p) then Encoding else Persistence)
              && (r.Ok? ==> fresh(r.value) && r.value.ledger == ledger && r.value.Models(Machine(ledger.Value(), p)))
              && placed == if taken || !Encodable(p) || write == FailedBeforeRename then None else Some(files.save(p))
    {
      var p := SnapshotOf(ledger.Value());
      if taken {
        return Err(Persistence), None;
      }
      if !Encodable(p) {
        return Err(Encoding), None;
      }
      if write == FailedBeforeRename {
        return Err(Persistence), None;
      }
      placed := Some(files.save(p));
      if write == FailedAfterRename {
        return Err(Persistence), placed;
      }
      var durable := new DurableEvidenceSettlementLedger(files, ledger, files.save(p));
      r := Ok(durable);
    }

    /** Opening reads the file, if it can be read; one that does not restore is an error. */
    static method Open(commit: Commit, files: Files<Snapshot>, read: Option<Octets>)
      returns (r: Result<DurableEvidenceSettlementLedger>)
      requires Lossless(files)
      ensures r.Err? ==> r.error == if read.None? then Persistence else InvalidState
      ensures r.Ok? <==> read.Some? && RestoreFile(commit, files, read.value).Ok?
      ensures r.Ok? ==> RestoreFile(commit, files, read.value) == Ok(r.value.ledger.Value())
      ensures r.Ok? ==> fresh(r.value) && r.value.ledger.commit == commit && r.value.files == files
      ensures r.Ok? ==>
                var s := r.value.ledger.Value(); Coherent(commit, s) && r.value.Models(Machine(s, SnapshotOf(s)))
    {
      if read.None? {
        return Err(Persistence);
      }
      var found := files.load(read.value);
      if found.None? {
        return Err(InvalidState);
      }
      var restored := Restore(commit, found.value);
      if restored.Err? {
        return Err(InvalidState);
      }
      RestoresExactly(commit, files, read.value, restored.value);
      var ledger := new EvidenceSettlementLedger(commit, restored.value);
      var durable := new DurableEvidenceSettlementLedger(files, ledger, read.value);
      return Ok(durable);
    }

    /** Settle on a copy; adopt the copy only after it is safely in the file. */
    method Settle(c: Call, write: Write, ghost m: Machine) returns (r: Result<Outcome>)
      requires Models(m) && TypesFit(files, Ledger.Settle(ledger.commit, m.memory, c).state)
      modifies this
      ensures var a := DurableSettleSpec(ledger.commit, m, c, write); Models(a.machine) && r == a.result
      ensures ledger.commit == old(ledger.commit)
    {
      var candidate := new EvidenceSettlementLedger(ledger.commit, ledger.Value());
      var outcome := candidate.Settle(c);
      if outcome.Err? {
        return outcome;
      }
      var saved := Persist(candidate, write);
      if saved.Err? {
        return Err(saved.error);
      }
      ledger := candidate;
      return outcome;
    }

    /** The file is replaced by the rename; the sync after it may still fail. */
    method Persist(candidate: EvidenceSettlementLedger, write: Write) returns (r: Result<()>)
      modifies this`file
      ensures var p := SnapshotOf(candidate.Value());
              && r == (if !Encodable(p) then Err(Encoding) else if write == Written then Ok(()) else Err(Persistence))
              && file == (if !Encodable(p) || write == FailedBeforeRename then old(file) else files.save(p))
    {
      var p := SnapshotOf(candidate.Value());
      if !Encodable(p) {
        return Err(Encoding);
      }
      if write == FailedBeforeRename {
        return Err(Persistence);
      }
      file := files.save(p);
      return if write == Written then Ok(()) else Err(Persistence);
    }
  }
}
