/** The nTZS attempt journal: records sorted by attempt, the three phases of an attempt, and the
snapshot bytes. */
module Journal {
  import opened Octets
  import opened Options
  import opened Widths

  const MAX_ATTEMPTS: nat := 65_535
  const DIGEST_BYTES: nat := 48
  const ENTRY_BYTES: nat := 147
  /** "ACNZAT01" */
  const MAGIC: Octets := [0x41, 0x43, 0x4e, 0x5a, 0x41, 0x54, 0x30, 0x31]

  /** A 48-byte digest as its big-endian number, so that number order is byte order. */
  type Digest = nat

  predicate IsDigest(d: Digest) {
    d < Pow256(DIGEST_BYTES)
  }

  datatype Phase = Prepared | MayHaveReachedProvider | ProviderReferenceBound

  datatype Endpoint =
    | CreateUser | GetUser | CreateDeposit | CreateTransfer | CreateWithdrawal | SwapRate | CreateSwap
    | RampBalance | RampQuote | RampOfframp | RampOnramp | GetRampSettlement | ListRampSettlements

  datatype Error =
    | Capacity | IdempotencyConflict | InvalidReference | InvalidSnapshot | InvalidTransition | Persistence
    | UnknownAttempt

  datatype Result<+T> = Ok(value: T) | Err(error: Error)

  datatype Decision = Ready | Reconcile | Complete

  datatype Record = Record(
    attempt: Digest, endpoint: Endpoint, request: Digest, phase: Phase, reference: Option<Digest>)

  // ---------------------------------------------------------------------------------------------
  // The sorted record vector
  // ---------------------------------------------------------------------------------------------

  ghost predicate Sorted(records: seq<Record>) {
    forall i, j | 0 <= i < j < |records| :: records[i].attempt < records[j].attempt
  }

  /** A reference is recorded exactly in the last phase, and identifiers are 48-byte and non-zero. */
  predicate RecordOk(r: Record) {
    && 0 < r.attempt && IsDigest(r.attempt) && IsDigest(r.request)
    && (r.phase == ProviderReferenceBound <==> r.reference.Some?)
    && (r.reference.Some? ==> 0 < r.reference.value && IsDigest(r.reference.value))
  }

  ghost predicate WellFormed(records: seq<Record>) {
    Sorted(records) && |records| <= MAX_ATTEMPTS && forall i | 0 <= i < |records| :: RecordOk(records[i])
  }

  predicate NoZeroRequest(records: seq<Record>) {
    forall i | 0 <= i < |records| :: records[i].request != 0
  }

  /** The journals that a snapshot can be loaded as. */
  ghost predicate Loadable(records: seq<Record>) {
    WellFormed(records) && NoZeroRequest(records)
  }

  datatype Place = Found(index: nat) | Vacant(index: nat)

  /** `binary_search_by_key`, between lo and hi. */
  function Search(records: seq<Record>, attempt: Digest, lo: nat, hi: nat): (p: Place)
    requires Sorted(records) && lo <= hi <= |records|
    requires forall i | 0 <= i < lo :: records[i].attempt < attempt
    requires forall i | hi <= i < |records| :: attempt < records[i].attempt
    ensures p.Found? ==> p.index < |records| && records[p.index].attempt == attempt
    ensures p.Vacant? ==>
              && p.index <= |records|
              && (forall i | 0 <= i < p.index :: records[i].attempt < attempt)
              && (forall i | p.index <= i < |records| :: attempt < records[i].attempt)
    decreases hi - lo
  {
    if lo == hi then Vacant(lo)
    else
      var mid := (lo + hi) / 2;
      if records[mid].attempt == attempt then Found(mid)
      else if records[mid].attempt < attempt then Search(records, attempt, mid + 1, hi)
      else Search(records, attempt, lo, mid)
  }

  function Locate(records: seq<Record>, attempt: Digest): Place
    requires Sorted(records)
  {
    Search(records, attempt, 0, |records|)
  }

  /** The journal as a lookup table. */
  function Lookup(records: seq<Record>, attempt: Digest): Option<Record>
    requires Sorted(records)
  {
    var p := Locate(records, attempt);
    if p.Found? then Some(records[p.index]) else None
  }

  /** The search answers for every record and for nothing else. */
  lemma LookupExact(records: seq<Record>, r: Record)
    requires Sorted(records)
    ensures Lookup(records, r.attempt) == Some(r) <==> r in records
  {
    var p := Locate(records, r.attempt);
    if r in records {
      var i :| 0 <= i < |records| && records[i] == r;
    }
  }

  lemma LookupMember(records: seq<Record>, i: nat)
    requires Sorted(records) && i < |records|
    ensures Lookup(records, records[i].attempt) == Some(records[i])
  {
    LookupExact(records, records[i]);
  }

  // ---------------------------------------------------------------------------------------------
  // Transitions on the records
  // ---------------------------------------------------------------------------------------------

  /** The new records and whether anything changed. */
  datatype Change = Change(records: seq<Record>, changed: bool)

  function Prepare(records: seq<Record>, attempt: Digest, endpoint: Endpoint, request: Digest): Result<Change>
    requires Sorted(records)
  {
    match Locate(records, attempt)
    case Found(i) =>
      if records[i].endpoint == endpoint && records[i].request == request then Ok(Change(records, false))
      else Err(IdempotencyConflict)
    case Vacant(i) =>
      if |records| == MAX_ATTEMPTS then Err(Capacity)
      else Ok(Change(records[..i] + [Record(attempt, endpoint, request, Prepared, None)] + records[i..], true))
  }

  function Mark(records: seq<Record>, attempt: Digest): Result<Change>
    requires Sorted(records)
  {
    match Locate(records, attempt)
    case Vacant(_) => Err(UnknownAttempt)
    case Found(i) =>
      if records[i].phase != Prepared then Err(InvalidTransition)
      else Ok(Change(records[i := records[i].(phase := MayHaveReachedProvider)], true))
  }

  function Bind(records: seq<Record>, attempt: Digest, reference: Digest): Result<Change>
    requires Sorted(records)
  {
    if reference == 0 then Err(InvalidReference)
    else
      match Locate(records, attempt)
      case Vacant(_) => Err(UnknownAttempt)
      case Found(i) =>
        if records[i].phase == MayHaveReachedProvider && records[i].reference.None? then
          Ok(Change(records[i := records[i].(phase := ProviderReferenceBound, reference := Some(reference))], true))
        else if records[i].phase == ProviderReferenceBound && records[i].reference == Some(reference) then
          Ok(Change(records, false))
        else Err(InvalidTransition)
  }

  function DispatchDecision(records: seq<Record>, attempt: Digest): Result<Decision>
    requires Sorted(records)
  {
    match Lookup(records, attempt)
    case None => Err(UnknownAttempt)
    case Some(r) =>
      match r.phase
      case Prepared => Ok(Ready)
      case MayHaveReachedProvider => Ok(Reconcile)
      case ProviderReferenceBound => Ok(Complete)
  }

  // ---------------------------------------------------------------------------------------------
  // What each answer means, told by membership
  // ---------------------------------------------------------------------------------------------

  /** The journal has a record of the attempt, in the given phase. */
  ghost predicate HasPhase(records: seq<Record>, attempt: Digest, phase: Phase) {
    exists r :: r in records && r.attempt == attempt && r.phase == phase
  }

  ghost predicate HasAttempt(records: seq<Record>, attempt: Digest) {
    exists r :: r in records && r.attempt == attempt
  }

  /** A record of the attempt, if there is one, is the one looked up. */
  lemma LookupFinds(records: seq<Record>, attempt: Digest)
    requires Sorted(records)
    ensures Lookup(records, attempt).Some? <==> HasAttempt(records, attempt)
    ensures Lookup(records, attempt).Some? ==>
              Lookup(records, attempt).value in records && Lookup(records, attempt).value.attempt == attempt
    ensures forall r | r in records && r.attempt == attempt :: Lookup(records, attempt) == Some(r)
  {
    forall r | r in records && r.attempt == attempt ensures Lookup(records, attempt) == Some(r) {
      LookupExact(records, r);
    }
  }

  /** An attempt may be dispatched exactly while its record is Prepared, is to be reconciled exactly while
      it is marked, and is complete exactly once it is bound. */
  lemma DecisionExact(records: seq<Record>, attempt: Digest)
    requires Sorted(records)
    ensures DispatchDecision(records, attempt) == Ok(Ready) <==> HasPhase(records, attempt, Prepared)
    ensures DispatchDecision(records, attempt) == Ok(Reconcile) <==>
            HasPhase(records, attempt, MayHaveReachedProvider)
    ensures DispatchDecision(records, attempt) == Ok(Complete) <==>
            HasPhase(records, attempt, ProviderReferenceBound)
    ensures DispatchDecision(records, attempt).Err? <==> !HasAttempt(records, attempt)
    ensures DispatchDecision(records, attempt).Err? ==> DispatchDecision(records, attempt).error == UnknownAttempt
  {
    LookupFinds(records, attempt);
  }

  /** In a well-formed journal the decision is Complete exactly for an attempt with a reference. */
  lemma CompleteHasReference(records: seq<Record>, attempt: Digest)
    requires WellFormed(records)
    ensures DispatchDecision(records, attempt) == Ok(Complete) <==>
            exists r :: r in records && r.attempt == attempt && r.reference.Some?
  {
    LookupFinds(records, attempt);
  }

  /** The later journal is the earlier one with one record more. */
  ghost predicate Inserted(records: seq<Record>, next: seq<Record>, r: Record) {
    Sorted(next) && |next| == |records| + 1 && forall x :: x in next <==> x in records || x == r
  }

  /** The later journal is the earlier one with one record replaced. */
  ghost predicate Replaced(records: seq<Record>, next: seq<Record>, r: Record, replacement: Record) {
    Sorted(next) && |next| == |records| && forall x :: x in next <==> (x in records && x != r) || x == replacement
  }

  lemma InsertsOne(records: seq<Record>, i: nat, r: Record)
    requires Sorted(records) && i <= |records|
    requires forall k | 0 <= k < i :: records[k].attempt < r.attempt
    requires forall k | i <= k < |records| :: r.attempt < records[k].attempt
    ensures Inserted(records, records[..i] + [r] + records[i..], r)
  {
    assert records == records[..i] + records[i..];
  }

  lemma ReplacesOne(records: seq<Record>, i: nat, r: Record)
    requires Sorted(records) && i < |records| && r.attempt == records[i].attempt
    ensures Replaced(records, records[i := r], records[i], r)
  {
    var next := records[i := r];
    forall x ensures x in next <==> (x in records && x != records[i]) || x == r {
      if x in records && x != records[i] {
        var k :| 0 <= k < |records| && records[k] == x;
        assert next[k] == x;
      }
      assert next[i] == r;
    }
  }

  /** A new attempt is added as Prepared without a reference, an exact repeat changes nothing, another
      request under the same attempt is a conflict. */
  lemma PrepareAnswers(records: seq<Record>, attempt: Digest, endpoint: Endpoint, request: Digest)
    requires Sorted(records)
    ensures var p, found := Prepare(records, attempt, endpoint, request), Lookup(records, attempt);
            && (p == Err(IdempotencyConflict) <==>
                  found.Some? && !(found.value.endpoint == endpoint && found.value.request == request))
            && (p == Err(Capacity) <==> found.None? && |records| == 65_535)
            && (p == Ok(Change(records, false)) <==>
                  found.Some? && found.value.endpoint == endpoint && found.value.request == request)
            && (p.Ok? && p.value.changed <==> found.None? && |records| != 65_535)
            && (p.Ok? && p.value.changed ==>
                  Inserted(records, p.value.records, Record(attempt, endpoint, request, Prepared, None)))
  {
    match Locate(records, attempt)
    case Found(_) =>
    case Vacant(i) => InsertsOne(records, i, Record(attempt, endpoint, request, Prepared, None));
  }

  /** Only a Prepared attempt is marked, and nothing else about it changes. */
  lemma MarkAnswers(records: seq<Record>, attempt: Digest)
    requires Sorted(records)
    ensures var p, found := Mark(records, attempt), Lookup(records, attempt);
            && (p == Err(UnknownAttempt) <==> found.None?)
            && (p == Err(InvalidTransition) <==> found.Some? && found.value.phase != Prepared)
            && (p.Ok? <==> found.Some? && found.value.phase == Prepared)
            && (p.Ok? ==>
                  && p.value.changed
                  && Replaced(records, p.value.records, found.value, found.value.(phase := MayHaveReachedProvider)))
  {
    match Locate(records, attempt)
    case Vacant(_) =>
    case Found(i) => ReplacesOne(records, i, records[i].(phase := MayHaveReachedProvider));
  }

  /** Only a marked attempt without a reference is bound; the same reference again changes nothing, and
      any other bind is refused. */
  lemma BindAnswers(records: seq<Record>, attempt: Digest, reference: Digest)
    requires Sorted(records)
    ensures var p, found := Bind(records, attempt, reference), Lookup(records, attempt);
            && (p == Err(InvalidReference) <==> reference == 0)
            && (p == Err(UnknownAttempt) <==> reference != 0 && found.None?)
            && (p.Ok? && p.value.changed <==>
                  && reference != 0 && found.Some?
                  && found.value.phase == MayHaveReachedProvider && found.value.reference == None)
            && (p.Ok? && !p.value.changed <==>
                  && reference != 0 && found.Some?
                  && found.value.phase == ProviderReferenceBound && found.value.reference == Some(reference))
            && (p.Err? ==> p.error in {InvalidReference, UnknownAttempt, InvalidTransition})
            && (p.Ok? && !p.value.changed ==> p.value.records == records)
            && (p.Ok? && p.value.changed ==>
                  var bound := found.value.(phase := ProviderReferenceBound, reference := Some(reference));
                  Replaced(records, p.value.records, found.value, bound))
  {
    match Locate(records, attempt)
    case Vacant(_) =>
    case Found(i) =>
      ReplacesOne(records, i, records[i].(phase := ProviderReferenceBound, reference := Some(reference)));
  }

  // ---------------------------------------------------------------------------------------------
  // Progress
  // ---------------------------------------------------------------------------------------------

  function Rank(p: Phase): nat {
    match p
    case Prepared => 0
    case MayHaveReachedProvider => 1
    case ProviderReferenceBound => 2
  }

  /** The later record is the same attempt and request, in the same or a later phase, with the same
      reference if there was one. */
  predicate Advances(earlier: Record, later: Record) {
    && later.attempt == earlier.attempt && later.endpoint == earlier.endpoint && later.request == earlier.request
    && Rank(earlier.phase) <= Rank(later.phase)
    && (earlier.reference.Some? ==> later.reference == earlier.reference)
  }

  /** Every attempt of the earlier journal is in the later one, advanced. */
  ghost predicate Ahead(earlier: seq<Record>, later: seq<Record>)
    requires Sorted(earlier) && Sorted(later)
  {
    forall i {:trigger Kept(earlier[i], later)} | 0 <= i < |earlier| :: Kept(earlier[i], later)
  }

  /** The attempt is still there, and its record has only advanced. */
  ghost predicate Kept(r: Record, later: seq<Record>)
    requires Sorted(later)
  {
    Lookup(later, r.attempt).Some? && Advances(r, Lookup(later, r.attempt).value)
  }

  lemma AheadReflexive(records: seq<Record>)
    requires Sorted(records)
    ensures Ahead(records, records)
  {
    forall i | 0 <= i < |records| ensures Kept(records[i], records) {
      LookupMember(records, i);
    }
  }

  lemma AheadLookup(earlier: seq<Record>, later: seq<Record>, attempt: Digest)
    requires Sorted(earlier) && Sorted(later) && Ahead(earlier, later) && Lookup(earlier, attempt).Some?
    ensures Lookup(later, attempt).Some? && Advances(Lookup(earlier, attempt).value, Lookup(later, attempt).value)
  {
    var i := Locate(earlier, attempt).index;
    assert Kept(earlier[i], later) && earlier[i].attempt == attempt;
  }

  /** Replacing a record by an advanced one moves the journal ahead. */
  lemma ReplaceAdvances(records: seq<Record>, i: nat, r: Record)
    requires WellFormed(records) && i < |records| && RecordOk(r) && Advances(records[i], r)
    ensures WellFormed(records[i := r]) && Ahead(records, records[i := r])
    ensures NoZeroRequest(records) ==> NoZeroRequest(records[i := r])
  {
    var out := records[i := r];
    forall k | 0 <= k < |records| ensures Kept(records[k], out) {
      LookupMember(out, k);
      assert out[k].attempt == records[k].attempt;
    }
  }

  lemma InsertWellFormed(records: seq<Record>, i: nat, r: Record)
    requires WellFormed(records) && i <= |records| < MAX_ATTEMPTS && RecordOk(r)
    requires forall k | 0 <= k < i :: records[k].attempt < r.attempt
    requires forall k | i <= k < |records| :: r.attempt < records[k].attempt
    ensures WellFormed(records[..i] + [r] + records[i..])
    ensures NoZeroRequest(records) && r.request != 0 ==> NoZeroRequest(records[..i] + [r] + records[i..])
  {}

  lemma InsertAdvances(records: seq<Record>, i: nat, r: Record)
    requires WellFormed(records) && i <= |records| < MAX_ATTEMPTS && RecordOk(r)
    requires forall k | 0 <= k < i :: records[k].attempt < r.attempt
    requires forall k | i <= k < |records| :: r.attempt < records[k].attempt
    ensures var out := records[..i] + [r] + records[i..];
            && WellFormed(out) && Ahead(records, out) && Lookup(out, r.attempt) == Some(r)
            && (NoZeroRequest(records) && r.request != 0 ==> NoZeroRequest(out))
  {
    var out := records[..i] + [r] + records[i..];
    InsertWellFormed(records, i, r);
    assert out[i] == r;
    LookupMember(out, i);
    forall k | 0 <= k < |records|
      ensures Lookup(out, records[k].attempt).Some? && Advances(records[k], Lookup(out, records[k].attempt).value)
    {
      var at := if k < i then k else k + 1;
      assert out[at] == records[k];
      LookupMember(out, at);
    }
  }

  /** Every successful transition keeps the journal well formed and moves it ahead. */
  lemma PrepareAdvances(records: seq<Record>, attempt: Digest, endpoint: Endpoint, request: Digest)
    requires WellFormed(records) && 0 < attempt && IsDigest(attempt) && IsDigest(request)
    requires Prepare(records, attempt, endpoint, request).Ok?
    ensures var next := Prepare(records, attempt, endpoint, request).value.records;
            && WellFormed(next) && Ahead(records, next)
            && (NoZeroRequest(records) && request != 0 ==> NoZeroRequest(next))
            && Lookup(next, attempt).Some? && Lookup(next, attempt).value.endpoint == endpoint
            && Lookup(next, attempt).value.request == request
            && (Prepare(records, attempt, endpoint, request).value.changed ==>
                  Lookup(next, attempt) == Some(Record(attempt, endpoint, request, Prepared, None)))
  {
    match Locate(records, attempt)
    case Found(i) => AheadReflexive(records);
    case Vacant(i) => InsertAdvances(records, i, Record(attempt, endpoint, request, Prepared, None));
  }

  lemma MarkAdvances(records: seq<Record>, attempt: Digest)
    requires WellFormed(records) && Mark(records, attempt).Ok?
    ensures var next := Mark(records, attempt).value.records;
            && WellFormed(next) && Ahead(records, next) && (NoZeroRequest(records) ==> NoZeroRequest(next))
            && Lookup(records, attempt).value.phase == Prepared
            && Lookup(next, attempt) == Some(Lookup(records, attempt).value.(phase := MayHaveReachedProvider))
  {
    var i := Locate(records, attempt).index;
    var r := records[i].(phase := MayHaveReachedProvider);
    ReplaceAdvances(records, i, r);
    assert records[i := r][i] == r;
    LookupMember(records[i := r], i);
  }

  lemma BindAdvances(records: seq<Record>, attempt: Digest, reference: Digest)
    requires WellFormed(records) && IsDigest(reference) && Bind(records, attempt, reference).Ok?
    ensures var next := Bind(records, attempt, reference).value.records;
            && WellFormed(next) && Ahead(records, next) && (NoZeroRequest(records) ==> NoZeroRequest(next))
            && Lookup(next, attempt).Some? && Lookup(next, attempt).value.reference == Some(reference)
            && Lookup(next, attempt).value.phase == ProviderReferenceBound
            && Lookup(records, attempt).Some? && reference != 0
            && Lookup(records, attempt).value.phase in {MayHaveReachedProvider, ProviderReferenceBound}
  {
    var i := Locate(records, attempt).index;
    if Bind(records, attempt, reference).value.changed {
      var r := records[i].(phase := ProviderReferenceBound, reference := Some(reference));
      ReplaceAdvances(records, i, r);
      assert records[i := r][i] == r;
      LookupMember(records[i := r], i);
    } else {
      AheadReflexive(records);
    }
  }
}
