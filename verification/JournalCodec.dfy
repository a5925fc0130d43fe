/** The journal's snapshot bytes: fixed-width entries, a count, a magic number and a trailing tag. */
module JournalCodec {
  import opened Octets
  import opened Options
  import opened Journal
  import opened Widths

  function EndpointTag(e: Endpoint): Octet {
    match e
    case CreateUser => 0
    case GetUser => 1
    case CreateDeposit => 2
    case CreateTransfer => 3
    case CreateWithdrawal => 4
    case SwapRate => 5
    case CreateSwap => 6
    case RampBalance => 7
    case RampQuote => 8
    case RampOfframp => 9
    case RampOnramp => 10
    case GetRampSettlement => 11
    case ListRampSettlements => 12
  }

  function EndpointOfTag(tag: Octet): (e: Option<Endpoint>)
    ensures e.Some? <==> tag <= 12
    ensures e.Some? ==> EndpointTag(e.value) == tag
  {
    match tag
    case 0 => Some(CreateUser)
    case 1 => Some(GetUser)
    case 2 => Some(CreateDeposit)
    case 3 => Some(CreateTransfer)
    case 4 => Some(CreateWithdrawal)
    case 5 => Some(SwapRate)
    case 6 => Some(CreateSwap)
    case 7 => Some(RampBalance)
    case 8 => Some(RampQuote)
    case 9 => Some(RampOfframp)
    case 10 => Some(RampOnramp)
    case 11 => Some(GetRampSettlement)
    case 12 => Some(ListRampSettlements)
    case _ => None
  }

  function PhaseOfTag(tag: Octet): (p: Option<Phase>)
    ensures p.Some? <==> tag <= 2
    ensures p.Some? ==> Rank(p.value) == tag
  {
    match tag
    case 0 => Some(Prepared)
    case 1 => Some(MayHaveReachedProvider)
    case 2 => Some(ProviderReferenceBound)
    case _ => None
  }

  lemma TagsRoundTrip(e: Endpoint, p: Phase)
    ensures EndpointOfTag(EndpointTag(e)) == Some(e)
    ensures PhaseOfTag(Rank(p)) == Some(p)
  {}

  // ---------------------------------------------------------------------------------------------
  // One entry
  // ---------------------------------------------------------------------------------------------

  /** The fields of one entry, before their values are judged. */
  datatype Fields = Fields(
    attempt: Octets, endpoint: Octet, request: Octets, phase: Octet, flag: Octet, reference: Octets)
  {
    predicate Sized() {
      |attempt| == DIGEST_BYTES && |request| == DIGEST_BYTES && |reference| == DIGEST_BYTES
    }

    function Join(): (b: Octets)
      requires Sized()
      ensures |b| == ENTRY_BYTES
    {
      attempt + ([endpoint] + (request + ([phase, flag] + reference)))
    }
  }

  function Cut(b: Octets): (f: Fields)
    requires |b| == ENTRY_BYTES
    ensures f.Sized()
  {
    Fields(b[..48], b[48], b[49..97], b[97], b[98], b[99..])
  }

  lemma JoinCut(b: Octets)
    requires |b| == ENTRY_BYTES
    ensures Cut(b).Join() == b
  {
    assert b == b[..48] + ([b[48]] + (b[49..97] + ([b[97], b[98]] + b[99..])));
  }

  lemma CutJoin(f: Fields)
    requires f.Sized()
    ensures Cut(f.Join()) == f
  {
    var b := f.Join();
    assert b[..48] == f.attempt;
    assert b[49..97] == f.request;
    assert b[99..] == f.reference;
  }

  function DigestBytes(d: Digest): (b: Octets)
    requires IsDigest(d)
    ensures |b| == DIGEST_BYTES
  {
    ToBE(d, DIGEST_BYTES)
  }

  function FieldsOf(r: Record): (f: Fields)
    requires RecordOk(r)
    ensures f.Sized()
  {
    Fields(DigestBytes(r.attempt), EndpointTag(r.endpoint), DigestBytes(r.request), Rank(r.phase),
           if r.reference.Some? then 1 else 0,
           if r.reference.Some? then DigestBytes(r.reference.value) else Zeros(DIGEST_BYTES))
  }

  /** The judgements of the decoder, in its order; all of them are InvalidSnapshot. */
  function RecordOfFields(f: Fields): Option<Record>
    requires f.Sized()
  {
    var endpoint, phase := EndpointOfTag(f.endpoint), PhaseOfTag(f.phase);
    if endpoint.None? || phase.None? then None
    else if FromBE(f.attempt) == 0 || FromBE(f.request) == 0 then None
    else if f.flag == 0 && f.reference == Zeros(DIGEST_BYTES) then
      if phase.value == ProviderReferenceBound then None
      else Some(Record(FromBE(f.attempt), endpoint.value, FromBE(f.request), phase.value, None))
    else if f.flag == 1 && f.reference != Zeros(DIGEST_BYTES) then
      if phase.value != ProviderReferenceBound then None
      else Some(Record(FromBE(f.attempt), endpoint.value, FromBE(f.request), phase.value, Some(FromBE(f.reference))))
    else None
  }

  lemma OnlyZerosAreZero(b: Octets)
    ensures FromBE(b) == 0 <==> b == Zeros(|b|)
  {
    FromZeros(|b|);
    ToFromBE(b);
    ZeroIsZeros(|b|);
  }

  lemma FieldValues(r: Record)
    requires RecordOk(r)
    ensures FromBE(FieldsOf(r).attempt) == r.attempt && FromBE(FieldsOf(r).request) == r.request
    ensures r.reference.Some? ==>
            FromBE(FieldsOf(r).reference) == r.reference.value && FieldsOf(r).reference != Zeros(DIGEST_BYTES)
  {
    FromToBE(r.attempt, DIGEST_BYTES);
    FromToBE(r.request, DIGEST_BYTES);
    if r.reference.Some? {
      FromToBE(r.reference.value, DIGEST_BYTES);
      OnlyZerosAreZero(ToBE(r.reference.value, DIGEST_BYTES));
    }
  }

  /** Encoding an entry and decoding it fails only on a zero request commitment. */
  lemma EntryRoundTrip(r: Record)
    requires RecordOk(r)
    ensures RecordOfFields(FieldsOf(r)) == if r.request == 0 then None else Some(r)
  {
    FieldValues(r);
    TagsRoundTrip(r.endpoint, r.phase);
  }

  /** The only fields accepted for a record are the ones it encodes to. */
  lemma EntryCanonical(f: Fields)
    requires f.Sized() && RecordOfFields(f).Some?
    ensures var r := RecordOfFields(f).value; RecordOk(r) && r.request != 0 && FieldsOf(r) == f
  {
    OnlyZerosAreZero(f.reference);
    ToFromBE(f.attempt);
    ToFromBE(f.request);
    ToFromBE(f.reference);
  }

  function EncodeEntry(r: Record): (b: Octets)
    requires RecordOk(r)
    ensures |b| == ENTRY_BYTES
  {
    FieldsOf(r).Join()
  }

  function DecodeEntry(b: Octets): Option<Record> {
    if |b| == ENTRY_BYTES then RecordOfFields(Cut(b)) else None
  }

  // ---------------------------------------------------------------------------------------------
  // All entries
  // ---------------------------------------------------------------------------------------------

  function EncodeEntries(records: seq<Record>): (b: Octets)
    requires forall i | 0 <= i < |records| :: RecordOk(records[i])
    ensures |b| == |records| * ENTRY_BYTES
  {
    if records == [] then [] else EncodeEntry(records[0]) + EncodeEntries(records[1..])
  }

  predicate OutOfOrder(earlier: seq<Record>, r: Record) {
    |earlier| > 0 && earlier[|earlier| - 1].attempt >= r.attempt
  }

  type EntryDecoder = Octets -> Option<Record>

  /** The records of the remaining entries after the earlier ones, or None at a bad or unordered one. */
  function DecodeEntries(decode: EntryDecoder, b: Octets, count: nat, earlier: seq<Record>): Option<seq<Record>>
    requires |b| == count * ENTRY_BYTES
    decreases count
  {
    if count == 0 then Some(earlier)
    else
      match decode(b[..ENTRY_BYTES])
      case None => None
      case Some(r) =>
        if OutOfOrder(earlier, r) then None else DecodeEntries(decode, b[ENTRY_BYTES..], count - 1, earlier + [r])
  }

  lemma DecodeEncodedEntry(r: Record)
    requires RecordOk(r)
    ensures DecodeEntry(EncodeEntry(r)) == if r.request == 0 then None else Some(r)
  {
    CutJoin(FieldsOf(r));
    EntryRoundTrip(r);
  }

  /** One entry at the front: what decoding it does to the rest. */
  lemma DecodeFront(decode: EntryDecoder, front: Octets, rest: Octets, count: nat, earlier: seq<Record>)
    requires |front| == ENTRY_BYTES && |rest| == count * ENTRY_BYTES
    ensures |front + rest| == (count + 1) * ENTRY_BYTES
    ensures DecodeEntries(decode, front + rest, count + 1, earlier) ==
            match decode(front)
            case None => None
            case Some(r) => if OutOfOrder(earlier, r) then None else DecodeEntries(decode, rest, count, earlier + [r])
  {
    TakeFront(front, rest);
  }

  lemma NextInOrder(earlier: seq<Record>, records: seq<Record>)
    requires records != [] && Sorted(earlier + records)
    ensures !OutOfOrder(earlier, records[0]) && earlier + records == (earlier + [records[0]]) + records[1..]
  {
    var all := earlier + records;
    assert all[|earlier|] == records[0];
    assert |earlier| > 0 ==> all[|earlier| - 1] == earlier[|earlier| - 1];
  }

  /** The decoder undoes the entry encoding of these records, but for a zero request commitment. */
  ghost predicate Inverts(decode: EntryDecoder, records: seq<Record>) {
    forall i {:trigger records[i]} | 0 <= i < |records| ::
      && RecordOk(records[i])
      && decode(EncodeEntry(records[i])) == if records[i].request == 0 then None else Some(records[i])
  }

  lemma DecodeEntryInverts(records: seq<Record>)
    requires forall i | 0 <= i < |records| :: RecordOk(records[i])
    ensures Inverts(DecodeEntry, records)
  {
    forall i | 0 <= i < |records|
      ensures DecodeEntry(EncodeEntry(records[i])) == if records[i].request == 0 then None else Some(records[i])
    {
      DecodeEncodedEntry(records[i]);
    }
  }

  lemma {:induction false} DecodeEncodeEntries(decode: EntryDecoder, records: seq<Record>, earlier: seq<Record>)
    requires Sorted(earlier + records) && Inverts(decode, records)
    ensures DecodeEntries(decode, EncodeEntries(records), |records|, earlier)
         == if NoZeroRequest(records) then Some(earlier + records) else None
    decreases |records|
  {
    if records == [] {
      assert earlier + records == earlier;
    } else {
      var r, rest := records[0], records[1..];
      NextInOrder(earlier, records);
      DecodeFront(decode, EncodeEntry(r), EncodeEntries(rest), |rest|, earlier);
      DecodeEncodeEntries(decode, rest, earlier + [r]);
      NoZeroFront(records);
    }
  }

  lemma NoZeroFront(records: seq<Record>)
    requires records != []
    ensures NoZeroRequest(records) <==> records[0].request != 0 && NoZeroRequest(records[1..])
  {
    assert forall i | 0 <= i < |records| - 1 :: records[1..][i] == records[i + 1];
    assert forall i | 1 <= i < |records| :: records[i] == records[1..][i - 1];
  }

  lemma SortedAppend(earlier: seq<Record>, r: Record)
    requires Sorted(earlier) && !OutOfOrder(earlier, r)
    ensures Sorted(earlier + [r])
  {}

  ghost predicate GoodEntries(records: seq<Record>) {
    forall i | 0 <= i < |records| :: RecordOk(records[i]) && records[i].request != 0
  }

  /** The bytes are entries that decode to the records, one after another. */
  ghost predicate DecodesTo(decode: EntryDecoder, b: Octets, records: seq<Record>) {
    if records == [] then b == []
    else
      && |b| >= ENTRY_BYTES && decode(b[..ENTRY_BYTES]) == Some(records[0])
      && DecodesTo(decode, b[ENTRY_BYTES..], records[1..])
  }

  /** What DecodeEntries accepts: the earlier records, then those the bytes decode to. */
  lemma {:induction false} DecodedEntries(decode: EntryDecoder, b: Octets, count: nat, earlier: seq<Record>)
    returns (more: seq<Record>)
    requires |b| == count * ENTRY_BYTES && DecodeEntries(decode, b, count, earlier).Some? && Sorted(earlier)
    ensures DecodeEntries(decode, b, count, earlier) == Some(earlier + more)
    ensures |more| == count && Sorted(earlier + more) && DecodesTo(decode, b, more)
    decreases count
  {
    if count == 0 {
      more := [];
      assert earlier + more == earlier;
    } else {
      var r := decode(b[..ENTRY_BYTES]).value;
      SortedAppend(earlier, r);
      var tail := DecodedEntries(decode, b[ENTRY_BYTES..], count - 1, earlier + [r]);
      more := [r] + tail;
      assert earlier + more == (earlier + [r]) + tail && more[1..] == tail;
    }
  }

  lemma EncodeDecodedEntry(front: Octets) returns (r: Record)
    requires |front| == ENTRY_BYTES && DecodeEntry(front).Some?
    ensures DecodeEntry(front) == Some(r) && RecordOk(r) && r.request != 0 && EncodeEntry(r) == front
  {
    EntryCanonical(Cut(front));
    JoinCut(front);
    r := DecodeEntry(front).value;
  }

  lemma EncodeCons(r: Record, tail: seq<Record>, front: Octets, rest: Octets)
    requires RecordOk(r) && r.request != 0 && EncodeEntry(r) == front
    requires GoodEntries(tail) && EncodeEntries(tail) == rest
    ensures GoodEntries([r] + tail) && EncodeEntries([r] + tail) == front + rest
  {
    assert ([r] + tail)[1..] == tail;
  }

  /** Records that bytes decode to are good, and encode to those bytes. */
  lemma {:induction false} EncodeDecodeEntries(b: Octets, records: seq<Record>)
    requires DecodesTo(DecodeEntry, b, records)
    ensures GoodEntries(records) && EncodeEntries(records) == b
    decreases |records|
  {
    if records != [] {
      var front, rest, tail := b[..ENTRY_BYTES], b[ENTRY_BYTES..], records[1..];
      var r := EncodeDecodedEntry(front);
      EncodeDecodeEntries(rest, tail);
      EncodeCons(r, tail, front, rest);
      assert records == [r] + tail && b == front + rest;
    }
  }

  // ---------------------------------------------------------------------------------------------
  // The snapshot body
  // ---------------------------------------------------------------------------------------------

  function EncodeSnapshot(records: seq<Record>): Octets
    requires WellFormed(records)
  {
    IntegerLimits();
    MAGIC + (ToBE(|records|, 4) + EncodeEntries(records))
  }

  /** The count that a well-formed header announces for the bytes after it. */
  function HeaderCount(b: Octets): (n: Option<nat>)
    ensures n.Some? ==> n.value <= MAX_ATTEMPTS && |b| == 12 + n.value * ENTRY_BYTES
  {
    if |b| < 8 || b[..8] != MAGIC || |b| < 12 then None
    else
      var count := FromBE(b[8..12]);
      if count > MAX_ATTEMPTS || |b| != 12 + count * ENTRY_BYTES then None else Some(count)
  }

  function DecodeSnapshot(b: Octets): Result<seq<Record>> {
    match HeaderCount(b)
    case None => Err(InvalidSnapshot)
    case Some(count) =>
      match DecodeEntries(DecodeEntry, b[12..], count, [])
      case None => Err(InvalidSnapshot)
      case Some(records) => Ok(records)
  }

  lemma HeaderRoundTrip(count: nat, rest: Octets)
    requires count <= MAX_ATTEMPTS && |rest| == count * ENTRY_BYTES
    ensures count < Pow256(4)
    ensures var b := MAGIC + (ToBE(count, 4) + rest); HeaderCount(b) == Some(count) && b[12..] == rest
  {
    IntegerLimits();
    var b := MAGIC + (ToBE(count, 4) + rest);
    assert b[..8] == MAGIC && b[8..12] == ToBE(count, 4) && b[12..] == rest;
    FromToBE(count, 4);
  }

  lemma HeaderOfCount(b: Octets)
    requires HeaderCount(b).Some?
    ensures HeaderCount(b).value < Pow256(4)
    ensures b == MAGIC + (ToBE(HeaderCount(b).value, 4) + b[12..])
  {
    ToFromBE(b[8..12]);
    assert b == b[..8] + (b[8..12] + b[12..]);
  }

  /** For a well-formed journal, decoding the encoding gives it back if and only if no request
      commitment is zero. */
  lemma SnapshotRoundTrip(records: seq<Record>)
    requires WellFormed(records)
    ensures DecodeSnapshot(EncodeSnapshot(records)) == if Loadable(records) then Ok(records) else Err(InvalidSnapshot)
  {
    HeaderRoundTrip(|records|, EncodeEntries(records));
    assert [] + records == records;
    DecodeEntryInverts(records);
    DecodeEncodeEntries(DecodeEntry, records, []);
  }

  /** One well-formed journal that its own decoder refuses. */
  lemma ZeroRequestIsRefused()
    ensures var records := [Record(1, CreateUser, 0, Prepared, None)];
            WellFormed(records) && DecodeSnapshot(EncodeSnapshot(records)) == Err(InvalidSnapshot)
  {
    var records := [Record(1, CreateUser, 0, Prepared, None)];
    DigestLimit();
    assert records[0].request == 0;
    SnapshotRoundTrip(records);
  }

  lemma DigestLimit()
    ensures IsDigest(0) && IsDigest(1)
  {
    assert Pow256(DIGEST_BYTES) == 256 * Pow256(DIGEST_BYTES - 1);
  }

  /** Exactly one byte string is accepted for each journal: the one it encodes to. */
  lemma SnapshotCanonical(b: Octets)
    requires DecodeSnapshot(b).Ok?
    ensures Loadable(DecodeSnapshot(b).value) && EncodeSnapshot(DecodeSnapshot(b).value) == b
  {
    HeaderOfCount(b);
    var records := DecodedEntries(DecodeEntry, b[12..], HeaderCount(b).value, []);
    EncodeDecodeEntries(b[12..], records);
    assert [] + records == records;
  }

  // ---------------------------------------------------------------------------------------------
  // Where the fields are
  // ---------------------------------------------------------------------------------------------

  const ENDPOINTS: seq<Endpoint> := [
    CreateUser, GetUser, CreateDeposit, CreateTransfer, CreateWithdrawal, SwapRate, CreateSwap, RampBalance, RampQuote,
    RampOfframp, RampOnramp, GetRampSettlement, ListRampSettlements
  ]

  const PHASES: seq<Phase> := [Prepared, MayHaveReachedProvider, ProviderReferenceBound]

  /** One entry by its byte offsets. */
  lemma EntryOffsets(r: Record)
    requires RecordOk(r)
    ensures var b := EncodeEntry(r);
            && FromBE(b[..48]) == r.attempt && FromBE(b[49..97]) == r.request
            && b[48] < |ENDPOINTS| && ENDPOINTS[b[48]] == r.endpoint && b[97] < |PHASES| && PHASES[b[97]] == r.phase
            && (r.reference.None? ==> b[98] == 0 && b[99..] == Zeros(48))
            && (r.reference.Some? ==> b[98] == 1 && FromBE(b[99..]) == r.reference.value)
  {
    CutJoin(FieldsOf(r));
    FieldValues(r);
  }

  lemma {:induction false} EntryAt(records: seq<Record>, i: nat)
    requires (forall k | 0 <= k < |records| :: RecordOk(records[k])) && i < |records|
    ensures EncodeEntries(records)[i * ENTRY_BYTES..][..ENTRY_BYTES] == EncodeEntry(records[i])
    decreases i
  {
    var front, rest := EncodeEntry(records[0]), EncodeEntries(records[1..]);
    if i == 0 {
      TakeFront(front, rest);
    } else {
      EntryAt(records[1..], i - 1);
      assert (front + rest)[i * ENTRY_BYTES..] == rest[(i - 1) * ENTRY_BYTES..];
    }
  }

  /** The snapshot by its byte offsets: the magic, the count, and the entries in their order. */
  lemma SnapshotOffsets(records: seq<Record>, i: nat)
    requires WellFormed(records) && i < |records|
    ensures var b := EncodeSnapshot(records);
            && |b| == 12 + 147 * |records| && b[..8] == MAGIC && FromBE(b[8..12]) == |records|
            && b[12 + 147 * i..][..147] == EncodeEntry(records[i])
  {
    HeaderRoundTrip(|records|, EncodeEntries(records));
    EntryAt(records, i);
    var b := EncodeSnapshot(records);
    assert b[12 + 147 * i..] == b[12..][147 * i..];
  }

  // ---------------------------------------------------------------------------------------------
  // The file: body and tag
  // ---------------------------------------------------------------------------------------------

  /** The tag hash of a body. */
  type TagHash = Octets -> Octets

  ghost predicate TagSized(tag: TagHash) {
    forall b :: |tag(b)| == DIGEST_BYTES
  }

  function FileOf(tag: TagHash, records: seq<Record>): Octets
    requires WellFormed(records)
  {
    EncodeSnapshot(records) + tag(EncodeSnapshot(records))
  }

  function Load(tag: TagHash, file: Octets): Result<seq<Record>> {
    if |file| < 12 + DIGEST_BYTES then Err(InvalidSnapshot)
    else
      var n := |file| - DIGEST_BYTES;
      if tag(file[..n]) != file[n..] then Err(InvalidSnapshot) else DecodeSnapshot(file[..n])
  }

  /** Loading a saved file gives the journal back if and only if no request commitment is zero. */
  lemma LoadSavedExactly(tag: TagHash, records: seq<Record>)
    requires TagSized(tag) && WellFormed(records)
    ensures Load(tag, FileOf(tag, records)) == if NoZeroRequest(records) then Ok(records) else Err(InvalidSnapshot)
  {
    var b := EncodeSnapshot(records);
    var file := FileOf(tag, records);
    assert file[..|b|] == b && file[|b|..] == tag(b);
    SnapshotRoundTrip(records);
  }

  /** Every loadable file is the saved form of the journal it loads as. */
  lemma SavedLoaded(tag: TagHash, file: Octets)
    requires Load(tag, file).Ok?
    ensures Loadable(Load(tag, file).value) && FileOf(tag, Load(tag, file).value) == file
  {
    var n := |file| - DIGEST_BYTES;
    assert file == file[..n] + file[n..];
    LoadedBody(Load(tag, file).value, file[..n], tag, file);
  }

  lemma LoadedBody(records: seq<Record>, body: Octets, tag: TagHash, file: Octets)
    requires DecodeSnapshot(body) == Ok(records) && file == body + tag(body)
    ensures Loadable(records) && FileOf(tag, records) == file
  {
    SnapshotCanonical(body);
  }

  // ---------------------------------------------------------------------------------------------
  // The loops
  // ---------------------------------------------------------------------------------------------

  method WriteSnapshot(records: seq<Record>) returns (bytes: Octets)
    requires WellFormed(records)
    ensures bytes == EncodeSnapshot(records)
  {
    IntegerLimits();
    bytes := MAGIC + ToBE(|records|, 4);
    ghost var whole := EncodeSnapshot(records);
    for n := 0 to |records|
      invariant bytes + EncodeEntries(records[n..]) == whole
    {
      assert records[n..][0] == records[n] && records[n..][1..] == records[n + 1..];
      bytes := bytes + EncodeEntry(records[n]);
    }
  }

  method ReadEntries(decode: EntryDecoder, bytes: Octets, count: nat) returns (r: Option<seq<Record>>)
    requires |bytes| == 12 + count * ENTRY_BYTES
    ensures r == DecodeEntries(decode, bytes[12..], count, [])
  {
    var records: seq<Record> := [];
    var cursor := 12;
    for n := 0 to count
      invariant cursor == 12 + n * ENTRY_BYTES
      invariant DecodeEntries(decode, bytes[cursor..], count - n, records)
                == DecodeEntries(decode, bytes[12..], count, [])
    {
      assert bytes[cursor..][..ENTRY_BYTES] == bytes[cursor..cursor + ENTRY_BYTES];
      assert bytes[cursor..][ENTRY_BYTES..] == bytes[cursor + ENTRY_BYTES..];
      var entry := decode(bytes[cursor..cursor + ENTRY_BYTES]);
      if entry.None? || OutOfOrder(records, entry.value) {
        return None;
      }
      records := records + [entry.value];
      cursor := cursor + ENTRY_BYTES;
    }
    return Some(records);
  }

  method ReadSnapshot(bytes: Octets) returns (r: Result<seq<Record>>)
    ensures r == DecodeSnapshot(bytes)
  {
    var count := HeaderCount(bytes);
    if count.None? {
      return Err(InvalidSnapshot);
    }
    var records := ReadEntries(DecodeEntry, bytes, count.value);
    return if records.None? then Err(InvalidSnapshot) else Ok(records.value);
  }
}
