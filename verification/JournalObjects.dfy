/** The journal object: every durable method clones, changes the clone, saves it, and only then
replaces the journal. */
module JournalObjects {
  import opened Octets
  import opened Options
  import opened Journal
  import opened JournalCodec
  import opened JournalRuns

  /** The file behind a path. */
  class Disk {
    var file: Option<Octets>

    constructor ()
      ensures file == None
    {
      file := None;
    }
  }

  ghost predicate Before(records: seq<Record>, k: nat, attempt: Digest) {
    k < |records| && records[k].attempt < attempt
  }

  ghost predicate PlaceFits(records: seq<Record>, attempt: Digest, p: Place) {
    match p
    case Found(i) => i < |records| && records[i].attempt == attempt
    case Vacant(i) =>
      && i <= |records| && (forall k: nat | k < |records| :: records[k].attempt != attempt)
      && (forall k: nat | k < i :: Before(records, k, attempt))
         && (forall k: nat | i <= k :: !Before(records, k, attempt))
  }

  lemma NoEarlierVacancy(records: seq<Record>, attempt: Digest, i: nat, j: nat)
    requires forall k: nat | k < i :: Before(records, k, attempt)
    requires forall k: nat | j <= k :: !Before(records, k, attempt)
    ensures i <= j
  {
    assert j < i ==> Before(records, j, attempt);
  }

  /** Only one place fits, so however the search halves, it finds that one. */
  lemma PlaceIsUnique(records: seq<Record>, attempt: Digest, p: Place, q: Place)
    requires Sorted(records) && PlaceFits(records, attempt, p) && PlaceFits(records, attempt, q)
    ensures p == q
  {
    if p.Vacant? && q.Vacant? {
      NoEarlierVacancy(records, attempt, p.index, q.index);
      NoEarlierVacancy(records, attempt, q.index, p.index);
    }
  }

  /** `binary_search_by_key`. */
  method BinarySearch(records: seq<Record>, attempt: Digest) returns (p: Place)
    requires Sorted(records)
    ensures p == Locate(records, attempt)
  {
    var lo, hi := 0, |records|;
    while lo < hi
      invariant 0 <= lo <= hi <= |records|
      invariant forall i | 0 <= i < lo :: records[i].attempt < attempt
      invariant forall i | hi <= i < |records| :: attempt < records[i].attempt
    {
      var mid := (lo + hi) / 2;
      if records[mid].attempt == attempt {
        PlaceIsUnique(records, attempt, Found(mid), Locate(records, attempt));
        return Found(mid);
      } else if records[mid].attempt < attempt {
        lo := mid + 1;
      } else {
        hi := mid;
      }
    }
    PlaceIsUnique(records, attempt, Vacant(lo), Locate(records, attempt));
    return Vacant(lo);
  }

  /** `prepare` on a clone: the new records, and whether they changed. */
  method PrepareNext(records: seq<Record>, attempt: Digest, endpoint: Endpoint, request: Digest)
    returns (r: Result<Change>)
    requires Sorted(records)
    ensures r == Prepare(records, attempt, endpoint, request)
  {
    var place := BinarySearch(records, attempt);
    if place.Found? {
      var existing := records[place.index];
      if existing.endpoint == endpoint && existing.request == request {
        return Ok(Change(records, false));
      }
      return Err(IdempotencyConflict);
    }
    if |records| == MAX_ATTEMPTS {
      return Err(Capacity);
    }
    var record := Record(attempt, endpoint, request, Prepared, None);
    return Ok(Change(records[..place.index] + [record] + records[place.index..], true));
  }

  method MarkNext(records: seq<Record>, attempt: Digest) returns (r: Result<Change>)
    requires Sorted(records)
    ensures r == Mark(records, attempt)
  {
    var place := BinarySearch(records, attempt);
    if place.Vacant? {
      return Err(UnknownAttempt);
    }
    var record := records[place.index];
    if record.phase != Prepared {
      return Err(InvalidTransition);
    }
    return Ok(Change(records[place.index := record.(phase := MayHaveReachedProvider)], true));
  }

  method BindNext(records: seq<Record>, attempt: Digest, reference: Digest) returns (r: Result<Change>)
    requires Sorted(records)
    ensures r == Bind(records, attempt, reference)
  {
    if reference == 0 {
      return Err(InvalidReference);
    }
    var place := BinarySearch(records, attempt);
    if place.Vacant? {
      return Err(UnknownAttempt);
    }
    var record := records[place.index];
    if record.phase == MayHaveReachedProvider && record.reference.None? {
      var bound := record.(phase := ProviderReferenceBound, reference := Some(reference));
      return Ok(Change(records[place.index := bound], true));
    }
    if record.phase == ProviderReferenceBound && record.reference == Some(reference) {
      return Ok(Change(records, false));
    }
    return Err(InvalidTransition);
  }

  class NtzsAttemptJournal {
    const tag: TagHash
    var attempts: seq<Record>

    ghost predicate Valid()
      reads this
    {
      TagSized(tag) && WellFormed(attempts)
    }

    constructor (tag: TagHash)
      requires TagSized(tag)
      ensures Valid() && attempts == [] && this.tag == tag
    {
      this.tag, attempts := tag, [];
    }

    /** The journal and its file as a machine of JournalRuns. */
    function Value(disk: Disk): Machine
      reads this, disk
    {
      Machine(Some(attempts), disk.file)
    }

    /** Save a changed clone, and only then adopt it. */
    method Adopt(change: Change, disk: Disk, save: Save) returns (r: Result<bool>)
      requires Valid() && WellFormed(change.records)
      modifies this, disk
      ensures Valid()
      ensures Answer(Value(disk), r) == Commit(SnapshotStore(tag), old(Value(disk)), Ok(change), save)
    {
      if !change.changed {
        return Ok(false);
      }
      var saved := SaveAtomic(change.records, disk, save);
      if !saved {
        return Err(Persistence);
      }
      attempts := change.records;
      return Ok(true);
    }

    method PrepareDurable(attempt: Digest, endpoint: Endpoint, request: Digest, disk: Disk, save: Save)
      returns (r: Result<bool>)
      requires Valid() && GoodStep(DoPrepare(attempt, endpoint, request, save))
      modifies this, disk
      ensures Valid()
      ensures Answer(Value(disk), r)
              == Next(SnapshotStore(tag), old(Value(disk)), DoPrepare(attempt, endpoint, request, save))
    {
      var next := PrepareNext(attempts, attempt, endpoint, request);
      if next.Err? {
        return Err(next.error);
      }
      ChangeAdvances(attempts, DoPrepare(attempt, endpoint, request, save));
      r := Adopt(next.value, disk, save);
    }

    method MarkMayHaveReachedProviderDurable(attempt: Digest, disk: Disk, save: Save) returns (r: Result<bool>)
      requires Valid() && GoodStep(DoMark(attempt, save))
      modifies this, disk
      ensures Valid()
      ensures Answer(Value(disk), r) == Next(SnapshotStore(tag), old(Value(disk)), DoMark(attempt, save))
    {
      var next := MarkNext(attempts, attempt);
      if next.Err? {
        return Err(next.error);
      }
      ChangeAdvances(attempts, DoMark(attempt, save));
      r := Adopt(next.value, disk, save);
    }

    method BindProviderReferenceDurable(attempt: Digest, reference: Digest, disk: Disk, save: Save)
      returns (r: Result<bool>)
      requires Valid() && GoodStep(DoBind(attempt, reference, save))
      modifies this, disk
      ensures Valid()
      ensures Answer(Value(disk), r) == Next(SnapshotStore(tag), old(Value(disk)), DoBind(attempt, reference, save))
    {
      var next := BindNext(attempts, attempt, reference);
      if next.Err? {
        return Err(next.error);
      }
      ChangeAdvances(attempts, DoBind(attempt, reference, save));
      r := Adopt(next.value, disk, save);
    }

    /** The save as three outcomes: the rename replaces the file, the sync after it may still fail. */
    method SaveAtomic(records: seq<Record>, disk: Disk, save: Save) returns (ok: bool)
      requires WellFormed(records)
      modifies disk
      ensures ok == (save == Saved)
      ensures disk.file == if save == FailedBeforeRename then old(disk.file) else Some(FileOf(tag, records))
    {
      var body := WriteSnapshot(records);
      if save == FailedBeforeRename {
        return false;
      }
      disk.file := Some(body + tag(body));
      return save == Saved;
    }
  }

  /** Reading a file back, through the byte decoder; None is a file that cannot be read. */
  method LoadJournal(tag: TagHash, read: Option<Octets>) returns (r: Result<NtzsAttemptJournal>)
    requires TagSized(tag)
    ensures r.Err? ==> r.error == if read.None? then Persistence else InvalidSnapshot
    ensures r.Ok? <==> read.Some? && Load(tag, read.value).Ok?
    ensures r.Ok? ==> fresh(r.value) && r.value.Valid() && r.value.tag == tag
    ensures r.Ok? ==> Ok(r.value.attempts) == Load(tag, read.value) && FileOf(tag, r.value.attempts) == read.value
  {
    if read.None? {
      return Err(Persistence);
    }
    var file := read.value;
    if |file| < 12 + DIGEST_BYTES {
      return Err(InvalidSnapshot);
    }
    var n := |file| - DIGEST_BYTES;
    if tag(file[..n]) != file[n..] {
      return Err(InvalidSnapshot);
    }
    var records := ReadSnapshot(file[..n]);
    if records.Err? {
      return Err(InvalidSnapshot);
    }
    SavedLoaded(tag, file);
    var journal := new NtzsAttemptJournal(tag);
    journal.attempts := records.value;
    return Ok(journal);
  }
}
