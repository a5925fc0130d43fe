/** The reference side of the history tree: it keeps the header digests and recomputes subtrees by
splitting an index-sorted slice at each level. */
module ReferenceHistories {
  import opened Keys
  import opened Digests
  import opened SparseSet
  import opened History
  import opened Widths

  type Entry = (nat, Root)

  method HistoryEmptyHashes(D: Digester) returns (empty: seq<Root>)
    ensures EmptyTable(D, empty)
  {
    var hashes := new Root[HISTORY_BITS + 1](_ => ZERO_ROOT);
    hashes[HISTORY_BITS] := D(EmptyHistoryLeaf);
    for depth := HISTORY_BITS downto 0
      invariant forall d: nat {:trigger hashes[d]} | depth <= d <= HISTORY_BITS :: hashes[d] == EmptyHistoryAt(D, d)
    {
      hashes[depth] := D(HistoryNode(depth, hashes[depth + 1], hashes[depth + 1]));
    }
    empty := hashes[..];
  }

  ghost predicate EmptyTable(D: Digester, empty: seq<Root>) {
    && |empty| == HISTORY_BITS + 1
    && forall d: nat {:trigger empty[d]} | d <= HISTORY_BITS :: empty[d] == EmptyHistoryAt(D, d)
  }

  // ---------------------------------------------------------------------------------------------
  // Slices
  // ---------------------------------------------------------------------------------------------

  ghost predicate ByIndex(entries: seq<Entry>) {
    forall i, j | 0 <= i < j < |entries| :: entries[i].0 < entries[j].0
  }

  /** What every slice handed to HistorySubtree satisfies (CoversInOneNode): increasing indices inside one node. */
  ghost predicate InOneNode(entries: seq<Entry>, depth: nat)
    requires depth <= HISTORY_BITS
  {
    && ByIndex(entries)
    && forall i | 0 <= i < |entries| :: NodeOf(entries[i].0, depth) == NodeOf(entries[0].0, depth)
  }

  /** No entry with the index bit set comes before one without. */
  ghost predicate Partitioned(entries: seq<Entry>, depth: nat)
    requires depth < HISTORY_BITS
  {
    forall i, j | 0 <= i < j < |entries| :: IndexBit(entries[i].0, depth) ==> IndexBit(entries[j].0, depth)
  }

  /** The split is always taken over a partitioned slice. */
  lemma SliceIsPartitioned(entries: seq<Entry>, depth: nat)
    requires depth < HISTORY_BITS && InOneNode(entries, depth)
    ensures Partitioned(entries, depth)
  {
    forall i, j | 0 <= i < j < |entries| && IndexBit(entries[i].0, depth) ensures IndexBit(entries[j].0, depth) {
      NodeStep(entries[i].0, depth);
      NodeStep(entries[j].0, depth);
      ShiftMonotone(entries[i].0, entries[j].0, HISTORY_BITS - depth - 1);
    }
  }

  /** At the leaf depth a slice holds at most one entry. */
  lemma LeafSliceIsSingle(entries: seq<Entry>)
    requires InOneNode(entries, HISTORY_BITS)
    ensures |entries| <= 1
  {
    if |entries| > 1 {
      NodeEnds(entries[0].0);
      NodeEnds(entries[1].0);
    }
  }

  /** `partition_point`: the number of leading entries without the bit. */
  function PartitionPoint(entries: seq<Entry>, depth: nat): (split: nat)
    requires depth < HISTORY_BITS
    ensures split <= |entries|
  {
    if entries == [] || IndexBit(entries[0].0, depth) then 0 else 1 + PartitionPoint(entries[1..], depth)
  }

  /** In a partitioned slice every entry from the split on has the bit. */
  lemma {:induction false} PartitionSplits(entries: seq<Entry>, depth: nat)
    requires depth < HISTORY_BITS && Partitioned(entries, depth)
    ensures forall i | 0 <= i < PartitionPoint(entries, depth) :: !IndexBit(entries[i].0, depth)
    ensures forall i | PartitionPoint(entries, depth) <= i < |entries| :: IndexBit(entries[i].0, depth)
  {
    if entries != [] && !IndexBit(entries[0].0, depth) {
      var tail := entries[1..];
      assert forall i | 0 <= i < |tail| :: tail[i] == entries[i + 1];
      PartitionSplits(tail, depth);
    }
  }

  function HistorySubtree(D: Digester, entries: seq<Entry>, depth: nat, empty: seq<Root>): Root
    requires depth <= HISTORY_BITS && |empty| == HISTORY_BITS + 1
    decreases HISTORY_BITS - depth, entries
  {
    if entries == [] then empty[depth]
    else if depth == HISTORY_BITS then D(HistoryLeaf(entries[0].0, entries[0].1))
    else
      var split := PartitionPoint(entries, depth);
      D(HistoryNode(depth, HistorySubtree(D, entries[..split], depth + 1, empty),
                    HistorySubtree(D, entries[split..], depth + 1, empty)))
  }

  ghost predicate HasIndex(entries: seq<Entry>, index: nat) {
    exists k :: 0 <= k < |entries| && entries[k].0 == index
  }

  /** The entries are exactly the headers below node q, in index order. */
  ghost predicate Covers(headers: seq<Root>, entries: seq<Entry>, depth: nat, q: nat)
    requires depth <= HISTORY_BITS
  {
    && ByIndex(entries)
    && (forall k | 0 <= k < |entries| ::
          entries[k].0 < |headers| && headers[entries[k].0] == entries[k].1 && NodeOf(entries[k].0, depth) == q)
    && (forall i: nat {:trigger HasIndex(entries, i)} | i < |headers| && NodeOf(i, depth) == q :: HasIndex(entries, i))
  }

  /** The part of a covering slice with the given index bit covers that child. */
  lemma HalfCovers(headers: seq<Root>, entries: seq<Entry>, depth: nat, q: nat, half: seq<Entry>, bit: bool)
    requires depth < HISTORY_BITS && Covers(headers, entries, depth, q) && ByIndex(half)
    requires forall e :: e in half <==> e in entries && IndexBit(e.0, depth) == bit
    ensures Covers(headers, half, depth + 1, 2 * q + if bit then 1 else 0)
  {
    forall k | 0 <= k < |half|
      ensures half[k].0 < |headers| && headers[half[k].0] == half[k].1
      ensures NodeOf(half[k].0, depth + 1) == 2 * q + if bit then 1 else 0
    {
      assert half[k] in entries;
      NodeStep(half[k].0, depth);
    }
    forall i: nat | i < |headers| && NodeOf(i, depth + 1) == 2 * q + (if bit then 1 else 0)
      ensures HasIndex(half, i)
    {
      NodeStep(i, depth);
      assert HasIndex(entries, i);
      var k :| 0 <= k < |entries| && entries[k].0 == i;
      assert entries[k] in half;
    }
  }

  lemma CoversInOneNode(headers: seq<Root>, entries: seq<Entry>, depth: nat, q: nat)
    requires depth <= HISTORY_BITS && Covers(headers, entries, depth, q)
    ensures InOneNode(entries, depth)
  {}

  lemma SplitCovers(headers: seq<Root>, entries: seq<Entry>, depth: nat, q: nat)
    requires depth < HISTORY_BITS && Covers(headers, entries, depth, q)
    ensures var split := PartitionPoint(entries, depth);
            && Covers(headers, entries[..split], depth + 1, 2 * q)
            && Covers(headers, entries[split..], depth + 1, 2 * q + 1)
  {
    var split := PartitionPoint(entries, depth);
    CoversInOneNode(headers, entries, depth, q);
    SliceIsPartitioned(entries, depth);
    PartitionSplits(entries, depth);
    HalfCovers(headers, entries, depth, q, entries[..split], false);
    HalfCovers(headers, entries, depth, q, entries[split..], true);
  }

  ghost predicate NoneBelow(headers: seq<Root>, depth: nat, q: nat)
    requires depth <= HISTORY_BITS
  {
    forall i | 0 <= i < |headers| :: NodeOf(i, depth) != q
  }

  lemma CoversNothing(headers: seq<Root>, depth: nat, q: nat)
    requires depth <= HISTORY_BITS && Covers(headers, [], depth, q)
    ensures NoneBelow(headers, depth, q)
  {
    forall i | 0 <= i < |headers| ensures NodeOf(i, depth) != q { assert !HasIndex([], i); }
  }

  /** The recomputation of an empty slice, and of one at a leaf. */
  lemma EndIsTree(D: Digester, headers: seq<Root>, entries: seq<Entry>, depth: nat, q: nat, empty: seq<Root>)
    requires depth <= HISTORY_BITS && EmptyTable(D, empty) && Covers(headers, entries, depth, q)
    requires entries == [] || depth == HISTORY_BITS
    ensures HistorySubtree(D, entries, depth, empty) == Tree(D, headers, depth, q)
  {
    if entries == [] {
      CoversNothing(headers, depth, q);
      TreeEmpty(D, headers, depth, q);
    } else {
      NodeEnds(entries[0].0);
    }
  }

  lemma HalvesAreTree(D: Digester, headers: seq<Root>, entries: seq<Entry>, depth: nat, q: nat, empty: seq<Root>)
    requires depth < HISTORY_BITS && entries != [] && |empty| == HISTORY_BITS + 1
    requires var split := PartitionPoint(entries, depth);
             && HistorySubtree(D, entries[..split], depth + 1, empty) == Tree(D, headers, depth + 1, 2 * q)
             && HistorySubtree(D, entries[split..], depth + 1, empty) == Tree(D, headers, depth + 1, 2 * q + 1)
    ensures HistorySubtree(D, entries, depth, empty) == Tree(D, headers, depth, q)
  {}

  lemma {:induction false} LeftIsTree(
    D: Digester, headers: seq<Root>, entries: seq<Entry>, depth: nat, q: nat, empty: seq<Root>)
    requires depth < HISTORY_BITS && EmptyTable(D, empty) && Covers(headers, entries, depth, q)
    ensures HistorySubtree(D, entries[..PartitionPoint(entries, depth)], depth + 1, empty)
         == Tree(D, headers, depth + 1, 2 * q)
    decreases HISTORY_BITS - depth, 0
  {
    SplitCovers(headers, entries, depth, q);
    SubtreeIsTree(D, headers, entries[..PartitionPoint(entries, depth)], depth + 1, 2 * q, empty);
  }

  lemma {:induction false} RightIsTree(
    D: Digester, headers: seq<Root>, entries: seq<Entry>, depth: nat, q: nat, empty: seq<Root>)
    requires depth < HISTORY_BITS && EmptyTable(D, empty) && Covers(headers, entries, depth, q)
    ensures HistorySubtree(D, entries[PartitionPoint(entries, depth)..], depth + 1, empty)
         == Tree(D, headers, depth + 1, 2 * q + 1)
    decreases HISTORY_BITS - depth, 0
  {
    SplitCovers(headers, entries, depth, q);
    SubtreeIsTree(D, headers, entries[PartitionPoint(entries, depth)..], depth + 1, 2 * q + 1, empty);
  }

  /** Splitting the slice level by level recomputes the tree. */
  lemma {:induction false} SubtreeIsTree(
    D: Digester, headers: seq<Root>, entries: seq<Entry>, depth: nat, q: nat, empty: seq<Root>)
    requires depth <= HISTORY_BITS && EmptyTable(D, empty) && Covers(headers, entries, depth, q)
    ensures HistorySubtree(D, entries, depth, empty) == Tree(D, headers, depth, q)
    decreases HISTORY_BITS - depth, 1
  {
    if entries == [] || depth == HISTORY_BITS {
      EndIsTree(D, headers, entries, depth, q, empty);
    } else {
      LeftIsTree(D, headers, entries, depth, q, empty);
      RightIsTree(D, headers, entries, depth, q, empty);
      HalvesAreTree(D, headers, entries, depth, q, empty);
    }
  }

  /** `iter().enumerate()`. */
  function Enumerate(headers: seq<Root>): (entries: seq<Entry>)
    ensures |entries| == |headers|
    ensures forall i | 0 <= i < |headers| :: entries[i] == (i, headers[i])
  {
    seq(|headers|, i requires 0 <= i < |headers| => (i, headers[i]))
  }

  lemma EnumerateCovers(headers: seq<Root>)
    requires |headers| < U32_LIMIT
    ensures Covers(headers, Enumerate(headers), 0, 0)
  {
    var entries := Enumerate(headers);
    forall i: nat | i < |headers| ensures NodeOf(i, 0) == 0 && HasIndex(entries, i) {
      NodeEnds(i);
      assert entries[i].0 == i;
    }
  }

  /** One side of `into_iter().partition(..)`, which keeps the order. */
  function WithBit(entries: seq<Entry>, depth: nat, bit: bool): seq<Entry>
    requires depth < HISTORY_BITS
  {
    if entries == [] then []
    else (if IndexBit(entries[0].0, depth) == bit then [entries[0]] else []) + WithBit(entries[1..], depth, bit)
  }

  lemma ConsByIndex(first: Entry, rest: seq<Entry>)
    requires ByIndex(rest) && forall j | 0 <= j < |rest| :: first.0 < rest[j].0
    ensures ByIndex([first] + rest)
  {}

  lemma {:induction false} WithBitKeepsOrder(entries: seq<Entry>, depth: nat, bit: bool)
    requires depth < HISTORY_BITS && ByIndex(entries)
    ensures ByIndex(WithBit(entries, depth, bit))
    ensures forall e :: e in WithBit(entries, depth, bit) <==> e in entries && IndexBit(e.0, depth) == bit
  {
    if entries != [] {
      var first, tail := entries[0], entries[1..];
      var rest := WithBit(tail, depth, bit);
      WithBitKeepsOrder(tail, depth, bit);
      forall j | 0 <= j < |rest| ensures first.0 < rest[j].0 {
        assert rest[j] in tail;
      }
      if IndexBit(first.0, depth) == bit { ConsByIndex(first, rest); }
      assert entries == [first] + tail;
      assert WithBit(entries, depth, bit) == (if IndexBit(first.0, depth) == bit then [first] + rest else rest);
    }
  }

  lemma SideCovers(headers: seq<Root>, entries: seq<Entry>, depth: nat, q: nat, bit: bool)
    requires depth < HISTORY_BITS && Covers(headers, entries, depth, q)
    ensures Covers(headers, WithBit(entries, depth, bit), depth + 1, 2 * q + if bit then 1 else 0)
  {
    WithBitKeepsOrder(entries, depth, bit);
    HalfCovers(headers, entries, depth, q, WithBit(entries, depth, bit), bit);
  }

  /** One turn of the proof loop: the half off the path gives the sibling, the other half covers
      the next node of the path. */
  lemma ProofLevel(D: Digester, headers: seq<Root>, candidates: seq<Entry>, index: nat, depth: nat, empty: seq<Root>)
    requires depth < HISTORY_BITS && EmptyTable(D, empty)
    requires Covers(headers, candidates, depth, NodeOf(index, depth))
    ensures var bit := IndexBit(index, depth);
            && Covers(headers, WithBit(candidates, depth, bit), depth + 1, NodeOf(index, depth + 1))
            && HistorySubtree(D, WithBit(candidates, depth, !bit), depth + 1, empty)
               == PathSiblings(D, headers, index)[depth]
  {
    var bit, q := IndexBit(index, depth), NodeOf(index, depth);
    SideCovers(headers, candidates, depth, q, bit);
    SideCovers(headers, candidates, depth, q, !bit);
    NodeStep(index, depth);
    SiblingSubtree(D, headers, WithBit(candidates, depth, !bit), index, depth, empty);
  }

  lemma SiblingSubtree(D: Digester, headers: seq<Root>, side: seq<Entry>, index: nat, depth: nat, empty: seq<Root>)
    requires depth < HISTORY_BITS && EmptyTable(D, empty) && Covers(headers, side, depth + 1, SiblingNode(index, depth))
    ensures HistorySubtree(D, side, depth + 1, empty) == PathSiblings(D, headers, index)[depth]
  {
    SubtreeIsTree(D, headers, side, depth + 1, SiblingNode(index, depth), empty);
  }

  /** One turn of the loop: the sibling of this level, and the candidates of the next. */
  method ProofStep(D: Digester, headers: seq<Root>, candidates: seq<Entry>, index: nat, depth: nat, empty: seq<Root>)
    returns (sibling: Root, next: seq<Entry>)
    requires depth < HISTORY_BITS && EmptyTable(D, empty)
    requires Covers(headers, candidates, depth, NodeOf(index, depth))
    ensures sibling == PathSiblings(D, headers, index)[depth]
    ensures Covers(headers, next, depth + 1, NodeOf(index, depth + 1))
  {
    ProofLevel(D, headers, candidates, index, depth, empty);
    var left, right := WithBit(candidates, depth, false), WithBit(candidates, depth, true);
    if IndexBit(index, depth) {
      sibling := HistorySubtree(D, left, depth + 1, empty);
      next := right;
    } else {
      sibling := HistorySubtree(D, right, depth + 1, empty);
      next := left;
    }
  }

  method ProofFor(D: Digester, headers: seq<Root>, index: nat, header: Root) returns (proof: HistoryProof)
    requires |headers| < U32_LIMIT && index < U32_LIMIT
    ensures proof == HistoryProof(index, header, PathSiblings(D, headers, index))
  {
    var empty := HistoryEmptyHashes(D);
    var candidates := Enumerate(headers);
    var siblings: seq<Root> := [];
    ghost var honest := PathSiblings(D, headers, index);
    EnumerateCovers(headers);
    NodeEnds(index);
    for depth := 0 to HISTORY_BITS
      invariant Covers(headers, candidates, depth, NodeOf(index, depth))
      invariant siblings == honest[..depth]
    {
      var sibling;
      sibling, candidates := ProofStep(D, headers, candidates, index, depth, empty);
      siblings := siblings + [sibling];
    }
    assert siblings == honest;
    proof := HistoryProof(index, header, siblings);
  }

  class ReferenceHistory {
    const D: Digester
    var headers: seq<Root>

    /** Never more than u32::MAX headers, none of them zero. */
    ghost predicate Valid()
      reads this
    {
      |headers| < U32_LIMIT && ZERO_ROOT !in headers
    }

    constructor (D: Digester)
      ensures Valid() && headers == [] && this.D == D
    {
      this.D, headers := D, [];
    }

    method Append(header: Root) returns (r: Result<()>)
      requires Valid()
      modifies this
      ensures Valid()
      ensures r == if header == ZERO_ROOT || |old(headers)| == U32_LIMIT - 1 then Err(Bounds) else Ok(())
      ensures headers == if r.Ok? then old(headers) + [header] else old(headers)
    {
      if header == ZERO_ROOT || |headers| == U32_LIMIT - 1 {
        return Err(Bounds);
      }
      headers := headers + [header];
      return Ok(());
    }

    method Commitment() returns (c: HistoryCommitment)
      requires Valid()
      ensures c == HistoryCommitmentOf(D, headers)
    {
      var empty := HistoryEmptyHashes(D);
      var indexed := Enumerate(headers);
      EnumerateCovers(headers);
      SubtreeIsTree(D, headers, indexed, 0, 0, empty);
      var tree := HistorySubtree(D, indexed, 0, empty);
      c := HistoryCommitment(D(HistoryRoot(|headers|, tree)), |headers|);
    }

    /** The witness that lets the root-only side append: see AbsenceWitnessAccepted. */
    method AbsenceWitness() returns (proof: HistoryProof)
      requires Valid()
      ensures proof == HistoryProof(|headers|, ZERO_ROOT, PathSiblings(D, headers, |headers|))
      ensures forall header | header != ZERO_ROOT && |headers| + 1 < U32_LIMIT ::
                AppendSpec(D, HistoryCommitmentOf(D, headers), header, proof)
                  == Ok(HistoryCommitmentOf(D, headers + [header]))
    {
      proof := ProofFor(D, headers, |headers|, ZERO_ROOT);
      forall header | header != ZERO_ROOT && |headers| + 1 < U32_LIMIT {
        AbsenceWitnessAccepted(D, headers, header);
      }
    }

    method Proof(index: nat) returns (r: Result<HistoryProof>)
      requires Valid() && index < U32_LIMIT
      ensures r.Ok? <==> index < |headers|
      ensures r.Ok? ==> r.value == HistoryProof(index, headers[index], PathSiblings(D, headers, index))
      ensures r.Ok? ==> VerifySpec(D, HistoryCommitmentOf(D, headers), r.value) == Ok(())
      ensures r.Err? ==> r.error == Bounds
    {
      if index >= |headers| {
        return Err(Bounds);
      }
      var proof := ProofFor(D, headers, index, headers[index]);
      ArchivedProofAccepted(D, headers, index);
      return Ok(proof);
    }
  }

  // ---------------------------------------------------------------------------------------------
  // Client and reference in lockstep
  // ---------------------------------------------------------------------------------------------

  /** The headers after offering some more: zero headers are never taken, and a full history takes none. */
  ghost function Archived(headers: seq<Root>, more: seq<Root>): seq<Root> {
    if more == [] then headers
    else
      var n := |more| - 1;
      var earlier := Archived(headers, more[..n]);
      if more[n] == ZERO_ROOT || |earlier| == U32_LIMIT - 1 then earlier else earlier + [more[n]]
  }

  /** The root-only client accepts the reference's proof of every header. */
  ghost predicate AllVerify(D: Digester, client: HistoryCommitment, headers: seq<Root>) {
    forall i: nat | i < |headers| ::
      VerifySpec(D, client, HistoryProof(i, headers[i], PathSiblings(D, headers, i))) == Ok(())
  }

  lemma ArchivedVerify(D: Digester, headers: seq<Root>)
    requires |headers| < U32_LIMIT && ZERO_ROOT !in headers
    ensures AllVerify(D, HistoryCommitmentOf(D, headers), headers)
  {
    forall i: nat | i < |headers|
      ensures VerifySpec(D, HistoryCommitmentOf(D, headers),
                         HistoryProof(i, headers[i], PathSiblings(D, headers, i))) == Ok(())
    {
      ArchivedProofAccepted(D, headers, i);
    }
  }

  /** The client's side: append with the reference's absence witness, and stay when that is refused. */
  method ClientAppend(reference: ReferenceHistory, client: HistoryCommitment, header: Root)
    returns (next: HistoryCommitment)
    requires reference.Valid() && client == HistoryCommitmentOf(reference.D, reference.headers)
    ensures next == if header == ZERO_ROOT || |reference.headers| == U32_LIMIT - 1 then client
                    else HistoryCommitmentOf(reference.D, reference.headers + [header])
  {
    var absence := reference.AbsenceWitness();
    var moved := CommitmentAppend(reference.D, client, header, absence);
    return if moved.Ok? then moved.value else client;
  }

  /** One header, offered to both sides. */
  method AppendBoth(reference: ReferenceHistory, client: HistoryCommitment, header: Root)
    returns (next: HistoryCommitment)
    requires reference.Valid() && client == HistoryCommitmentOf(reference.D, reference.headers)
    modifies reference
    ensures reference.Valid() && next == HistoryCommitmentOf(reference.D, reference.headers)
    ensures reference.headers == Archived(old(reference.headers), [header])
  {
    assert [header][..0] == [];
    next := ClientAppend(reference, client, header);
    var appended := reference.Append(header);
  }

  lemma ArchivedSnoc(headers: seq<Root>, more: seq<Root>, header: Root)
    ensures Archived(headers, more + [header]) == Archived(Archived(headers, more), [header])
  {
    assert (more + [header])[..|more|] == more && [header][..0] == [];
  }

  /** Over every list of headers, zero ones and ones past the last index included, the root-only client stays
      at the commitment of the reference history, and accepts the proof of every header archived. */
  method AppendInLockstep(reference: ReferenceHistory, headers: seq<Root>) returns (client: HistoryCommitment)
    requires reference.Valid()
    modifies reference
    ensures reference.Valid() && reference.headers == Archived(old(reference.headers), headers)
    ensures client == HistoryCommitmentOf(reference.D, reference.headers)
    ensures AllVerify(reference.D, client, reference.headers)
  {
    client := reference.Commitment();
    ghost var before := reference.headers;
    for n := 0 to |headers|
      invariant reference.Valid() && reference.headers == Archived(before, headers[..n])
      invariant client == HistoryCommitmentOf(reference.D, reference.headers)
    {
      ArchivedSnoc(before, headers[..n], headers[n]);
      assert headers[..n + 1] == headers[..n] + [headers[n]];
      client := AppendBoth(reference, client, headers[n]);
    }
    assert headers[..|headers|] == headers;
    ArchivedVerify(reference.D, reference.headers);
  }
}
