/** The 32-level append-only history tree: the reference side keeps every header digest and
recomputes, the commitment side keeps a root and a count. */
module History {
  import opened Keys
  import opened Digests
  import opened SparseSet
  import opened Widths

  const HISTORY_BITS: nat := 32

  datatype HistoryCommitment = HistoryCommitment(root: Root, count: nat)

  /** Siblings in root-to-leaf order. */
  datatype HistoryProof = HistoryProof(index: nat, header: Root, siblings: seq<Root>)

  // ---------------------------------------------------------------------------------------------
  // Index arithmetic
  // ---------------------------------------------------------------------------------------------

  /** `x >> n`. */
  function ShiftRight(x: nat, n: nat): nat {
    if n == 0 then x else ShiftRight(x, n - 1) / 2
  }

  /** `index & (1 << (31 - depth)) != 0`. */
  predicate IndexBit(index: nat, depth: nat)
    requires depth < HISTORY_BITS
  {
    ShiftRight(index, HISTORY_BITS - 1 - depth) % 2 == 1
  }

  /** The node at the given depth whose subtree holds the index, numbered from the left. */
  function NodeOf(index: nat, depth: nat): nat
    requires depth <= HISTORY_BITS
  {
    ShiftRight(index, HISTORY_BITS - depth)
  }

  /** One level down, the node number doubles and takes in the index bit. */
  lemma NodeStep(index: nat, depth: nat)
    requires depth < HISTORY_BITS
    ensures NodeOf(index, depth + 1) == 2 * NodeOf(index, depth) + if IndexBit(index, depth) then 1 else 0
  {}

  lemma {:induction false} ShiftMonotone(i: nat, j: nat, n: nat)
    requires i <= j
    ensures ShiftRight(i, n) <= ShiftRight(j, n)
  {
    if n > 0 { ShiftMonotone(i, j, n - 1); }
  }

  lemma {:induction false} ShiftBound(x: nat, n: nat, m: nat)
    requires x < Pow2(n + m)
    ensures ShiftRight(x, n) < Pow2(m)
  {
    if n > 0 { ShiftBound(x, n - 1, m + 1); }
  }

  lemma NodeEnds(index: nat)
    ensures NodeOf(index, HISTORY_BITS) == index
    ensures index < U32_LIMIT ==> NodeOf(index, 0) == 0
  {
    assert Pow2(8) == 0x100;
    assert Pow2(16) == 0x100 * Pow2(8);
    assert Pow2(24) == 0x100 * Pow2(16);
    assert Pow2(32) == 0x100 * Pow2(24);
    if index < U32_LIMIT { ShiftBound(index, HISTORY_BITS, 0); }
  }

  // ---------------------------------------------------------------------------------------------
  // Specification: the tree of a sequence of headers
  // ---------------------------------------------------------------------------------------------

  function LeafPreimage(headers: seq<Root>, index: nat): Preimage {
    if index < |headers| then HistoryLeaf(index, headers[index]) else EmptyHistoryLeaf
  }

  /** Full recomputation of node q at the given depth. */
  function Tree(D: Digester, headers: seq<Root>, depth: nat, q: nat): Root
    requires depth <= HISTORY_BITS
    decreases HISTORY_BITS - depth, headers
  {
    if depth == HISTORY_BITS then D(LeafPreimage(headers, q))
    else D(HistoryNode(depth, Tree(D, headers, depth + 1, 2 * q), Tree(D, headers, depth + 1, 2 * q + 1)))
  }

  function HistoryCommitmentOf(D: Digester, headers: seq<Root>): HistoryCommitment {
    HistoryCommitment(D(HistoryRoot(|headers|, Tree(D, headers, 0, 0))), |headers|)
  }

  function EmptyHistoryAt(D: Digester, depth: nat): Root
    requires depth <= HISTORY_BITS
    decreases HISTORY_BITS - depth
  {
    if depth == HISTORY_BITS then D(EmptyHistoryLeaf)
    else D(HistoryNode(depth, EmptyHistoryAt(D, depth + 1), EmptyHistoryAt(D, depth + 1)))
  }

  lemma {:induction false} TreeEmpty(D: Digester, headers: seq<Root>, depth: nat, q: nat)
    requires depth <= HISTORY_BITS
    requires forall i | 0 <= i < |headers| :: NodeOf(i, depth) != q
    ensures Tree(D, headers, depth, q) == EmptyHistoryAt(D, depth)
    decreases HISTORY_BITS - depth
  {
    if depth == HISTORY_BITS {
      if q < |headers| { NodeEnds(q); }
    } else {
      var next := depth + 1;
      forall i | 0 <= i < |headers| ensures NodeOf(i, next) != 2 * q && NodeOf(i, next) != 2 * q + 1 {
        assert NodeOf(i, depth) != q;
        NodeStep(i, depth);
      }
      TreeEmpty(D, headers, depth + 1, 2 * q);
      TreeEmpty(D, headers, depth + 1, 2 * q + 1);
    }
  }

  /** Appending a header changes no node off the new leaf's path. */
  lemma {:induction false} TreeFrame(D: Digester, headers: seq<Root>, header: Root, depth: nat, q: nat)
    requires depth <= HISTORY_BITS && NodeOf(|headers|, depth) != q
    ensures Tree(D, headers + [header], depth, q) == Tree(D, headers, depth, q)
    decreases HISTORY_BITS - depth
  {
    if depth == HISTORY_BITS {
      NodeEnds(|headers|);
    } else {
      NodeStep(|headers|, depth);
      TreeFrame(D, headers, header, depth + 1, 2 * q);
      TreeFrame(D, headers, header, depth + 1, 2 * q + 1);
    }
  }

  // ---------------------------------------------------------------------------------------------
  // The commitment side
  // ---------------------------------------------------------------------------------------------

  function HistoryFoldAt(D: Digester, index: nat, leaf: Root, siblings: seq<Root>, depth: nat): Root
    requires |siblings| == HISTORY_BITS && depth <= HISTORY_BITS
    decreases HISTORY_BITS - depth, siblings, 1
  {
    if depth == HISTORY_BITS then leaf else D(HistoryFoldNode(D, index, leaf, siblings, depth))
  }

  function HistoryFoldNode(D: Digester, index: nat, leaf: Root, siblings: seq<Root>, depth: nat): Preimage
    requires |siblings| == HISTORY_BITS && depth < HISTORY_BITS
    decreases HISTORY_BITS - depth, siblings, 0
  {
    var below := HistoryFoldAt(D, index, leaf, siblings, depth + 1);
    if IndexBit(index, depth) then HistoryNode(depth, siblings[depth], below)
    else HistoryNode(depth, below, siblings[depth])
  }

  method FoldHistory(D: Digester, index: nat, leaf: Root, siblings: seq<Root>) returns (r: Root)
    requires |siblings| == HISTORY_BITS
    ensures r == HistoryFoldAt(D, index, leaf, siblings, 0)
  {
    r := leaf;
    for depth := HISTORY_BITS downto 0
      invariant r == HistoryFoldAt(D, index, leaf, siblings, depth)
    {
      r := if IndexBit(index, depth) then D(HistoryNode(depth, siblings[depth], r))
           else D(HistoryNode(depth, r, siblings[depth]));
    }
  }

  function AppendSpec(
    D: Digester, c: HistoryCommitment, header: Root, absence: HistoryProof): Result<HistoryCommitment>
  {
    if header == ZERO_ROOT || absence.index != c.count || absence.header != ZERO_ROOT
      || |absence.siblings| != HISTORY_BITS
    then Err(Bounds)
    else if D(HistoryRoot(c.count, HistoryFoldAt(D, c.count, D(EmptyHistoryLeaf), absence.siblings, 0))) != c.root
    then Err(WrongRoot)
    else if c.count + 1 >= U32_LIMIT then Err(Overflow)
    else
      var tree := HistoryFoldAt(D, c.count, D(HistoryLeaf(c.count, header)), absence.siblings, 0);
      Ok(HistoryCommitment(D(HistoryRoot(c.count + 1, tree)), c.count + 1))
  }

  function VerifySpec(D: Digester, c: HistoryCommitment, proof: HistoryProof): Result<()> {
    if proof.index >= c.count || proof.header == ZERO_ROOT || |proof.siblings| != HISTORY_BITS then Err(Bounds)
    else
      var tree := HistoryFoldAt(D, proof.index, D(HistoryLeaf(proof.index, proof.header)), proof.siblings, 0);
      if D(HistoryRoot(c.count, tree)) != c.root then Err(WrongRoot) else Ok(())
  }

  method CommitmentAppend(D: Digester, c: HistoryCommitment, header: Root, absence: HistoryProof)
    returns (r: Result<HistoryCommitment>)
    ensures r == AppendSpec(D, c, header, absence)
  {
    if header == ZERO_ROOT || absence.index != c.count || absence.header != ZERO_ROOT
      || |absence.siblings| != HISTORY_BITS {
      return Err(Bounds);
    }
    var emptyTree := FoldHistory(D, c.count, D(EmptyHistoryLeaf), absence.siblings);
    if D(HistoryRoot(c.count, emptyTree)) != c.root {
      return Err(WrongRoot);
    }
    if c.count + 1 >= U32_LIMIT {
      return Err(Overflow);
    }
    var tree := FoldHistory(D, c.count, D(HistoryLeaf(c.count, header)), absence.siblings);
    return Ok(HistoryCommitment(D(HistoryRoot(c.count + 1, tree)), c.count + 1));
  }

  method CommitmentVerify(D: Digester, c: HistoryCommitment, proof: HistoryProof) returns (r: Result<()>)
    ensures r == VerifySpec(D, c, proof)
  {
    if proof.index >= c.count || proof.header == ZERO_ROOT || |proof.siblings| != HISTORY_BITS {
      return Err(Bounds);
    }
    var tree := FoldHistory(D, proof.index, D(HistoryLeaf(proof.index, proof.header)), proof.siblings);
    return if D(HistoryRoot(c.count, tree)) != c.root then Err(WrongRoot) else Ok(());
  }

  // ---------------------------------------------------------------------------------------------
  // Completeness
  // ---------------------------------------------------------------------------------------------

  function SiblingNode(index: nat, depth: nat): nat
    requires depth < HISTORY_BITS
  {
    2 * NodeOf(index, depth) + if IndexBit(index, depth) then 0 else 1
  }

  /** The siblings of an index's path in the tree of the given headers. */
  function PathSiblings(D: Digester, headers: seq<Root>, index: nat): (s: seq<Root>)
    ensures |s| == HISTORY_BITS
  {
    seq(HISTORY_BITS,
      depth requires 0 <= depth < HISTORY_BITS => Tree(D, headers, depth + 1, SiblingNode(index, depth)))
  }

  /** Folding a leaf of headers' up the siblings of headers gives the nodes of headers' on the path,
      when the two differ at most in an entry appended at the index. */
  lemma {:induction false} HistoryFoldHonest(
    D: Digester, headers: seq<Root>, headers': seq<Root>, index: nat, depth: nat)
    requires depth <= HISTORY_BITS
    requires headers' == headers
             || (index == |headers| && |headers'| == index + 1 && headers' == headers + [headers'[index]])
    ensures HistoryFoldAt(D, index, D(LeafPreimage(headers', index)), PathSiblings(D, headers, index), depth)
         == Tree(D, headers', depth, NodeOf(index, depth))
    decreases HISTORY_BITS - depth
  {
    if depth == HISTORY_BITS {
      NodeEnds(index);
    } else {
      HistoryFoldHonest(D, headers, headers', index, depth + 1);
      NodeStep(index, depth);
      if headers' != headers {
        TreeFrame(D, headers, headers'[index], depth + 1, SiblingNode(index, depth));
      }
    }
  }

  /** The generated absence witness lets the root-only side append and agree with recomputation. */
  lemma AbsenceWitnessAccepted(D: Digester, headers: seq<Root>, header: Root)
    requires header != ZERO_ROOT && |headers| + 1 < U32_LIMIT
    ensures AppendSpec(D, HistoryCommitmentOf(D, headers), header,
                       HistoryProof(|headers|, ZERO_ROOT, PathSiblings(D, headers, |headers|)))
         == Ok(HistoryCommitmentOf(D, headers + [header]))
  {
    NodeEnds(|headers|);
    HistoryFoldHonest(D, headers, headers, |headers|, 0);
    HistoryFoldHonest(D, headers, headers + [header], |headers|, 0);
  }

  /** Every generated proof of an archived header verifies. */
  lemma ArchivedProofAccepted(D: Digester, headers: seq<Root>, index: nat)
    requires index < |headers| < U32_LIMIT && headers[index] != ZERO_ROOT
    ensures VerifySpec(D, HistoryCommitmentOf(D, headers),
                       HistoryProof(index, headers[index], PathSiblings(D, headers, index))) == Ok(())
  {
    NodeEnds(index);
    HistoryFoldHonest(D, headers, headers, index, 0);
  }

  // ---------------------------------------------------------------------------------------------
  // Soundness
  // ---------------------------------------------------------------------------------------------

  function HistoryPathNode(D: Digester, headers: seq<Root>, index: nat, depth: nat): Preimage
    requires depth < HISTORY_BITS
  {
    var q := NodeOf(index, depth);
    HistoryNode(depth, Tree(D, headers, depth + 1, 2 * q), Tree(D, headers, depth + 1, 2 * q + 1))
  }

  ghost predicate HistoryLevelSeparates(
    D: Digester, headers: seq<Root>, index: nat, leaf: Preimage, siblings: seq<Root>, depth: nat)
    requires |siblings| == HISTORY_BITS && depth < HISTORY_BITS
  {
    var mine := HistoryFoldNode(D, index, D(leaf), siblings, depth);
    var theirs := HistoryPathNode(D, headers, index, depth);
    D(mine) == D(theirs) ==> mine == theirs
  }

  /** The hash has no collision between a check of the given leaf and siblings and the tree's own
      path to the index: one pair of preimages at each of the 34 levels. */
  ghost predicate HistoryPathSeparates(D: Digester, headers: seq<Root>, index: nat, leaf: Preimage, siblings: seq<Root>)
    requires |siblings| == HISTORY_BITS
  {
    var mine := HistoryFoldAt(D, index, D(leaf), siblings, 0);
    var theirs := Tree(D, headers, 0, 0);
    && (forall depth | 0 <= depth < HISTORY_BITS :: HistoryLevelSeparates(D, headers, index, leaf, siblings, depth))
    && (D(leaf) == D(LeafPreimage(headers, index)) ==> leaf == LeafPreimage(headers, index))
    && (D(HistoryRoot(|headers|, mine)) == D(HistoryRoot(|headers|, theirs)) ==> mine == theirs)
  }

  /** Every preimage hashed on the path to the index, and by the fold that checks a proof for it. */
  ghost function ProofTranscript(
    D: Digester, headers: seq<Root>, index: nat, leaf: Preimage, siblings: seq<Root>): set<Preimage>
    requires |siblings| == HISTORY_BITS
  {
    (set depth | 0 <= depth < HISTORY_BITS :: HistoryPathNode(D, headers, index, depth))
    + (set depth | 0 <= depth < HISTORY_BITS :: HistoryFoldNode(D, index, D(leaf), siblings, depth))
    + {leaf, LeafPreimage(headers, index)}
    + {HistoryRoot(|headers|, Tree(D, headers, 0, 0))}
    + {HistoryRoot(|headers|, HistoryFoldAt(D, index, D(leaf), siblings, 0))}
  }

  lemma ProofTranscriptSeparates(D: Digester, headers: seq<Root>, index: nat, leaf: Preimage, siblings: seq<Root>)
    requires |siblings| == HISTORY_BITS
    requires CollisionFree(D, ProofTranscript(D, headers, index, leaf, siblings))
    ensures HistoryPathSeparates(D, headers, index, leaf, siblings)
  {
    var T := ProofTranscript(D, headers, index, leaf, siblings);
    assert leaf in T && LeafPreimage(headers, index) in T;
    forall depth | 0 <= depth < HISTORY_BITS ensures HistoryLevelSeparates(D, headers, index, leaf, siblings, depth) {
      var mine := HistoryFoldNode(D, index, D(leaf), siblings, depth);
      var theirs := HistoryPathNode(D, headers, index, depth);
      assert mine in T && theirs in T;
    }
  }

  lemma {:induction false} HistoryFoldDeterminesPath(
    D: Digester, headers: seq<Root>, index: nat, leaf: Preimage, siblings: seq<Root>, depth: nat)
    requires |siblings| == HISTORY_BITS && depth <= HISTORY_BITS
    requires HistoryPathSeparates(D, headers, index, leaf, siblings)
    requires HistoryFoldAt(D, index, D(leaf), siblings, depth) == Tree(D, headers, depth, NodeOf(index, depth))
    ensures leaf == LeafPreimage(headers, index)
    ensures forall i | depth <= i < HISTORY_BITS :: siblings[i] == PathSiblings(D, headers, index)[i]
    decreases HISTORY_BITS - depth
  {
    if depth == HISTORY_BITS {
      NodeEnds(index);
    } else {
      assert HistoryLevelSeparates(D, headers, index, leaf, siblings, depth);
      assert HistoryFoldNode(D, index, D(leaf), siblings, depth) == HistoryPathNode(D, headers, index, depth);
      NodeStep(index, depth);
      HistoryFoldDeterminesPath(D, headers, index, leaf, siblings, depth + 1);
    }
  }

  /** An accepted proof, whatever its siblings, names exactly the header archived at its index. */
  lemma AcceptedProofIsSound(D: Digester, headers: seq<Root>, proof: HistoryProof)
    requires |headers| < U32_LIMIT
    requires VerifySpec(D, HistoryCommitmentOf(D, headers), proof).Ok?
    requires HistoryPathSeparates(D, headers, proof.index, HistoryLeaf(proof.index, proof.header), proof.siblings)
    ensures proof.index < |headers| && proof.header == headers[proof.index]
    ensures proof.siblings == PathSiblings(D, headers, proof.index)
  {
    NodeEnds(proof.index);
    HistoryFoldDeterminesPath(D, headers, proof.index, HistoryLeaf(proof.index, proof.header), proof.siblings, 0);
  }

  /** An accepted append, whatever its witness, moves to the commitment of one more header. */
  lemma AcceptedAppendIsSound(D: Digester, headers: seq<Root>, header: Root, absence: HistoryProof)
    requires AppendSpec(D, HistoryCommitmentOf(D, headers), header, absence).Ok?
    requires HistoryPathSeparates(D, headers, |headers|, EmptyHistoryLeaf, absence.siblings)
    ensures AppendSpec(D, HistoryCommitmentOf(D, headers), header, absence).value
         == HistoryCommitmentOf(D, headers + [header])
    ensures header != ZERO_ROOT && |headers| + 1 < U32_LIMIT
  {
    var n := |headers|;
    NodeEnds(n);
    HistoryFoldDeterminesPath(D, headers, n, EmptyHistoryLeaf, absence.siblings, 0);
    assert absence.siblings == PathSiblings(D, headers, n);
    HistoryFoldHonest(D, headers, headers + [header], n, 0);
  }

  /** The archive entry that a proof is for. */
  predicate ProofFits(headers: seq<Root>, proof: HistoryProof) {
    proof.index < |headers| && proof.header != ZERO_ROOT && |proof.siblings| == 32
  }

  /** Against the commitment of an archive, a proof verifies exactly when it has the header archived at its
      index and that index's own siblings. */
  lemma VerifyAnswers(D: Digester, headers: seq<Root>, proof: HistoryProof)
    requires |headers| < U32_LIMIT
    requires |proof.siblings| == HISTORY_BITS ==>
               HistoryPathSeparates(D, headers, proof.index, HistoryLeaf(proof.index, proof.header), proof.siblings)
    ensures var r := VerifySpec(D, HistoryCommitmentOf(D, headers), proof);
            var honest := && ProofFits(headers, proof) && proof.header == headers[proof.index]
                          && proof.siblings == PathSiblings(D, headers, proof.index);
            && (r == Err(Bounds) <==> !ProofFits(headers, proof))
            && (r == Err(WrongRoot) <==> ProofFits(headers, proof) && !honest)
            && (r == Ok(()) <==> honest)
  {
    if ProofFits(headers, proof) {
      if proof.header == headers[proof.index] && proof.siblings == PathSiblings(D, headers, proof.index) {
        ArchivedProofAccepted(D, headers, proof.index);
      } else if VerifySpec(D, HistoryCommitmentOf(D, headers), proof).Ok? {
        AcceptedProofIsSound(D, headers, proof);
      }
    }
  }

  /** The header is not zero, and the witness is for an absent header in the first free place. */
  predicate AbsenceFits(headers: seq<Root>, header: Root, absence: HistoryProof) {
    && header != ZERO_ROOT && absence.index == |headers| && absence.header == ZERO_ROOT
    && |absence.siblings| == 32
  }

  /** Against the commitment of an archive, an append is accepted exactly when the witness has the first
      free place's own siblings and the index does not leave its width. */
  lemma AppendAnswers(D: Digester, headers: seq<Root>, header: Root, absence: HistoryProof)
    requires |headers| < U32_LIMIT
    requires |absence.siblings| == HISTORY_BITS ==>
               HistoryPathSeparates(D, headers, |headers|, EmptyHistoryLeaf, absence.siblings)
    ensures var r := AppendSpec(D, HistoryCommitmentOf(D, headers), header, absence);
            var honest := absence.siblings == PathSiblings(D, headers, |headers|);
            && (r == Err(Bounds) <==> !AbsenceFits(headers, header, absence))
            && (r == Err(WrongRoot) <==> AbsenceFits(headers, header, absence) && !honest)
            && (r == Err(Overflow) <==>
                  AbsenceFits(headers, header, absence) && honest && |headers| == U32_LIMIT - 1)
            && (r.Ok? <==> AbsenceFits(headers, header, absence) && honest && |headers| < U32_LIMIT - 1)
            && (r.Ok? ==> r.value == HistoryCommitmentOf(D, headers + [header]))
  {
    var n := |headers|;
    NodeEnds(n);
    if AbsenceFits(headers, header, absence) {
      if absence.siblings == PathSiblings(D, headers, n) {
        HistoryFoldHonest(D, headers, headers, n, 0);
        HistoryFoldHonest(D, headers, headers + [header], n, 0);
      } else if AppendSpec(D, HistoryCommitmentOf(D, headers), header, absence) != Err(WrongRoot) {
        HistoryFoldDeterminesPath(D, headers, n, EmptyHistoryLeaf, absence.siblings, 0);
      }
    }
  }

  // ---------------------------------------------------------------------------------------------
  // Runs of the root-only side
  // ---------------------------------------------------------------------------------------------

  datatype Append = Append(header: Root, absence: HistoryProof)

  function HistoryRun(D: Digester, steps: seq<Append>): Result<HistoryCommitment> {
    if steps == [] then Ok(HistoryCommitmentOf(D, []))
    else
      var before, last := HistoryRun(D, steps[..|steps| - 1]), steps[|steps| - 1];
      if before.Ok? then AppendSpec(D, before.value, last.header, last.absence) else before
  }

  function HeadersOf(steps: seq<Append>): (headers: seq<Root>)
    ensures |headers| == |steps|
    ensures forall i | 0 <= i < |steps| :: headers[i] == steps[i].header
  {
    if steps == [] then [] else HeadersOf(steps[..|steps| - 1]) + [steps[|steps| - 1].header]
  }

  ghost predicate HistoryRunSeparates(D: Digester, steps: seq<Append>) {
    steps != [] ==>
      var earlier, last := steps[..|steps| - 1], steps[|steps| - 1];
      && HistoryRunSeparates(D, earlier)
      && (|last.absence.siblings| == HISTORY_BITS ==>
            HistoryPathSeparates(D, HeadersOf(earlier), |earlier|, EmptyHistoryLeaf, last.absence.siblings))
  }

  /** After every accepted run the root-only side holds the commitment of the headers appended. */
  lemma {:induction false} HistoryRunIsSound(D: Digester, steps: seq<Append>)
    requires HistoryRun(D, steps).Ok? && HistoryRunSeparates(D, steps)
    ensures HistoryRun(D, steps).value == HistoryCommitmentOf(D, HeadersOf(steps))
    ensures |steps| < U32_LIMIT
  {
    if steps != [] {
      var earlier, last := steps[..|steps| - 1], steps[|steps| - 1];
      HistoryRunIsSound(D, earlier);
      AcceptedAppendIsSound(D, HeadersOf(earlier), last.header, last.absence);
    }
  }

  /** What an auditor holding only the last commitment of a run learns from an accepted proof. */
  lemma RunThenProof(D: Digester, steps: seq<Append>, proof: HistoryProof)
    requires HistoryRun(D, steps).Ok? && HistoryRunSeparates(D, steps)
    requires VerifySpec(D, HistoryRun(D, steps).value, proof).Ok?
    requires HistoryPathSeparates(D, HeadersOf(steps), proof.index, HistoryLeaf(proof.index, proof.header),
             proof.siblings)
    ensures proof.index < |steps| && proof.header == steps[proof.index].header
  {
    HistoryRunIsSound(D, steps);
    AcceptedProofIsSound(D, HeadersOf(steps), proof);
  }
}
