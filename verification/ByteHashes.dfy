/** The soundness theorems over the byte hash: they need it to separate the finitely many byte strings
that the check in question hashes, and nothing else. That the tagged encodings of different preimages
differ is what carries this over to digests. */
module ByteHashes {
  import opened Keys
  import opened Digests
  import opened SparseSet
  import opened History
  import opened Widths

  /** The byte strings hashed for some preimages. */
  ghost function Encodings(inputs: set<Preimage>): set<Bytes> {
    set p | p in inputs && p.Fits() :: p.Encode()
  }

  // ---------------------------------------------------------------------------------------------
  // The set
  // ---------------------------------------------------------------------------------------------

  lemma InsertTranscriptFits(D: Digester, domain: Domain, keys: set<Root>, key: Root, siblings: seq<Root>)
    requires |siblings| == KEY_BITS && |keys| < U64_LIMIT
    ensures forall p :: p in InsertTranscript(D, domain, keys, key, siblings) ==> p.Fits()
  {}

  /** The hash separates the byte strings of one insertion check. */
  ghost predicate CheckSeparates(H: Hash, domain: Domain, keys: set<Root>, key: Root, siblings: seq<Root>)
    requires |siblings| == KEY_BITS
  {
    HashSeparates(H, Encodings(InsertTranscript(TaggedDigest(H), domain, keys, key, siblings)))
  }

  lemma CheckSeparatesPath(H: Hash, domain: Domain, keys: set<Root>, key: Root, siblings: seq<Root>)
    requires |siblings| == KEY_BITS && |keys| < U64_LIMIT && CheckSeparates(H, domain, keys, key, siblings)
    ensures PathSeparates(TaggedDigest(H), domain, keys, key, siblings)
  {
    var D := TaggedDigest(H);
    InsertTranscriptFits(D, domain, keys, key, siblings);
    TaggedDigestCollisionFree(H, InsertTranscript(D, domain, keys, key, siblings));
    TranscriptSeparates(D, domain, keys, key, siblings);
  }

  /** An accepted insertion proves the key absent and leads to the commitment of the larger set. */
  lemma HashedInsertIsSound(H: Hash, domain: Domain, keys: set<Root>, key: Root, w: NonMembershipWitness)
    requires InsertSpec(TaggedDigest(H), CommitmentOf(TaggedDigest(H), domain, keys), key, w).Ok?
    requires |w.siblings| == KEY_BITS && CheckSeparates(H, domain, keys, key, w.siblings)
    ensures key !in keys && key != ZERO_ROOT
    ensures InsertSpec(TaggedDigest(H), CommitmentOf(TaggedDigest(H), domain, keys), key, w)
         == Ok(CommitmentOf(TaggedDigest(H), domain, keys + {key}))
  {
    CheckSeparatesPath(H, domain, keys, key, w.siblings);
    AcceptedInsertIsSound(TaggedDigest(H), domain, keys, key, w);
  }

  /** The hash separates the byte strings of every check of the run, each on its own. */
  ghost predicate StepsSeparate(H: Hash, domain: Domain, steps: seq<Step>) {
    forall n | 0 <= n < |steps| && |steps[n].proof.siblings| == KEY_BITS ::
      CheckSeparates(H, domain, KeysOf(steps[..n]), steps[n].key, steps[n].proof.siblings)
  }

  /** After an accepted run, the next check is one of a set with fewer than 2^64 keys. */
  lemma NextSeparates(H: Hash, domain: Domain, earlier: seq<Step>, last: Step)
    requires ClientRun(TaggedDigest(H), domain, earlier).Ok? && RunSeparates(TaggedDigest(H), domain, earlier)
    requires |last.proof.siblings| == KEY_BITS
    requires InsertSpec(TaggedDigest(H), ClientRun(TaggedDigest(H), domain, earlier).value, last.key, last.proof).Ok?
    requires CheckSeparates(H, domain, KeysOf(earlier), last.key, last.proof.siblings)
    ensures PathSeparates(TaggedDigest(H), domain, KeysOf(earlier), last.key, last.proof.siblings)
  {
    ClientRunIsSound(TaggedDigest(H), domain, earlier);
    CheckSeparatesPath(H, domain, KeysOf(earlier), last.key, last.proof.siblings);
  }

  lemma {:induction false} StepsSeparateRun(H: Hash, domain: Domain, steps: seq<Step>)
    requires ClientRun(TaggedDigest(H), domain, steps).Ok? && StepsSeparate(H, domain, steps)
    ensures RunSeparates(TaggedDigest(H), domain, steps)
  {
    if steps != [] {
      var n := |steps| - 1;
      PrefixSeparates(H, domain, steps, n);
      StepsSeparateRun(H, domain, steps[..n]);
      if |steps[n].proof.siblings| == KEY_BITS {
        NextSeparates(H, domain, steps[..n], steps[n]);
      }
    }
  }

  lemma PrefixSeparates(H: Hash, domain: Domain, steps: seq<Step>, n: nat)
    requires n <= |steps| && StepsSeparate(H, domain, steps)
    ensures StepsSeparate(H, domain, steps[..n])
  {
    forall k | 0 <= k < n && |steps[..n][k].proof.siblings| == KEY_BITS
      ensures CheckSeparates(H, domain, KeysOf(steps[..n][..k]), steps[..n][k].key, steps[..n][k].proof.siblings)
    {
      assert steps[..n][..k] == steps[..k] && steps[..n][k] == steps[k];
    }
  }

  /** Every accepted run, from any witnesses, inserts no key twice and ends in the commitment of exactly
      the keys inserted. */
  lemma HashedRunIsSound(H: Hash, domain: Domain, steps: seq<Step>)
    requires ClientRun(TaggedDigest(H), domain, steps).Ok? && StepsSeparate(H, domain, steps)
    ensures forall i, j | 0 <= i < j < |steps| :: steps[i].key != steps[j].key
    ensures ClientRun(TaggedDigest(H), domain, steps) == Ok(CommitmentOf(TaggedDigest(H), domain, KeysOf(steps)))
  {
    StepsSeparateRun(H, domain, steps);
    ClientRunIsSound(TaggedDigest(H), domain, steps);
  }

  // ---------------------------------------------------------------------------------------------
  // The history
  // ---------------------------------------------------------------------------------------------

  lemma ProofTranscriptFits(D: Digester, headers: seq<Root>, index: nat, leaf: Preimage, siblings: seq<Root>)
    requires |siblings| == HISTORY_BITS && |headers| < U32_LIMIT && leaf.Fits()
    ensures forall p :: p in ProofTranscript(D, headers, index, leaf, siblings) ==> p.Fits()
  {}

  /** The hash separates the byte strings of one check against the history. */
  ghost predicate ProofSeparates(H: Hash, headers: seq<Root>, index: nat, leaf: Preimage, siblings: seq<Root>)
    requires |siblings| == HISTORY_BITS
  {
    HashSeparates(H, Encodings(ProofTranscript(TaggedDigest(H), headers, index, leaf, siblings)))
  }

  lemma ProofSeparatesPath(H: Hash, headers: seq<Root>, index: nat, leaf: Preimage, siblings: seq<Root>)
    requires |siblings| == HISTORY_BITS && |headers| < U32_LIMIT && leaf.Fits()
    requires ProofSeparates(H, headers, index, leaf, siblings)
    ensures HistoryPathSeparates(TaggedDigest(H), headers, index, leaf, siblings)
  {
    var D := TaggedDigest(H);
    ProofTranscriptFits(D, headers, index, leaf, siblings);
    TaggedDigestCollisionFree(H, ProofTranscript(D, headers, index, leaf, siblings));
    ProofTranscriptSeparates(D, headers, index, leaf, siblings);
  }

  /** An accepted proof names exactly the header archived at its index. */
  lemma HashedProofIsSound(H: Hash, headers: seq<Root>, proof: HistoryProof)
    requires |headers| < U32_LIMIT && |proof.siblings| == HISTORY_BITS
    requires VerifySpec(TaggedDigest(H), HistoryCommitmentOf(TaggedDigest(H), headers), proof).Ok?
    requires ProofSeparates(H, headers, proof.index, HistoryLeaf(proof.index, proof.header), proof.siblings)
    ensures proof.index < |headers| && proof.header == headers[proof.index]
  {
    ProofSeparatesPath(H, headers, proof.index, HistoryLeaf(proof.index, proof.header), proof.siblings);
    AcceptedProofIsSound(TaggedDigest(H), headers, proof);
  }

  /** An accepted append moves to the commitment of one more header. */
  lemma HashedAppendIsSound(H: Hash, headers: seq<Root>, header: Root, absence: HistoryProof)
    requires |absence.siblings| == HISTORY_BITS
    requires AppendSpec(TaggedDigest(H), HistoryCommitmentOf(TaggedDigest(H), headers), header, absence).Ok?
    requires ProofSeparates(H, headers, |headers|, EmptyHistoryLeaf, absence.siblings)
    ensures AppendSpec(TaggedDigest(H), HistoryCommitmentOf(TaggedDigest(H), headers), header, absence)
         == Ok(HistoryCommitmentOf(TaggedDigest(H), headers + [header]))
    ensures |headers| + 1 < U32_LIMIT
  {
    ProofSeparatesPath(H, headers, |headers|, EmptyHistoryLeaf, absence.siblings);
    AcceptedAppendIsSound(TaggedDigest(H), headers, header, absence);
  }

  ghost predicate AppendsSeparate(H: Hash, steps: seq<Append>) {
    forall n | 0 <= n < |steps| && |steps[n].absence.siblings| == HISTORY_BITS ::
      ProofSeparates(H, HeadersOf(steps[..n]), n, EmptyHistoryLeaf, steps[n].absence.siblings)
  }

  lemma AppendsPrefix(H: Hash, steps: seq<Append>, n: nat)
    requires n <= |steps| && AppendsSeparate(H, steps)
    ensures AppendsSeparate(H, steps[..n])
  {
    forall k | 0 <= k < n && |steps[..n][k].absence.siblings| == HISTORY_BITS
      ensures ProofSeparates(H, HeadersOf(steps[..n][..k]), k, EmptyHistoryLeaf, steps[..n][k].absence.siblings)
    {
      assert steps[..n][..k] == steps[..k] && steps[..n][k] == steps[k];
    }
  }

  lemma {:induction false} AppendsSeparateRun(H: Hash, steps: seq<Append>)
    requires HistoryRun(TaggedDigest(H), steps).Ok? && AppendsSeparate(H, steps)
    ensures HistoryRunSeparates(TaggedDigest(H), steps)
  {
    if steps != [] {
      var n := |steps| - 1;
      AppendsPrefix(H, steps, n);
      AppendsSeparateRun(H, steps[..n]);
      HistoryRunIsSound(TaggedDigest(H), steps[..n]);
      if |steps[n].absence.siblings| == HISTORY_BITS {
        ProofSeparatesPath(H, HeadersOf(steps[..n]), n, EmptyHistoryLeaf, steps[n].absence.siblings);
      }
    }
  }

  /** After any accepted run of appends, an accepted proof names the header appended at its index. */
  lemma HashedRunThenProof(H: Hash, steps: seq<Append>, proof: HistoryProof)
    requires HistoryRun(TaggedDigest(H), steps).Ok? && AppendsSeparate(H, steps)
    requires VerifySpec(TaggedDigest(H), HistoryRun(TaggedDigest(H), steps).value, proof).Ok?
    requires |proof.siblings| == HISTORY_BITS
    requires ProofSeparates(H, HeadersOf(steps), proof.index, HistoryLeaf(proof.index, proof.header), proof.siblings)
    ensures proof.index < |steps| && proof.header == steps[proof.index].header
  {
    AppendsSeparateRun(H, steps);
    HistoryRunIsSound(TaggedDigest(H), steps);
    HashedProofIsSound(H, HeadersOf(steps), proof);
  }
}
