/** The 384-level sparse Merkle set: the reference side that holds every key and a cache of nodes,
and the commitment side that holds a root and a count and advances on witnesses. */
module SparseSet {
  import opened Keys
  import opened Digests
  import opened Sequences
  import opened Widths

  datatype AccumulatorError = Bounds | Duplicate | WrongRoot | WrongKey | Overflow

  datatype Result<+T> = Ok(value: T) | Err(error: AccumulatorError)

  datatype SetCommitment = SetCommitment(domain: Domain, root: Root, count: nat)

  /** Siblings in root-to-leaf order. */
  datatype NonMembershipWitness = NonMembershipWitness(key: Root, siblings: seq<Root>)

  // ---------------------------------------------------------------------------------------------
  // Specification: the tree of a set of keys, over bit sequences
  // ---------------------------------------------------------------------------------------------

  function LeafDigest(D: Digester, domain: Domain, keys: set<Root>, key: Root): Root {
    if key in keys then D(SetLeaf(domain, key)) else D(EmptySetLeaf(domain))
  }

  /** Full recomputation of the node at bit prefix p. */
  function Subtree(D: Digester, domain: Domain, keys: set<Root>, p: seq<bool>): Root
    requires |p| <= KEY_BITS
    decreases KEY_BITS - |p|, keys
  {
    if |p| == KEY_BITS then LeafDigest(D, domain, keys, KeyOfBits(p))
    else D(SetNode(domain, |p|, Subtree(D, domain, keys, p + [false]), Subtree(D, domain, keys, p + [true])))
  }

  /** The commitment of a set of keys: it depends on nothing but the domain and the keys. */
  function CommitmentOf(D: Digester, domain: Domain, keys: set<Root>): SetCommitment {
    SetCommitment(domain, D(SetRoot(domain, |keys|, Subtree(D, domain, keys, []))), |keys|)
  }

  /** Digest of an empty subtree whose root is at the given depth. */
  function EmptyAt(D: Digester, domain: Domain, depth: nat): Root
    requires depth <= KEY_BITS
    decreases KEY_BITS - depth, domain
  {
    if depth == KEY_BITS then D(EmptySetLeaf(domain))
    else D(SetNode(domain, depth, EmptyAt(D, domain, depth + 1), EmptyAt(D, domain, depth + 1)))
  }

  /** Some key lies below bit prefix p. */
  ghost predicate Occupied(keys: set<Root>, p: seq<bool>)
    requires |p| <= KEY_BITS
  {
    exists k :: k in keys && KeyBits(k)[..|p|] == p
  }

  lemma {:induction false} SubtreeEmpty(D: Digester, domain: Domain, keys: set<Root>, p: seq<bool>)
    requires |p| <= KEY_BITS && !Occupied(keys, p)
    ensures Subtree(D, domain, keys, p) == EmptyAt(D, domain, |p|)
    decreases KEY_BITS - |p|
  {
    if |p| == KEY_BITS {
      assert KeyBits(KeyOfBits(p))[..|p|] == p;
    } else {
      forall b: bool ensures !Occupied(keys, p + [b]) {
        forall k | k in keys ensures KeyBits(k)[..|p| + 1] != p + [b] {
          assert KeyBits(k)[..|p|] == KeyBits(k)[..|p| + 1][..|p|];
          assert (p + [b])[..|p|] == p;
        }
      }
      SubtreeEmpty(D, domain, keys, p + [false]);
      SubtreeEmpty(D, domain, keys, p + [true]);
    }
  }

  /** Adding a key changes no node off its path. */
  lemma {:induction false} SubtreeFrame(D: Digester, domain: Domain, keys: set<Root>, key: Root, p: seq<bool>)
    requires |p| <= KEY_BITS && KeyBits(key)[..|p|] != p
    ensures Subtree(D, domain, keys + {key}, p) == Subtree(D, domain, keys, p)
    decreases KEY_BITS - |p|
  {
    if |p| == KEY_BITS {
      assert KeyBits(key)[..|p|] == KeyBits(key);
    } else {
      assert KeyBits(key)[..|p|] == KeyBits(key)[..|p| + 1][..|p|];
      assert (p + [false])[..|p|] == p && (p + [true])[..|p|] == p;
      SubtreeFrame(D, domain, keys, key, p + [false]);
      SubtreeFrame(D, domain, keys, key, p + [true]);
    }
  }

  // ---------------------------------------------------------------------------------------------
  // The commitment side
  // ---------------------------------------------------------------------------------------------

  /** The value the fold holds when it has climbed from the leaf to the given depth. */
  function FoldAt(D: Digester, domain: Domain, bits: seq<bool>, leaf: Root, siblings: seq<Root>, depth: nat): Root
    requires |bits| == KEY_BITS && |siblings| == KEY_BITS && depth <= KEY_BITS
    decreases KEY_BITS - depth, siblings, 1
  {
    if depth == KEY_BITS then leaf else D(FoldNode(D, domain, bits, leaf, siblings, depth))
  }

  /** The node preimage the fold hashes at the given depth. */
  function FoldNode(D: Digester, domain: Domain, bits: seq<bool>, leaf: Root, siblings: seq<Root>, depth: nat): Preimage
    requires |bits| == KEY_BITS && |siblings| == KEY_BITS && depth < KEY_BITS
    decreases KEY_BITS - depth, siblings, 0
  {
    var below := FoldAt(D, domain, bits, leaf, siblings, depth + 1);
    if bits[depth] then SetNode(domain, depth, siblings[depth], below)
    else SetNode(domain, depth, below, siblings[depth])
  }

  method FoldKey(D: Digester, domain: Domain, key: Root, leaf: Root, siblings: seq<Root>) returns (r: Root)
    requires |siblings| == KEY_BITS
    ensures r == FoldAt(D, domain, KeyBits(key), leaf, siblings, 0)
  {
    r := leaf;
    for depth := KEY_BITS downto 0
      invariant r == FoldAt(D, domain, KeyBits(key), leaf, siblings, depth)
    {
      if KeyBit(key, depth) {
        r := D(SetNode(domain, depth, siblings[depth], r));
      } else {
        r := D(SetNode(domain, depth, r, siblings[depth]));
      }
    }
  }

  /** The transition of the root-only client. */
  function InsertSpec(D: Digester, c: SetCommitment, key: Root, w: NonMembershipWitness): Result<SetCommitment> {
    if key == ZERO_ROOT || w.key != key || |w.siblings| != KEY_BITS then Err(WrongKey)
    else
      var bits := KeyBits(key);
      var emptyTree := FoldAt(D, c.domain, bits, D(EmptySetLeaf(c.domain)), w.siblings, 0);
      if D(SetRoot(c.domain, c.count, emptyTree)) != c.root then Err(WrongRoot)
      else if c.count + 1 >= U64_LIMIT then Err(Overflow)
      else
        var tree := FoldAt(D, c.domain, bits, D(SetLeaf(c.domain, key)), w.siblings, 0);
        Ok(SetCommitment(c.domain, D(SetRoot(c.domain, c.count + 1, tree)), c.count + 1))
  }

  method CommitmentInsert(D: Digester, c: SetCommitment, key: Root, w: NonMembershipWitness)
    returns (r: Result<SetCommitment>)
    ensures r == InsertSpec(D, c, key, w)
  {
    if key == ZERO_ROOT || w.key != key || |w.siblings| != KEY_BITS {
      return Err(WrongKey);
    }
    var emptyTree := FoldKey(D, c.domain, key, D(EmptySetLeaf(c.domain)), w.siblings);
    if D(SetRoot(c.domain, c.count, emptyTree)) != c.root {
      return Err(WrongRoot);
    }
    if c.count + 1 >= U64_LIMIT {
      return Err(Overflow);
    }
    var tree := FoldKey(D, c.domain, key, D(SetLeaf(c.domain, key)), w.siblings);
    return Ok(SetCommitment(c.domain, D(SetRoot(c.domain, c.count + 1, tree)), c.count + 1));
  }

  // ---------------------------------------------------------------------------------------------
  // Completeness: the honest witness
  // ---------------------------------------------------------------------------------------------

  function SiblingPrefix(bits: seq<bool>, depth: nat): (p: seq<bool>)
    requires |bits| == KEY_BITS && depth < KEY_BITS
    ensures |p| == depth + 1
  {
    bits[..depth] + [!bits[depth]]
  }

  /** The siblings of a key's path in the tree of the given set. */
  function HonestSiblings(D: Digester, domain: Domain, keys: set<Root>, key: Root): (s: seq<Root>)
    ensures |s| == KEY_BITS
  {
    seq(KEY_BITS, depth requires 0 <= depth < KEY_BITS =>
      Subtree(D, domain, keys, SiblingPrefix(KeyBits(key), depth)))
  }

  function HonestWitness(D: Digester, domain: Domain, keys: set<Root>, key: Root): NonMembershipWitness {
    NonMembershipWitness(key, HonestSiblings(D, domain, keys, key))
  }

  /** Folding the leaf of keys' up the siblings of keys gives every node of keys' on the path, when
      the two sets differ at most in the key of the path. */
  lemma {:induction false} FoldHonest(
    D: Digester, domain: Domain, keys: set<Root>, keys': set<Root>, key: Root, depth: nat)
    requires depth <= KEY_BITS && (keys' == keys || keys' == keys + {key})
    ensures FoldAt(D, domain, KeyBits(key), LeafDigest(D, domain, keys', key),
                   HonestSiblings(D, domain, keys, key), depth)
         == Subtree(D, domain, keys', KeyBits(key)[..depth])
    decreases KEY_BITS - depth
  {
    var bits := KeyBits(key);
    if depth == KEY_BITS {
      assert bits[..depth] == bits;
      KeyBitsInjective(KeyOfBits(bits), key);
    } else {
      FoldHonest(D, domain, keys, keys', key, depth + 1);
      var side := SiblingPrefix(bits, depth);
      assert bits[..depth + 1] == bits[..depth] + [bits[depth]];
      assert side[depth] != bits[..|side|][depth];
      SubtreeFrame(D, domain, keys, key, side);
    }
  }

  /** For every set and every absent non-zero key the honest witness is accepted, and the root-only
      client moves to the commitment of the larger set. */
  lemma HonestWitnessAccepted(D: Digester, domain: Domain, keys: set<Root>, key: Root)
    requires key !in keys && key != ZERO_ROOT && |keys| + 1 < U64_LIMIT
    ensures InsertSpec(D, CommitmentOf(D, domain, keys), key, HonestWitness(D, domain, keys, key))
         == Ok(CommitmentOf(D, domain, keys + {key}))
  {
    FoldHonest(D, domain, keys, keys, key, 0);
    FoldHonest(D, domain, keys, keys + {key}, key, 0);
    assert KeyBits(key)[..0] == [];
  }

  // ---------------------------------------------------------------------------------------------
  // Soundness: any accepted witness
  // ---------------------------------------------------------------------------------------------

  /** The node preimage of the tree of keys at the given depth of a key's path. */
  function PathNode(D: Digester, domain: Domain, keys: set<Root>, key: Root, depth: nat): Preimage
    requires depth < KEY_BITS
  {
    var p := KeyBits(key)[..depth];
    SetNode(domain, depth, Subtree(D, domain, keys, p + [false]), Subtree(D, domain, keys, p + [true]))
  }

  /** At one depth of the key's path, the preimage the fold hashes and the one the tree hashes are
      equal if their digests are. */
  ghost predicate LevelSeparates(
    D: Digester, domain: Domain, keys: set<Root>, key: Root, siblings: seq<Root>, depth: nat)
    requires |siblings| == KEY_BITS && depth < KEY_BITS
  {
    var mine := FoldNode(D, domain, KeyBits(key), D(EmptySetLeaf(domain)), siblings, depth);
    var theirs := PathNode(D, domain, keys, key, depth);
    D(mine) == D(theirs) ==> mine == theirs
  }

  ghost predicate RootSeparates(D: Digester, domain: Domain, keys: set<Root>, key: Root, siblings: seq<Root>)
    requires |siblings| == KEY_BITS
  {
    var mine := FoldAt(D, domain, KeyBits(key), D(EmptySetLeaf(domain)), siblings, 0);
    var theirs := Subtree(D, domain, keys, []);
    D(SetRoot(domain, |keys|, mine)) == D(SetRoot(domain, |keys|, theirs)) ==> mine == theirs
  }

  /** The hash has no collision between a check of the given siblings and the tree's own path:
      386 pairs of preimages, one at each level. */
  ghost predicate PathSeparates(D: Digester, domain: Domain, keys: set<Root>, key: Root, siblings: seq<Root>)
    requires |siblings| == KEY_BITS
  {
    && (forall depth | 0 <= depth < KEY_BITS :: LevelSeparates(D, domain, keys, key, siblings, depth))
    && D(EmptySetLeaf(domain)) != D(SetLeaf(domain, key))
    && RootSeparates(D, domain, keys, key, siblings)
  }

  /** Every preimage hashed on the path of a key in the tree of keys, and by the fold that checks a
      witness for that key. */
  ghost function InsertTranscript(
    D: Digester, domain: Domain, keys: set<Root>, key: Root, siblings: seq<Root>): set<Preimage>
    requires |siblings| == KEY_BITS
  {
    var bits, leaf := KeyBits(key), D(EmptySetLeaf(domain));
    (set depth | 0 <= depth < KEY_BITS :: PathNode(D, domain, keys, key, depth))
    + (set depth | 0 <= depth < KEY_BITS :: FoldNode(D, domain, bits, leaf, siblings, depth))
    + {EmptySetLeaf(domain), SetLeaf(domain, key)}
    + {SetRoot(domain, |keys|, Subtree(D, domain, keys, []))}
    + {SetRoot(domain, |keys|, FoldAt(D, domain, bits, leaf, siblings, 0))}
  }

  lemma TranscriptSeparates(D: Digester, domain: Domain, keys: set<Root>, key: Root, siblings: seq<Root>)
    requires |siblings| == KEY_BITS
    requires CollisionFree(D, InsertTranscript(D, domain, keys, key, siblings))
    ensures PathSeparates(D, domain, keys, key, siblings)
  {
    var T := InsertTranscript(D, domain, keys, key, siblings);
    assert EmptySetLeaf(domain) in T && SetLeaf(domain, key) in T;
    forall depth | 0 <= depth < KEY_BITS ensures LevelSeparates(D, domain, keys, key, siblings, depth) {
      var mine := FoldNode(D, domain, KeyBits(key), D(EmptySetLeaf(domain)), siblings, depth);
      var theirs := PathNode(D, domain, keys, key, depth);
      assert mine in T && theirs in T;
    }
  }

  /** A fold that meets the tree at some depth meets it one level down, with the tree's own sibling. */
  lemma FoldDeterminesLevel(D: Digester, domain: Domain, keys: set<Root>, key: Root, siblings: seq<Root>, depth: nat)
    requires |siblings| == KEY_BITS && depth < KEY_BITS
    requires LevelSeparates(D, domain, keys, key, siblings, depth)
    requires FoldAt(D, domain, KeyBits(key), D(EmptySetLeaf(domain)), siblings, depth)
          == Subtree(D, domain, keys, KeyBits(key)[..depth])
    ensures FoldAt(D, domain, KeyBits(key), D(EmptySetLeaf(domain)), siblings, depth + 1)
         == Subtree(D, domain, keys, KeyBits(key)[..depth + 1])
    ensures siblings[depth] == HonestSiblings(D, domain, keys, key)[depth]
  {
    var bits := KeyBits(key);
    assert FoldNode(D, domain, bits, D(EmptySetLeaf(domain)), siblings, depth) == PathNode(D, domain, keys, key, depth);
    assert bits[..depth + 1] == bits[..depth] + [bits[depth]];
  }

  lemma EmptyLeafMeansAbsent(D: Digester, domain: Domain, keys: set<Root>, key: Root, siblings: seq<Root>)
    requires |siblings| == KEY_BITS && PathSeparates(D, domain, keys, key, siblings)
    requires D(EmptySetLeaf(domain)) == Subtree(D, domain, keys, KeyBits(key)[..KEY_BITS])
    ensures key !in keys
  {
    var bits := KeyBits(key);
    assert bits[..KEY_BITS] == bits;
    KeyBitsInjective(KeyOfBits(bits), key);
    assert D(EmptySetLeaf(domain)) == LeafDigest(D, domain, keys, key);
  }

  /** So a fold that meets the tree at the root meets it all the way down. */
  lemma {:induction false} FoldDeterminesPath(
    D: Digester, domain: Domain, keys: set<Root>, key: Root, siblings: seq<Root>, depth: nat)
    requires |siblings| == KEY_BITS && depth <= KEY_BITS
    requires PathSeparates(D, domain, keys, key, siblings)
    requires FoldAt(D, domain, KeyBits(key), D(EmptySetLeaf(domain)), siblings, 0) == Subtree(D, domain, keys, [])
    ensures FoldAt(D, domain, KeyBits(key), D(EmptySetLeaf(domain)), siblings, depth)
         == Subtree(D, domain, keys, KeyBits(key)[..depth])
  {
    if depth == 0 {
      assert KeyBits(key)[..0] == [];
    } else {
      FoldDeterminesPath(D, domain, keys, key, siblings, depth - 1);
      assert LevelSeparates(D, domain, keys, key, siblings, depth - 1);
      FoldDeterminesLevel(D, domain, keys, key, siblings, depth - 1);
    }
  }

  /** Its siblings are the tree's own, and it ends at an empty leaf. */
  lemma MatchingFoldIsHonest(D: Digester, domain: Domain, keys: set<Root>, key: Root, siblings: seq<Root>)
    requires |siblings| == KEY_BITS
    requires PathSeparates(D, domain, keys, key, siblings)
    requires FoldAt(D, domain, KeyBits(key), D(EmptySetLeaf(domain)), siblings, 0) == Subtree(D, domain, keys, [])
    ensures key !in keys && siblings == HonestSiblings(D, domain, keys, key)
  {
    forall depth: nat | depth < KEY_BITS ensures siblings[depth] == HonestSiblings(D, domain, keys, key)[depth] {
      FoldDeterminesPath(D, domain, keys, key, siblings, depth);
      assert LevelSeparates(D, domain, keys, key, siblings, depth);
      FoldDeterminesLevel(D, domain, keys, key, siblings, depth);
    }
    FoldDeterminesPath(D, domain, keys, key, siblings, KEY_BITS);
    EmptyLeafMeansAbsent(D, domain, keys, key, siblings);
  }

  /** Folding the key's own leaf up the same siblings gives the tree with the key. */
  lemma MatchingFoldInserts(D: Digester, domain: Domain, keys: set<Root>, key: Root, siblings: seq<Root>)
    requires |siblings| == KEY_BITS
    requires PathSeparates(D, domain, keys, key, siblings)
    requires FoldAt(D, domain, KeyBits(key), D(EmptySetLeaf(domain)), siblings, 0) == Subtree(D, domain, keys, [])
    ensures key !in keys
    ensures FoldAt(D, domain, KeyBits(key), D(SetLeaf(domain, key)), siblings, 0)
            == Subtree(D, domain, keys + {key}, [])
  {
    MatchingFoldIsHonest(D, domain, keys, key, siblings);
    FoldHonest(D, domain, keys, keys + {key}, key, 0);
    assert KeyBits(key)[..0] == [];
  }

  /** Whatever its siblings, a witness accepted against the commitment of a set proves that the key
      is not in the set, and the client moves to the commitment of the set plus that key. */
  lemma AcceptedInsertIsSound(D: Digester, domain: Domain, keys: set<Root>, key: Root, w: NonMembershipWitness)
    requires InsertSpec(D, CommitmentOf(D, domain, keys), key, w).Ok?
    requires PathSeparates(D, domain, keys, key, w.siblings)
    ensures key !in keys && key != ZERO_ROOT && w == HonestWitness(D, domain, keys, key)
    ensures InsertSpec(D, CommitmentOf(D, domain, keys), key, w).value == CommitmentOf(D, domain, keys + {key})
  {
    MatchingFoldIsHonest(D, domain, keys, key, w.siblings);
    MatchingFoldInserts(D, domain, keys, key, w.siblings);
  }

  /** The witness is for the key, which is not zero, and has a sibling for every bit. */
  predicate WitnessFits(key: Root, w: NonMembershipWitness) {
    key != ZERO_ROOT && w.key == key && |w.siblings| == 384
  }

  /** Against the commitment of a set, each answer has its own condition: a witness that is not for the key,
      a key that is in the set or siblings that are not the tree's own, a count that is full. */
  lemma InsertAnswers(D: Digester, domain: Domain, keys: set<Root>, key: Root, w: NonMembershipWitness)
    requires |keys| < U64_LIMIT
    requires |w.siblings| == KEY_BITS ==> PathSeparates(D, domain, keys, key, w.siblings)
    ensures var r := InsertSpec(D, CommitmentOf(D, domain, keys), key, w);
            var honest := key !in keys && w.siblings == HonestSiblings(D, domain, keys, key);
            && (r == Err(WrongKey) <==> !WitnessFits(key, w))
            && (r == Err(WrongRoot) <==> WitnessFits(key, w) && !honest)
            && (r == Err(Overflow) <==> WitnessFits(key, w) && honest && |keys| == U64_LIMIT - 1)
            && (r.Ok? <==> WitnessFits(key, w) && honest && |keys| < U64_LIMIT - 1)
            && (r.Ok? ==> r.value == CommitmentOf(D, domain, keys + {key}))
  {
    if WitnessFits(key, w) {
      if key !in keys && w.siblings == HonestSiblings(D, domain, keys, key) {
        FoldHonest(D, domain, keys, keys, key, 0);
        assert KeyBits(key)[..0] == [];
        MatchingFoldInserts(D, domain, keys, key, w.siblings);
      } else if InsertSpec(D, CommitmentOf(D, domain, keys), key, w) != Err(WrongRoot) {
        MatchingFoldIsHonest(D, domain, keys, key, w.siblings);
      }
    }
  }

  /** A key already in the set is never accepted again, with any witness. */
  lemma ReplayRejected(D: Digester, domain: Domain, keys: set<Root>, key: Root, w: NonMembershipWitness)
    requires key in keys && |w.siblings| == KEY_BITS
    requires PathSeparates(D, domain, keys, key, w.siblings)
    ensures InsertSpec(D, CommitmentOf(D, domain, keys), key, w).Err?
  {
    if InsertSpec(D, CommitmentOf(D, domain, keys), key, w).Ok? {
      AcceptedInsertIsSound(D, domain, keys, key, w);
    }
  }

  // ---------------------------------------------------------------------------------------------
  // Runs of the root-only client
  // ---------------------------------------------------------------------------------------------

  datatype Step = Step(key: Root, proof: NonMembershipWitness)

  /** The client's commitment after a sequence of insertions, or the first error. */
  function ClientRun(D: Digester, domain: Domain, steps: seq<Step>): Result<SetCommitment> {
    if steps == [] then Ok(CommitmentOf(D, domain, {}))
    else
      var before := ClientRun(D, domain, steps[..|steps| - 1]);
      var last := steps[|steps| - 1];
      if before.Ok? then InsertSpec(D, before.value, last.key, last.proof) else before
  }

  ghost function KeysOf(steps: seq<Step>): (keys: set<Root>)
    ensures forall s | s in steps :: s.key in keys
  {
    if steps == [] then {} else KeysOf(steps[..|steps| - 1]) + {steps[|steps| - 1].key}
  }

  /** No collision between any step's check and the tree of the keys inserted before it. */
  ghost predicate RunSeparates(D: Digester, domain: Domain, steps: seq<Step>) {
    steps != [] ==>
      var earlier, last := steps[..|steps| - 1], steps[|steps| - 1];
      && RunSeparates(D, domain, earlier)
      && (|last.proof.siblings| == KEY_BITS ==>
            PathSeparates(D, domain, KeysOf(earlier), last.key, last.proof.siblings))
  }

  /** In every accepted run, from any witnesses, no key is inserted twice, and the client holds the
      commitment of exactly the keys inserted, whatever their order. */
  lemma {:induction false} ClientRunIsSound(D: Digester, domain: Domain, steps: seq<Step>)
    requires ClientRun(D, domain, steps).Ok?
    requires RunSeparates(D, domain, steps)
    ensures forall i, j | 0 <= i < j < |steps| :: steps[i].key != steps[j].key
    ensures ZERO_ROOT !in KeysOf(steps)
    ensures ClientRun(D, domain, steps).value == CommitmentOf(D, domain, KeysOf(steps))
  {
    if steps != [] {
      var earlier, last := steps[..|steps| - 1], steps[|steps| - 1];
      ClientRunIsSound(D, domain, earlier);
      AcceptedInsertIsSound(D, domain, KeysOf(earlier), last.key, last.proof);
      assert forall i | 0 <= i < |earlier| :: steps[i] == earlier[i];
    }
  }

  /** Two accepted runs over the same keys end in the same commitment. */
  lemma OrderIndependent(D: Digester, domain: Domain, a: seq<Step>, b: seq<Step>)
    requires ClientRun(D, domain, a).Ok? && ClientRun(D, domain, b).Ok?
    requires RunSeparates(D, domain, a) && RunSeparates(D, domain, b)
    requires KeysOf(a) == KeysOf(b)
    ensures ClientRun(D, domain, a) == ClientRun(D, domain, b)
  {
    ClientRunIsSound(D, domain, a);
    ClientRunIsSound(D, domain, b);
  }

  function Members(keys: seq<Root>): set<Root> {
    set k | k in keys
  }

  /** The insertions of the given keys with the witnesses that the reference set generates. */
  function HonestSteps(D: Digester, domain: Domain, keys: seq<Root>): (steps: seq<Step>)
    ensures |steps| == |keys|
  {
    if keys == [] then []
    else
      var earlier, last := keys[..|keys| - 1], keys[|keys| - 1];
      HonestSteps(D, domain, earlier) + [Step(last, HonestWitness(D, domain, Members(earlier), last))]
  }

  lemma MembersSnoc(earlier: seq<Root>, last: Root)
    ensures Members(earlier + [last]) == Members(earlier) + {last}
  {}

  lemma {:induction false} DistinctCount(keys: seq<Root>)
    ensures |Members(keys)| <= |keys|
  {
    if keys != [] {
      var earlier, last := keys[..|keys| - 1], keys[|keys| - 1];
      DistinctCount(earlier);
      assert keys == earlier + [last];
      MembersSnoc(earlier, last);
    }
  }

  /** A run that has the commitment of some keys takes the honest insertion of another. */
  lemma HonestStepAccepted(D: Digester, domain: Domain, steps: seq<Step>, keys: set<Root>, key: Root)
    requires ClientRun(D, domain, steps) == Ok(CommitmentOf(D, domain, keys))
    requires key !in keys && key != ZERO_ROOT && |keys| + 1 < U64_LIMIT
    ensures ClientRun(D, domain, steps + [Step(key, HonestWitness(D, domain, keys, key))])
            == Ok(CommitmentOf(D, domain, keys + {key}))
  {
    var more := steps + [Step(key, HonestWitness(D, domain, keys, key))];
    assert more[..|steps|] == steps;
    HonestWitnessAccepted(D, domain, keys, key);
  }

  lemma DistinctFront(earlier: seq<Root>, last: Root)
    requires Distinct(earlier + [last])
    ensures Distinct(earlier) && last !in Members(earlier)
  {
    var keys := earlier + [last];
    assert keys[|earlier|] == last;
    assert forall i | 0 <= i < |earlier| :: earlier[i] == keys[i];
  }

  lemma HonestStepsSnoc(D: Digester, domain: Domain, earlier: seq<Root>, last: Root)
    ensures HonestSteps(D, domain, earlier + [last])
         == HonestSteps(D, domain, earlier) + [Step(last, HonestWitness(D, domain, Members(earlier), last))]
  {
    assert (earlier + [last])[..|earlier|] == earlier;
  }

  /** Distinct non-zero keys can always be inserted, in any order, and the root-only client ends
      with the commitment of the key set. */
  lemma {:induction false} HonestRunAccepted(D: Digester, domain: Domain, keys: seq<Root>)
    requires Distinct(keys) && ZERO_ROOT !in keys && |keys| < U64_LIMIT
    ensures ClientRun(D, domain, HonestSteps(D, domain, keys)) == Ok(CommitmentOf(D, domain, Members(keys)))
  {
    if keys == [] {
      assert Members(keys) == {};
    } else {
      var earlier, last := keys[..|keys| - 1], keys[|keys| - 1];
      assert keys == earlier + [last];
      DistinctFront(earlier, last);
      HonestRunAccepted(D, domain, earlier);
      DistinctCount(earlier);
      HonestStepAccepted(D, domain, HonestSteps(D, domain, earlier), Members(earlier), last);
      HonestStepsSnoc(D, domain, earlier, last);
      MembersSnoc(earlier, last);
    }
  }
}
