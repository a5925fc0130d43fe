/** The reference side of the sparse set: every key, and a cache of node digests that each insertion
updates along one path. */
module ReferenceSets {
  import opened Keys
  import opened Digests
  import opened SparseSet
  import opened Widths

  type NodeCache = map<(nat, Root), Root>

  /** Digests of the empty subtrees, from the leaf depth upwards. */
  method SetEmptyHashes(D: Digester, domain: Domain) returns (empty: seq<Root>)
    ensures |empty| == KEY_BITS + 1
    ensures forall d: nat {:trigger empty[d]} | d <= KEY_BITS :: empty[d] == EmptyAt(D, domain, d)
  {
    var hashes := new Root[KEY_BITS + 1](_ => ZERO_ROOT);
    hashes[KEY_BITS] := D(EmptySetLeaf(domain));
    for depth := KEY_BITS downto 0
      invariant forall d: nat {:trigger hashes[d]} | depth <= d <= KEY_BITS :: hashes[d] == EmptyAt(D, domain, d)
    {
      hashes[depth] := D(SetNode(domain, depth, hashes[depth + 1], hashes[depth + 1]));
    }
    empty := hashes[..];
  }

  /** The cache entry for the depth-bit prefix of k: present exactly when a key lies below that
      prefix, and then equal to the full recomputation. */
  ghost predicate NodeAgrees(D: Digester, domain: Domain, keys: set<Root>, nodes: NodeCache, k: Root, depth: nat)
    requires depth <= KEY_BITS
  {
    var p := KeyBits(k)[..depth];
    && ((depth, KeyPrefix(k, depth)) in nodes <==> Occupied(keys, p))
    && ((depth, KeyPrefix(k, depth)) in nodes ==> nodes[(depth, KeyPrefix(k, depth))] == Subtree(D, domain, keys, p))
  }

  function Lookup(nodes: NodeCache, empty: seq<Root>, depth: nat, prefix: Root): Root
    requires depth < |empty|
  {
    if (depth, prefix) in nodes then nodes[(depth, prefix)] else empty[depth]
  }

  lemma LookupAgrees(
    D: Digester, domain: Domain, keys: set<Root>, nodes: NodeCache, empty: seq<Root>, k: Root, depth: nat)
    requires depth <= KEY_BITS && |empty| == KEY_BITS + 1 && empty[depth] == EmptyAt(D, domain, depth)
    requires NodeAgrees(D, domain, keys, nodes, k, depth)
    ensures Lookup(nodes, empty, depth, KeyPrefix(k, depth)) == Subtree(D, domain, keys, KeyBits(k)[..depth])
  {
    if !Occupied(keys, KeyBits(k)[..depth]) {
      SubtreeEmpty(D, domain, keys, KeyBits(k)[..depth]);
    }
  }

  /** A node off the path of a new key stays right. */
  lemma NodeAgreesFrame(D: Digester, domain: Domain, keys: set<Root>, nodes: NodeCache, key: Root, k: Root, depth: nat)
    requires depth <= KEY_BITS && KeyBits(k)[..depth] != KeyBits(key)[..depth]
    requires NodeAgrees(D, domain, keys, nodes, k, depth)
    ensures NodeAgrees(D, domain, keys + {key}, nodes, k, depth)
  {
    var p := KeyBits(k)[..depth];
    SubtreeFrame(D, domain, keys, key, p);
    if Occupied(keys + {key}, p) {
      var found :| found in keys + {key} && KeyBits(found)[..|p|] == p;
      assert found in keys;
    }
  }

  /** Writing one cache entry leaves the entries of all other prefixes alone. */
  lemma NodeAgreesUpdate(
    D: Digester, domain: Domain, keys: set<Root>, nodes: NodeCache, at: Root, atDepth: nat, value: Root, k: Root,
    depth: nat)
    requires depth <= KEY_BITS && atDepth <= KEY_BITS
    requires NodeAgrees(D, domain, keys, nodes, k, depth)
    requires depth != atDepth || KeyBits(k)[..depth] != KeyBits(at)[..depth]
    ensures NodeAgrees(D, domain, keys, nodes[(atDepth, KeyPrefix(at, atDepth)) := value], k, depth)
  {
    if depth == atDepth {
      KeyPrefixAgree(k, at, depth);
    }
  }

  /** Entries that depend only on the prefix agree for every key with that prefix. */
  lemma NodeAgreesPrefix(D: Digester, domain: Domain, keys: set<Root>, nodes: NodeCache, a: Root, b: Root, depth: nat)
    requires depth <= KEY_BITS && KeyBits(a)[..depth] == KeyBits(b)[..depth]
    requires NodeAgrees(D, domain, keys, nodes, a, depth)
    ensures NodeAgrees(D, domain, keys, nodes, b, depth)
  {
    KeyPrefixAgree(a, b, depth);
  }

  /** The keys whose prefixes the insertion loop reads at one depth: the left and right child of the
      parent's prefix. */
  lemma ChildPrefixes(key: Root, depth: nat)
    requires depth < KEY_BITS
    ensures var parent := KeyPrefix(key, depth);
            && KeyBits(parent)[..depth + 1] == KeyBits(key)[..depth] + [false]
            && KeyBits(SetKeyBit(parent, depth, true))[..depth + 1] == KeyBits(key)[..depth] + [true]
            && KeyBits(parent)[..depth] == KeyBits(key)[..depth]
  {
    var parent := KeyPrefix(key, depth);
    KeyPrefixBits(key, depth);
    SetKeyBitBits(parent, depth, true);
    assert KeyBits(parent)[depth] == Zeros(KEY_BITS - depth)[0];
  }

  /** The prefix whose digest the witness records at one depth. */
  lemma SiblingPrefixBits(key: Root, depth: nat)
    requires depth < KEY_BITS
    ensures KeyBits(ToggleKeyBit(key, depth))[..depth + 1] == SiblingPrefix(KeyBits(key), depth)
  {
    ToggleKeyBitBits(key, depth);
  }

  lemma EmptySetAgrees(D: Digester, domain: Domain)
    ensures forall k: Root, d: nat | d <= KEY_BITS :: NodeAgrees(D, domain, {}, map[], k, d)
    ensures EmptyAt(D, domain, 0) == Subtree(D, domain, {}, [])
  {
    assert !Occupied({}, []);
    SubtreeEmpty(D, domain, {}, []);
  }

  class ReferenceSet {
    const D: Digester
    const domain: Domain
    var keys: set<Root>
    var nodes: NodeCache
    var empty: seq<Root>
    var commitment: SetCommitment

    /** Every cached node is the full recomputation of its subtree, every missing node is an empty
        subtree, and the commitment is the commitment of the key set. (The source's count conversion
        to 64 bits can refuse the last step only past 2^64 keys.) */
    ghost predicate Valid()
      reads this
    {
      && ZERO_ROOT !in keys
      && |empty| == KEY_BITS + 1
      && (forall d: nat {:trigger empty[d]} | d <= KEY_BITS :: empty[d] == EmptyAt(D, domain, d))
      && (forall k: Root, d: nat | d <= KEY_BITS :: NodeAgrees(D, domain, keys, nodes, k, d))
      && (|keys| < U64_LIMIT ==> commitment == CommitmentOf(D, domain, keys))
    }

    constructor (D: Digester, domain: Domain)
      ensures Valid() && keys == {} && nodes == map[] && this.D == D && this.domain == domain
      ensures commitment == CommitmentOf(D, domain, {})
    {
      var empty := SetEmptyHashes(D, domain);
      this.D, this.domain, keys, nodes := D, domain, {}, map[];
      this.empty := empty;
      commitment := SetCommitment(domain, D(SetRoot(domain, 0, empty[0])), 0);
      EmptySetAgrees(D, domain);
    }

    method Commitment() returns (c: SetCommitment)
      requires Valid() && |keys| < U64_LIMIT
      ensures c == commitment == CommitmentOf(D, domain, keys)
    {
      c := commitment;
    }

    method SiblingOf(key: Root, depth: nat) returns (sibling: Root)
      requires Valid() && depth < KEY_BITS
      ensures sibling == HonestSiblings(D, domain, keys, key)[depth]
    {
      var toggled := ToggleKeyBit(key, depth);
      sibling := Lookup(nodes, empty, depth + 1, KeyPrefix(toggled, depth + 1));
      SiblingLookup(key, depth);
    }

    method WitnessFor(key: Root) returns (r: Result<NonMembershipWitness>)
      requires Valid()
      ensures key == ZERO_ROOT || key in keys ==> r == Err(Duplicate)
      ensures key != ZERO_ROOT && key !in keys ==> r == Ok(HonestWitness(D, domain, keys, key))
    {
      if key == ZERO_ROOT || key in keys {
        return Err(Duplicate);
      }
      var siblings: seq<Root> := [];
      ghost var honest := HonestSiblings(D, domain, keys, key);
      for depth := 0 to KEY_BITS
        invariant siblings == honest[..depth]
      {
        var sibling := SiblingOf(key, depth);
        siblings := siblings + [sibling];
        assert honest[..depth + 1] == honest[..depth] + [honest[depth]];
      }
      assert siblings == honest;
      return Ok(NonMembershipWitness(key, siblings));
    }

    lemma SiblingLookup(key: Root, depth: nat)
      requires Valid() && depth < KEY_BITS
      ensures Lookup(nodes, empty, depth + 1, KeyPrefix(ToggleKeyBit(key, depth), depth + 1))
           == HonestSiblings(D, domain, keys, key)[depth]
    {
      assert NodeAgrees(D, domain, keys, nodes, ToggleKeyBit(key, depth), depth + 1);
      LookupAgrees(D, domain, keys, nodes, empty, ToggleKeyBit(key, depth), depth + 1);
      SiblingPrefixBits(key, depth);
    }

    method Insert(key: Root) returns (r: Result<()>)
      requires Valid()
      modifies this
      ensures Valid()
      ensures key == ZERO_ROOT || key in old(keys) ==> r == Err(Duplicate) && unchanged(this)
      ensures key != ZERO_ROOT && key !in old(keys) ==>
                && keys == old(keys) + {key}
                && r == if |keys| < U64_LIMIT then Ok(()) else Err(Overflow)
      ensures r.Ok? ==> commitment == CommitmentOf(D, domain, old(keys) + {key})
    {
      if key == ZERO_ROOT || key in keys {
        return Err(Duplicate);
      }
      ghost var before := keys;
      keys := keys + {key};
      nodes := nodes[(KEY_BITS, key) := D(SetLeaf(domain, key))];
      LeafWritten(before, key, old(nodes));
      for depth := KEY_BITS downto 0
        invariant keys == before + {key} && empty == old(empty) && commitment == old(commitment)
        invariant PathDone(key, depth)
      {
        ghost var cache := nodes;
        nodes := nodes[(depth, KeyPrefix(key, depth)) := ParentHash(nodes, key, depth)];
        NodeWritten(key, depth, cache);
      }
      assert KeyBits(ZERO_ROOT)[..0] == KeyBits(key)[..0] == [];
      assert NodeAgrees(D, domain, keys, nodes, ZERO_ROOT, 0);
      if |keys| >= U64_LIMIT {
        return Err(Overflow);
      }
      LookupAgrees(D, domain, keys, nodes, empty, ZERO_ROOT, 0);
      ZeroPrefix();
      var treeRoot := Lookup(nodes, empty, 0, ZERO_ROOT);
      commitment := SetCommitment(domain, D(SetRoot(domain, |keys|, treeRoot)), |keys|);
      return Ok(());
    }

    /** Loop invariant of Insert: all nodes at the depth or below are right for the new key set, and
        so are all nodes off the new key's path. */
    ghost predicate PathDone(key: Root, depth: nat)
      reads this
      requires depth <= KEY_BITS
    {
      forall k: Root, d: nat | d <= KEY_BITS && (d >= depth || KeyBits(k)[..d] != KeyBits(key)[..d]) ::
        NodeAgrees(D, domain, keys, nodes, k, d)
    }

    lemma LeafWritten(before: set<Root>, key: Root, cache: NodeCache)
      requires keys == before + {key}
      requires forall k: Root, d: nat | d <= KEY_BITS :: NodeAgrees(D, domain, before, cache, k, d)
      requires nodes == cache[(KEY_BITS, key) := D(SetLeaf(domain, key))]
      ensures PathDone(key, KEY_BITS)
    {
      forall k: Root, d: nat | d <= KEY_BITS && (d >= KEY_BITS || KeyBits(k)[..d] != KeyBits(key)[..d])
        ensures NodeAgrees(D, domain, keys, nodes, k, d)
      {
        if KeyBits(k)[..d] != KeyBits(key)[..d] {
          NodeAgreesFrame(D, domain, before, cache, key, k, d);
          NodeAgreesUpdate(D, domain, keys, cache, key, KEY_BITS, D(SetLeaf(domain, key)), k, d);
        } else {
          KeyBitsInjective(k, key);
          assert KeyBits(key)[..d] == KeyBits(key);
          KeyBitsInjective(KeyOfBits(KeyBits(key)), key);
        }
      }
    }

    /** The node that Insert writes at a depth, from the two nodes below it. */
    function ParentHash(cache: NodeCache, key: Root, depth: nat): Root
      reads this`empty
      requires depth < KEY_BITS && |empty| == KEY_BITS + 1
    {
      var parent := KeyPrefix(key, depth);
      D(SetNode(domain, depth, Lookup(cache, empty, depth + 1, KeyPrefix(parent, depth + 1)),
                Lookup(cache, empty, depth + 1, KeyPrefix(SetKeyBit(parent, depth, true), depth + 1))))
    }

    lemma LeftLookup(key: Root, depth: nat, cache: NodeCache)
      requires depth < KEY_BITS && |empty| == KEY_BITS + 1 && empty[depth + 1] == EmptyAt(D, domain, depth + 1)
      requires NodeAgrees(D, domain, keys, cache, KeyPrefix(key, depth), depth + 1)
      ensures Lookup(cache, empty, depth + 1, KeyPrefix(KeyPrefix(key, depth), depth + 1))
           == Subtree(D, domain, keys, KeyBits(key)[..depth] + [false])
    {
      ChildPrefixes(key, depth);
      LookupAgrees(D, domain, keys, cache, empty, KeyPrefix(key, depth), depth + 1);
    }

    lemma RightLookup(key: Root, depth: nat, cache: NodeCache)
      requires depth < KEY_BITS && |empty| == KEY_BITS + 1 && empty[depth + 1] == EmptyAt(D, domain, depth + 1)
      requires NodeAgrees(D, domain, keys, cache, SetKeyBit(KeyPrefix(key, depth), depth, true), depth + 1)
      ensures Lookup(cache, empty, depth + 1, KeyPrefix(SetKeyBit(KeyPrefix(key, depth), depth, true), depth + 1))
           == Subtree(D, domain, keys, KeyBits(key)[..depth] + [true])
    {
      ChildPrefixes(key, depth);
      LookupAgrees(D, domain, keys, cache, empty, SetKeyBit(KeyPrefix(key, depth), depth, true), depth + 1);
    }

    lemma ParentIsSubtree(key: Root, depth: nat, cache: NodeCache)
      requires depth < KEY_BITS && |empty| == KEY_BITS + 1
      requires Lookup(cache, empty, depth + 1, KeyPrefix(KeyPrefix(key, depth), depth + 1))
            == Subtree(D, domain, keys, KeyBits(key)[..depth] + [false])
      requires Lookup(cache, empty, depth + 1, KeyPrefix(SetKeyBit(KeyPrefix(key, depth), depth, true), depth + 1))
            == Subtree(D, domain, keys, KeyBits(key)[..depth] + [true])
      ensures ParentHash(cache, key, depth) == Subtree(D, domain, keys, KeyBits(key)[..depth])
    {}

    lemma NodeWritten(key: Root, depth: nat, cache: NodeCache)
      requires depth < KEY_BITS && key in keys && |empty| == KEY_BITS + 1
      requires empty[depth + 1] == EmptyAt(D, domain, depth + 1)
      requires forall k: Root, d: nat | d <= KEY_BITS && (d >= depth + 1 || KeyBits(k)[..d] != KeyBits(key)[..d]) ::
                 NodeAgrees(D, domain, keys, cache, k, d)
      requires nodes == cache[(depth, KeyPrefix(key, depth)) := ParentHash(cache, key, depth)]
      ensures PathDone(key, depth)
    {
      LeftLookup(key, depth, cache);
      RightLookup(key, depth, cache);
      ParentIsSubtree(key, depth, cache);
      assert Occupied(keys, KeyBits(key)[..depth]);
      assert NodeAgrees(D, domain, keys, nodes, key, depth);
      forall k: Root, d: nat | d <= KEY_BITS && (d >= depth || KeyBits(k)[..d] != KeyBits(key)[..d])
        ensures NodeAgrees(D, domain, keys, nodes, k, d)
      {
        if d == depth && KeyBits(k)[..d] == KeyBits(key)[..d] {
          NodeAgreesPrefix(D, domain, keys, nodes, key, k, d);
        } else {
          NodeAgreesUpdate(D, domain, keys, cache, key, depth, ParentHash(cache, key, depth), k, d);
        }
      }
    }
  }

  lemma ZeroPrefix()
    ensures KeyPrefix(ZERO_ROOT, 0) == ZERO_ROOT
  {}

  // ---------------------------------------------------------------------------------------------
  // Client and reference in lockstep
  // ---------------------------------------------------------------------------------------------

  /** The keys after offering some more; the zero key is never taken. */
  ghost function Offered(keys: set<Root>, more: seq<Root>): set<Root> {
    keys + (Members(more) - {ZERO_ROOT})
  }

  lemma OfferedOne(keys: set<Root>, key: Root)
    ensures Offered(keys, [key]) == if key == ZERO_ROOT || key in keys then keys else keys + {key}
    ensures |Offered(keys, [key])| <= |keys| + 1
  {
    assert Members([key]) == {key};
  }

  lemma OfferedSnoc(keys: set<Root>, more: seq<Root>, key: Root)
    ensures Offered(keys, more + [key]) == Offered(Offered(keys, more), [key])
  {
    MembersSnoc(more, key);
    assert Members([key]) == {key};
  }

  /** The client's side: with a witness of the reference, insert; without one, stay. */
  method ClientInsert(reference: ReferenceSet, client: SetCommitment, key: Root) returns (next: SetCommitment)
    requires reference.Valid() && client == reference.commitment && |reference.keys| + 1 < U64_LIMIT
    ensures next == if key == ZERO_ROOT || key in reference.keys then client
                    else CommitmentOf(reference.D, reference.domain, reference.keys + {key})
  {
    var offered := reference.WitnessFor(key);
    if offered.Err? {
      return client;
    }
    HonestWitnessAccepted(reference.D, reference.domain, reference.keys, key);
    var moved := CommitmentInsert(reference.D, client, key, offered.value);
    next := moved.value;
  }

  /** One key, offered to both sides: the client with a witness of the reference, then the reference. */
  method InsertBoth(reference: ReferenceSet, client: SetCommitment, key: Root) returns (next: SetCommitment)
    requires reference.Valid() && client == reference.commitment && |reference.keys| + 1 < U64_LIMIT
    modifies reference
    ensures reference.Valid() && next == reference.commitment
    ensures next == CommitmentOf(reference.D, reference.domain, reference.keys)
    ensures reference.keys == Offered(old(reference.keys), [key])
    ensures |reference.keys| <= |old(reference.keys)| + 1
  {
    OfferedOne(reference.keys, key);
    next := ClientInsert(reference, client, key);
    var inserted := reference.Insert(key);
  }

  method InsertEach(reference: ReferenceSet, keys: seq<Root>) returns (client: SetCommitment)
    requires reference.Valid() && |reference.keys| + |keys| < U64_LIMIT
    modifies reference
    ensures reference.Valid() && client == reference.commitment
    ensures reference.keys == Offered(old(reference.keys), keys)
    ensures |reference.keys| <= |old(reference.keys)| + |keys|
  {
    if keys == [] {
      client := reference.Commitment();
      return;
    }
    var n := |keys| - 1;
    client := InsertEach(reference, keys[..n]);
    OfferedSnoc(old(reference.keys), keys[..n], keys[n]);
    assert keys[..n] + [keys[n]] == keys;
    client := InsertBoth(reference, client, keys[n]);
  }

  /** Over every list of keys, repeated and zero ones included, the root-only client stays at the
      commitment of the reference set. */
  method InsertInLockstep(reference: ReferenceSet, keys: seq<Root>) returns (client: SetCommitment)
    requires reference.Valid() && |reference.keys| + |keys| < U64_LIMIT
    modifies reference
    ensures reference.Valid() && client == reference.commitment
    ensures client == CommitmentOf(reference.D, reference.domain, reference.keys)
    ensures reference.keys == Offered(old(reference.keys), keys)
  {
    client := InsertEach(reference, keys);
  }
}
