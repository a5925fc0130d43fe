/** The tagged byte strings that the accumulator hashes.

Every digest is SHAKE-256 over a tag followed by fixed-width fields. The hash itself is a parameter,
an arbitrary function from byte strings to 48-byte roots. Theorems that need it to separate inputs
ask for that only on the preimages that the computations in question really hash (CollisionFree over
a finite set), never on all byte strings at once. */
module Digests {
  import opened Keys
  import Octets
  import opened Sequences
  import opened Widths

  type Hash = Bytes -> Root

  /** A digest function on structured preimages; TaggedDigest is the one the accumulator uses. */
  type Digester = Preimage -> Root

  /** No two different preimages of the given set have the same digest. */
  ghost predicate CollisionFree(D: Digester, inputs: set<Preimage>) {
    forall x, y :: x in inputs && y in inputs && D(x) == D(y) ==> x == y
  }

  // ---------------------------------------------------------------------------------------------
  // Fixed-width integers
  // ---------------------------------------------------------------------------------------------

  /** The bytes of some octets. */
  function BytesOf(octets: Octets.Octets): (b: Bytes)
    ensures |b| == |octets|
  {
    seq(|octets|, i requires 0 <= i < |octets| => ByteOf(octets[i]))
  }

  lemma BytesOfInjective(a: Octets.Octets, b: Octets.Octets)
    requires BytesOf(a) == BytesOf(b)
    ensures a == b
  {
    forall i | 0 <= i < |a| ensures a[i] == b[i] {
      assert BytesOf(a)[i] == BytesOf(b)[i];
      ByteOfInjective(a[i], b[i]);
    }
  }

  /** `to_be_bytes` of an unsigned integer of the given width. */
  function BigEndian(n: nat, width: nat): (b: Bytes)
    requires n < Pow256(width)
    ensures |b| == width
  {
    BytesOf(Octets.ToBE(n, width))
  }

  lemma BigEndianInjective(m: nat, n: nat, width: nat)
    requires m < Pow256(width) && n < Pow256(width)
    requires BigEndian(m, width) == BigEndian(n, width)
    ensures m == n
  {
    BytesOfInjective(Octets.ToBE(m, width), Octets.ToBE(n, width));
    Octets.FromToBE(m, width);
    Octets.FromToBE(n, width);
  }

  // ---------------------------------------------------------------------------------------------
  // Tags and preimages
  // ---------------------------------------------------------------------------------------------

  datatype Domain = Nullifier | SpentInput | Revocation | RetiredValidatorSet | AuthorizationInvocation

  function DomainByte(d: Domain): Byte {
    match d
    case Nullifier => 1
    case SpentInput => 2
    case Revocation => 3
    case RetiredValidatorSet => 4
    case AuthorizationInvocation => 5
  }

  function CharByte(c: char): Byte {
    ByteOf(c as int % 256)
  }

  function Ascii(s: string): (b: Bytes)
    ensures |b| == |s|
  {
    seq(|s|, i requires 0 <= i < |s| => CharByte(s[i]))
  }

  /** What a digest is taken of. Depths fit 16 bits, set counts 64, history counts and indices 32. */
  datatype Preimage =
    | EmptySetLeaf(domain: Domain)
    | SetLeaf(domain: Domain, key: Root)
    | SetNode(domain: Domain, depth: nat, left: Root, right: Root)
    | SetRoot(domain: Domain, setCount: nat, tree: Root)
    | EmptyHistoryLeaf
    | HistoryLeaf(index: nat, header: Root)
    | HistoryNode(depth: nat, left: Root, right: Root)
    | HistoryRoot(historyCount: nat, tree: Root)
  {
    predicate Fits() {
      match this
      case SetNode(_, depth, _, _) => depth < U16_LIMIT
      case SetRoot(_, count, _) => count < U64_LIMIT
      case HistoryLeaf(index, _) => index < U32_LIMIT
      case HistoryNode(depth, _, _) => depth < U16_LIMIT
      case HistoryRoot(count, _) => count < U32_LIMIT
      case _ => true
    }

    function Tag(): string {
      match this
      case EmptySetLeaf(_) => "ACTIVECHAIN-SPARSE-SET-EMPTY-V1"
      case SetLeaf(_, _) => "ACTIVECHAIN-SPARSE-SET-LEAF-V1"
      case SetNode(_, _, _, _) => "ACTIVECHAIN-SPARSE-SET-NODE-V1"
      case SetRoot(_, _, _) => "ACTIVECHAIN-SPARSE-SET-ROOT-V1"
      case EmptyHistoryLeaf => "ACTIVECHAIN-HISTORY-EMPTY-V1"
      case HistoryLeaf(_, _) => "ACTIVECHAIN-HISTORY-LEAF-V1"
      case HistoryNode(_, _, _) => "ACTIVECHAIN-HISTORY-NODE-V1"
      case HistoryRoot(_, _) => "ACTIVECHAIN-HISTORY-ROOT-V1"
    }

    /** The fields after the tag. */
    function Fields(): Bytes
      requires Fits()
    {
      IntegerLimits();
      match this
      case EmptySetLeaf(domain) => [DomainByte(domain)]
      case SetLeaf(domain, key) => [DomainByte(domain)] + key
      case SetNode(domain, depth, left, right) => [DomainByte(domain)] + (BigEndian(depth, 2) + (left + right))
      case SetRoot(domain, count, tree) => [DomainByte(domain)] + (BigEndian(count, 8) + tree)
      case EmptyHistoryLeaf => []
      case HistoryLeaf(index, header) => BigEndian(index, 4) + header
      case HistoryNode(depth, left, right) => BigEndian(depth, 2) + (left + right)
      case HistoryRoot(count, tree) => BigEndian(count, 4) + tree
    }

    /** The byte string handed to the hash. */
    function Encode(): Bytes
      requires Fits()
    {
      Ascii(Tag()) + Fields()
    }
  }

  lemma DomainNumbers(d: Domain)
    ensures [Nullifier, SpentInput, Revocation, RetiredValidatorSet, AuthorizationInvocation]
              [DomainByte(d) as int - 1] == d
  {}

  /** The byte strings by their offsets: the tag, and then the fields in order. */
  lemma EmptySetLeafLayout(domain: Domain)
    ensures var e := EmptySetLeaf(domain).Encode();
            && |e| == 32 && e[..31] == Ascii("ACTIVECHAIN-SPARSE-SET-EMPTY-V1")
            && e[31..] == [DomainByte(domain)]
  {
    TwoParts(Ascii("ACTIVECHAIN-SPARSE-SET-EMPTY-V1"), [DomainByte(domain)]);
  }

  lemma SetLeafLayout(domain: Domain, key: Root)
    ensures var e := SetLeaf(domain, key).Encode();
            && |e| == 79 && e[..30] == Ascii("ACTIVECHAIN-SPARSE-SET-LEAF-V1")
            && e[30..31] == [DomainByte(domain)] && e[31..] == key
  {
    ThreeParts(Ascii("ACTIVECHAIN-SPARSE-SET-LEAF-V1"), [DomainByte(domain)], key);
  }

  lemma SetNodeLayout(domain: Domain, depth: nat, left: Root, right: Root)
    requires depth < U16_LIMIT
    ensures var e := SetNode(domain, depth, left, right).Encode();
            && |e| == 129 && e[..30] == Ascii("ACTIVECHAIN-SPARSE-SET-NODE-V1")
            && e[30..31] == [DomainByte(domain)] && e[31..33] == BigEndian(depth, 2)
            && e[33..81] == left && e[81..] == right
  {
    FiveParts(Ascii("ACTIVECHAIN-SPARSE-SET-NODE-V1"), [DomainByte(domain)], BigEndian(depth, 2), left, right);
  }

  lemma SetRootLayout(domain: Domain, count: nat, tree: Root)
    requires count < U64_LIMIT
    ensures var e := SetRoot(domain, count, tree).Encode();
            && |e| == 87 && e[..30] == Ascii("ACTIVECHAIN-SPARSE-SET-ROOT-V1")
            && e[30..31] == [DomainByte(domain)] && e[31..39] == BigEndian(count, 8) && e[39..] == tree
  {
    FourParts(Ascii("ACTIVECHAIN-SPARSE-SET-ROOT-V1"), [DomainByte(domain)], BigEndian(count, 8), tree);
  }

  lemma HistoryLeafLayout(index: nat, header: Root)
    requires index < U32_LIMIT
    ensures var e := HistoryLeaf(index, header).Encode();
            && |e| == 79 && e[..27] == Ascii("ACTIVECHAIN-HISTORY-LEAF-V1")
            && e[27..31] == BigEndian(index, 4) && e[31..] == header
  {
    ThreeParts(Ascii("ACTIVECHAIN-HISTORY-LEAF-V1"), BigEndian(index, 4), header);
  }

  lemma HistoryNodeLayout(depth: nat, left: Root, right: Root)
    requires depth < U16_LIMIT
    ensures var e := HistoryNode(depth, left, right).Encode();
            && |e| == 125 && e[..27] == Ascii("ACTIVECHAIN-HISTORY-NODE-V1")
            && e[27..29] == BigEndian(depth, 2) && e[29..77] == left && e[77..] == right
  {
    FourParts(Ascii("ACTIVECHAIN-HISTORY-NODE-V1"), BigEndian(depth, 2), left, right);
  }

  lemma HistoryRootLayout(count: nat, tree: Root)
    requires count < U32_LIMIT
    ensures var e := HistoryRoot(count, tree).Encode();
            && |e| == 79 && e[..27] == Ascii("ACTIVECHAIN-HISTORY-ROOT-V1")
            && e[27..31] == BigEndian(count, 4) && e[31..] == tree
  {
    ThreeParts(Ascii("ACTIVECHAIN-HISTORY-ROOT-V1"), BigEndian(count, 4), tree);
  }

  lemma EmptyHistoryLeafLayout()
    ensures EmptyHistoryLeaf.Encode() == Ascii("ACTIVECHAIN-HISTORY-EMPTY-V1")
  {
    TwoParts(Ascii("ACTIVECHAIN-HISTORY-EMPTY-V1"), EmptyHistoryLeaf.Fields());
  }

  function DigestOf(H: Hash, p: Preimage): Root {
    if p.Fits() then H(p.Encode()) else ZERO_ROOT
  }

  /** Hash of the tagged byte string. */
  function TaggedDigest(H: Hash): Digester {
    (p: Preimage) => DigestOf(H, p)
  }

  ghost predicate SameKind(a: Preimage, b: Preimage) {
    match a
    case EmptySetLeaf(_) => b.EmptySetLeaf?
    case SetLeaf(_, _) => b.SetLeaf?
    case SetNode(_, _, _, _) => b.SetNode?
    case SetRoot(_, _, _) => b.SetRoot?
    case EmptyHistoryLeaf => b.EmptyHistoryLeaf?
    case HistoryLeaf(_, _) => b.HistoryLeaf?
    case HistoryNode(_, _, _) => b.HistoryNode?
    case HistoryRoot(_, _) => b.HistoryRoot?
  }

  function KindLength(p: Preimage): nat {
    match p
    case EmptySetLeaf(_) => 32
    case SetLeaf(_, _) => 79
    case SetNode(_, _, _, _) => 129
    case SetRoot(_, _, _) => 87
    case EmptyHistoryLeaf => 28
    case HistoryLeaf(_, _) => 79
    case HistoryNode(_, _, _) => 125
    case HistoryRoot(_, _) => 79
  }

  lemma EncodedLength(p: Preimage)
    requires p.Fits()
    ensures |p.Encode()| == KindLength(p)
    ensures |p.Tag()| > 20
  {}

  lemma TagLettersDiffer(a: Preimage, b: Preimage, i: nat)
    requires a.Fits() && b.Fits() && i < |a.Tag()| && i < |b.Tag()|
    requires CharByte(a.Tag()[i]) != CharByte(b.Tag()[i])
    ensures a.Encode() != b.Encode()
  {
    assert a.Encode()[i] == CharByte(a.Tag()[i]);
    assert b.Encode()[i] == CharByte(b.Tag()[i]);
  }

  lemma LettersDiffer(c: char, d: char)
    requires c != d && c as int < 256 && d as int < 256
    ensures CharByte(c) != CharByte(d)
  {
    ByteOfInjective(c as int % 256, d as int % 256);
  }

  lemma SameLengthKinds(a: Preimage, b: Preimage)
    requires KindLength(a) == KindLength(b)
    ensures SameKind(a, b) || SetLeafPair(a, b) || SetLeafPair(b, a) || LeafRootPair(a, b) || LeafRootPair(b, a)
  {}

  ghost predicate SetLeafPair(a: Preimage, b: Preimage) {
    a.SetLeaf? && (b.HistoryLeaf? || b.HistoryRoot?)
  }

  ghost predicate LeafRootPair(a: Preimage, b: Preimage) {
    a.HistoryLeaf? && b.HistoryRoot?
  }

  /** The three kinds of 79 bytes differ in a letter of the tag. */
  lemma PairsDiffer(a: Preimage, b: Preimage)
    requires a.Fits() && b.Fits() && (SetLeafPair(a, b) || LeafRootPair(a, b))
    ensures a.Encode() != b.Encode()
  {
    var i := if a.SetLeaf? then 12 else 20;
    LettersDiffer(a.Tag()[i], b.Tag()[i]);
    TagLettersDiffer(a, b, i);
  }

  /** Preimages of different kinds have different byte strings. */
  lemma KindsDiffer(a: Preimage, b: Preimage)
    requires a.Fits() && b.Fits() && a.Encode() == b.Encode()
    ensures SameKind(a, b)
  {
    EncodedLength(a);
    EncodedLength(b);
    SameLengthKinds(a, b);
    if SetLeafPair(a, b) || LeafRootPair(a, b) {
      PairsDiffer(a, b);
    } else if SetLeafPair(b, a) || LeafRootPair(b, a) {
      PairsDiffer(b, a);
    }
  }

  /** The tagged encoding is injective: tag, domain, depth, count, index and children all bind. */
  lemma EncodeInjective(a: Preimage, b: Preimage)
    requires a.Fits() && b.Fits() && a.Encode() == b.Encode()
    ensures a == b
  {
    KindsDiffer(a, b);
    SplitEqual(Ascii(a.Tag()), a.Fields(), Ascii(b.Tag()), b.Fields());
    FieldsInjective(a, b);
  }

  lemma FieldsInjective(a: Preimage, b: Preimage)
    requires a.Fits() && b.Fits() && SameKind(a, b) && a.Fields() == b.Fields()
    ensures a == b
  {
    IntegerLimits();
    if a.EmptySetLeaf? || a.SetLeaf? || a.SetNode? || a.SetRoot? {
      assert a.Fields()[0] == b.Fields()[0] && a.Fields()[1..] == b.Fields()[1..];
      SetFieldsInjective(a, b);
    } else {
      match a
      case EmptyHistoryLeaf =>
      case HistoryLeaf(index, header) => CountFields(index, header, b.index, b.header, 4);
      case HistoryNode(depth, left, right) => NodeFields(depth, left, right, b.depth, b.left, b.right);
      case HistoryRoot(count, tree) => CountFields(count, tree, b.historyCount, b.tree, 4);
    }
  }

  /** The fields of a set transcript after its domain byte. */
  lemma SetFieldsInjective(a: Preimage, b: Preimage)
    requires a.Fits() && b.Fits() && SameKind(a, b) && (a.EmptySetLeaf? || a.SetLeaf? || a.SetNode? || a.SetRoot?)
    requires a.Fields() != [] && b.Fields() != []
    requires a.Fields()[0] == b.Fields()[0] && a.Fields()[1..] == b.Fields()[1..]
    ensures a == b
  {
    IntegerLimits();
    match a
    case EmptySetLeaf(d) =>
    case SetLeaf(d, key) =>
      assert a.Fields()[1..] == key && b.Fields()[1..] == b.key;
    case SetNode(d, depth, left, right) =>
      assert a.Fields()[1..] == BigEndian(depth, 2) + (left + right);
      assert b.Fields()[1..] == BigEndian(b.depth, 2) + (b.left + b.right);
      NodeFields(depth, left, right, b.depth, b.left, b.right);
    case SetRoot(d, count, tree) =>
      assert a.Fields()[1..] == BigEndian(count, 8) + tree;
      assert b.Fields()[1..] == BigEndian(b.setCount, 8) + b.tree;
      CountFields(count, tree, b.setCount, b.tree, 8);
  }

  lemma CountFields(m: nat, x: Root, n: nat, y: Root, width: nat)
    requires m < Pow256(width) && n < Pow256(width) && BigEndian(m, width) + x == BigEndian(n, width) + y
    ensures m == n && x == y
  {
    SplitEqual(BigEndian(m, width), x, BigEndian(n, width), y);
    BigEndianInjective(m, n, width);
  }

  lemma NodeFields(d: nat, l: Root, r: Root, d': nat, l': Root, r': Root)
    requires d < Pow256(2) && d' < Pow256(2)
    requires BigEndian(d, 2) + (l + r) == BigEndian(d', 2) + (l' + r')
    ensures d == d' && l == l' && r == r'
  {
    SplitEqual(BigEndian(d, 2), l + r, BigEndian(d', 2), l' + r');
    BigEndianInjective(d, d', 2);
    SplitEqual(l, r, l', r');
  }

  ghost predicate HashSeparates(H: Hash, inputs: set<Bytes>) {
    forall x, y :: x in inputs && y in inputs && H(x) == H(y) ==> x == y
  }

  /** A hash that separates the byte strings of some preimages separates the preimages: the tagged
      encoding adds no collision of its own. */
  lemma TaggedDigestCollisionFree(H: Hash, inputs: set<Preimage>)
    requires forall p :: p in inputs ==> p.Fits()
    requires HashSeparates(H, set p | p in inputs && p.Fits() :: p.Encode())
    ensures CollisionFree(TaggedDigest(H), inputs)
  {
    var D := TaggedDigest(H);
    forall x, y | x in inputs && y in inputs && D(x) == D(y) ensures x == y {
      assert H(x.Encode()) == H(y.Encode());
      EncodeInjective(x, y);
    }
  }
}
