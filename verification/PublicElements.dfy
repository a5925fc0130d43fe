/** Public inputs as field elements: the embedding that binds a proof to them is injective. */
module PublicElements {
  import opened Octets
  import opened Execution
  import opened Receipts
  import opened Sequences
  import opened Widths

  /** `from_le_bytes`. */
  function FromLE(b: Octets): nat {
    if b == [] then 0 else b[0] + 256 * FromLE(b[1..])
  }

  lemma {:induction false} FromLEBound(b: Octets)
    ensures FromLE(b) < Pow256(|b|)
  {
    if b != [] { FromLEBound(b[1..]); }
  }

  lemma {:induction false} FromLEInjective(a: Octets, b: Octets)
    requires |a| == |b| && FromLE(a) == FromLE(b)
    ensures a == b
  {
    if a != [] {
      assert a[0] == FromLE(a) % 256 && b[0] == FromLE(b) % 256;
      FromLEInjective(a[1..], b[1..]);
      assert a == [a[0]] + a[1..] && b == [b[0]] + b[1..];
    }
  }

  lemma {:induction false} FromLEPadded(b: Octets, n: nat)
    ensures FromLE(b + Zeros(n)) == FromLE(b)
  {
    if b == [] {
      assert b + Zeros(n) == Zeros(n);
      FromLEZeros(n);
    } else {
      assert (b + Zeros(n))[0] == b[0] && (b + Zeros(n))[1..] == b[1..] + Zeros(n);
      FromLEPadded(b[1..], n);
    }
  }

  lemma {:induction false} FromLEZeros(n: nat)
    ensures FromLE(Zeros(n)) == 0
  {
    if n > 0 {
      assert Zeros(n)[1..] == Zeros(n - 1);
      FromLEZeros(n - 1);
    }
  }

  // ---------------------------------------------------------------------------------------------
  // Digests in chunks of seven bytes
  // ---------------------------------------------------------------------------------------------

  /** A chunk, padded to eight bytes and reduced. */
  function ChunkElement(chunk: Octets): Felt
    requires |chunk| <= 8
  {
    ToFelt(FromLE(chunk + Zeros(8 - |chunk|)))
  }

  /** Seven bytes always fit the field, so reduction loses nothing. */
  lemma ChunkInjective(a: Octets, b: Octets)
    requires |a| == |b| <= 7 && ChunkElement(a) == ChunkElement(b)
    ensures a == b
  {
    ChunkFits(a);
    ChunkFits(b);
    FromLEInjective(a, b);
  }

  lemma SmallIsItself(x: nat)
    requires x < MODULUS
    ensures ToFelt(x) == x
  {}

  lemma SevenBytesFit(n: nat)
    requires n <= 7
    ensures Pow256(n) < MODULUS
  {
    Pow256Monotone(n, 7);
    assert Pow256(4) == 0x1_0000_0000;
    assert Pow256(7) == 0x100_0000 * Pow256(4);
  }

  lemma ChunkFits(a: Octets)
    requires |a| <= 7
    ensures ChunkElement(a) == FromLE(a)
  {
    FromLEPadded(a, 8 - |a|);
    FromLEBound(a);
    SevenBytesFit(|a|);
    SmallIsItself(FromLE(a));
  }

  lemma {:induction false} Pow256Monotone(a: nat, b: nat)
    requires a <= b
    ensures Pow256(a) <= Pow256(b)
  {
    if a < b { Pow256Monotone(a, b - 1); }
  }

  function ChunkSize(n: nat): nat {
    if n < 7 then n else 7
  }

  /** `chunks(7)` of the bytes, as elements. */
  function ChunkElements(b: Octets): seq<Felt> {
    if b == [] then []
    else
      var n := ChunkSize(|b|);
      [ChunkElement(b[..n])] + ChunkElements(b[n..])
  }

  lemma {:induction false} ChunkElementsInjective(a: Octets, b: Octets)
    requires |a| == |b| && ChunkElements(a) == ChunkElements(b)
    ensures a == b
  {
    if a != [] {
      var n := ChunkSize(|a|);
      var x, y := ChunkElement(a[..n]), ChunkElement(b[..n]);
      SplitEqual([x], ChunkElements(a[n..]), [y], ChunkElements(b[n..]));
      assert [x][0] == [y][0];
      ChunkInjective(a[..n], b[..n]);
      ChunkElementsInjective(a[n..], b[n..]);
      assert a == a[..n] + a[n..] && b == b[..n] + b[n..];
    }
  }

  lemma {:induction false} ChunkElementsLength(a: Octets, b: Octets)
    requires |a| == |b|
    ensures |ChunkElements(a)| == |ChunkElements(b)|
  {
    if a != [] {
      var n := ChunkSize(|a|);
      ChunkElementsLength(a[n..], b[n..]);
    }
  }

  method AppendDigestElements(target: seq<Felt>, digest: Octets) returns (out: seq<Felt>)
    ensures out == target + ChunkElements(digest)
  {
    out := target;
    var at := 0;
    while at < |digest|
      invariant at <= |digest|
      invariant out + ChunkElements(digest[at..]) == target + ChunkElements(digest)
    {
      var end := at + ChunkSize(|digest| - at);
      var rest := digest[at..];
      assert rest[..end - at] == digest[at..end] && rest[end - at..] == digest[end..];
      assert ChunkElements(rest) == [ChunkElement(digest[at..end])] + ChunkElements(digest[end..]);
      out := out + [ChunkElement(digest[at..end])];
      at := end;
    }
    assert digest[|digest|..] == [];
  }

  // ---------------------------------------------------------------------------------------------
  // All public inputs
  // ---------------------------------------------------------------------------------------------

  datatype Inputs = Inputs(header: ReceiptHeader, pre: nat, post: nat, actions: seq<Action>) {
    /** Public inputs of a validated block and canonical states. */
    predicate Valid() {
      header.Sized() && Canonical(pre) && Canonical(post) && ValidBlock(Block(actions))
    }
  }

  function ActionElements(actions: seq<Action>): seq<Felt> {
    if actions == [] then []
    else [ToFelt(actions[0].opcode.Code()), ToFelt(actions[0].operand)] + ActionElements(actions[1..])
  }

  function NumberElements(h: ReceiptHeader): (e: seq<Felt>)
    ensures |e| == 6
  {
    [ToFelt(h.codecVersion), ToFelt(h.receiptKind), ToFelt(h.protocolVersion), ToFelt(h.verifierVersion),
      ToFelt(h.suiteId), ToFelt(h.flags)]
  }

  function StateElements(i: Inputs): (e: seq<Felt>)
    ensures |e| == 3
  {
    [ToFelt(i.pre), ToFelt(i.post), ToFelt(|i.actions|)]
  }

  function ToElements(i: Inputs): seq<Felt> {
    NumberElements(i.header) + (ChunkElements(i.header.programId) + (ChunkElements(i.header.preStateRoot)
      + (ChunkElements(i.header.blockId)
        + (ChunkElements(i.header.postStateRoot) + (StateElements(i) + ActionElements(i.actions))))))
  }

  method AppendActionElements(target: seq<Felt>, actions: seq<Action>) returns (out: seq<Felt>)
    ensures out == target + ActionElements(actions)
  {
    out := target;
    for n := 0 to |actions|
      invariant out + ActionElements(actions[n..]) == target + ActionElements(actions)
    {
      var opcode, operand := ToFelt(actions[n].opcode.Code()), ToFelt(actions[n].operand);
      assert actions[n..][0] == actions[n] && actions[n..][1..] == actions[n + 1..];
      assert ActionElements(actions[n..]) == [opcode, operand] + ActionElements(actions[n + 1..]);
      out := out + [opcode];
      out := out + [operand];
    }
    assert actions[|actions|..] == [] && out + [] == out;
  }

  /** The vector is filled field by field. */
  method CollectElements(i: Inputs) returns (out: seq<Felt>)
    ensures out == ToElements(i)
  {
    out := NumberElements(i.header);
    out := AppendDigestElements(out, i.header.programId);
    out := AppendDigestElements(out, i.header.preStateRoot);
    out := AppendDigestElements(out, i.header.blockId);
    out := AppendDigestElements(out, i.header.postStateRoot);
    out := out + StateElements(i);
    out := AppendActionElements(out, i.actions);
    var h := i.header;
    Reassociate(NumberElements(h), ChunkElements(h.programId), ChunkElements(h.preStateRoot), ChunkElements(h.blockId),
                ChunkElements(h.postStateRoot), StateElements(i), ActionElements(i.actions));
  }

  lemma Reassociate<T>(a: seq<T>, b: seq<T>, c: seq<T>, d: seq<T>, e: seq<T>, f: seq<T>, g: seq<T>)
    ensures a + b + c + d + e + f + g == a + (b + (c + (d + (e + (f + g)))))
  {}

  lemma {:induction false} ActionElementsInjective(a: seq<Action>, b: seq<Action>)
    requires |a| == |b| && ActionElements(a) == ActionElements(b)
    requires forall k | 0 <= k < |a| :: Canonical(a[k].operand) && Canonical(b[k].operand)
    ensures a == b
  {
    if a != [] {
      var x, y := ActionElements(a), ActionElements(b);
      assert x[0] == y[0] && x[1] == y[1];
      assert x[2..] == ActionElements(a[1..]) && y[2..] == ActionElements(b[1..]);
      assert Canonical(a[0].operand) && Canonical(b[0].operand);
      ActionElementsInjective(a[1..], b[1..]);
      assert a == [a[0]] + a[1..] && b == [b[0]] + b[1..];
    }
  }

  lemma NumbersAreSmall(h: ReceiptHeader)
    requires h.Sized()
    ensures NumberElements(h)
            == [h.codecVersion, h.receiptKind, h.protocolVersion, h.verifierVersion, h.suiteId, h.flags]
  {
    SmallIsItself(h.codecVersion);
    SmallIsItself(h.receiptKind);
    SmallIsItself(h.protocolVersion);
    SmallIsItself(h.verifierVersion);
    SmallIsItself(h.suiteId);
    SmallIsItself(h.flags);
  }

  lemma NumberElementsInjective(g: ReceiptHeader, h: ReceiptHeader)
    requires g.Sized() && h.Sized() && NumberElements(g) == NumberElements(h)
    ensures g.codecVersion == h.codecVersion && g.receiptKind == h.receiptKind && g.protocolVersion == h.protocolVersion
    ensures g.verifierVersion == h.verifierVersion && g.suiteId == h.suiteId && g.flags == h.flags
  {
    var x, y := NumberElements(g), NumberElements(h);
    NumbersAreSmall(g);
    NumbersAreSmall(h);
    assert x[0] == y[0] && x[1] == y[1] && x[2] == y[2] && x[3] == y[3] && x[4] == y[4] && x[5] == y[5];
  }

  lemma StateElementsInjective(i: Inputs, j: Inputs)
    requires i.Valid() && j.Valid() && StateElements(i) == StateElements(j)
    ensures i.pre == j.pre && i.post == j.post && |i.actions| == |j.actions|
  {
    var x, y := StateElements(i), StateElements(j);
    assert x[0] == y[0] && x[1] == y[1] && x[2] == y[2];
  }

  /** A digest at the front of equal element sequences is the same digest. */
  lemma DigestFront(a: Octets, rest: seq<Felt>, b: Octets, rest': seq<Felt>)
    requires |a| == |b| && ChunkElements(a) + rest == ChunkElements(b) + rest'
    ensures a == b && rest == rest'
  {
    ChunkElementsLength(a, b);
    SplitEqual(ChunkElements(a), rest, ChunkElements(b), rest');
    ChunkElementsInjective(a, b);
  }

  function AfterDigests(i: Inputs): seq<Felt> {
    StateElements(i) + ActionElements(i.actions)
  }

  /** Different public inputs give different element sequences. */
  lemma ToElementsInjective(i: Inputs, j: Inputs)
    requires i.Valid() && j.Valid() && ToElements(i) == ToElements(j)
    ensures i == j
  {
    var g, h := i.header, j.header;
    var g4, h4 := AfterDigests(i), AfterDigests(j);
    var g3, h3 := ChunkElements(g.postStateRoot) + g4, ChunkElements(h.postStateRoot) + h4;
    var g2, h2 := ChunkElements(g.blockId) + g3, ChunkElements(h.blockId) + h3;
    var g1, h1 := ChunkElements(g.preStateRoot) + g2, ChunkElements(h.preStateRoot) + h2;
    SplitEqual(NumberElements(g), ChunkElements(g.programId) + g1, NumberElements(h), ChunkElements(h.programId) + h1);
    NumberElementsInjective(g, h);
    DigestFront(g.programId, g1, h.programId, h1);
    DigestFront(g.preStateRoot, g2, h.preStateRoot, h2);
    DigestFront(g.blockId, g3, h.blockId, h3);
    DigestFront(g.postStateRoot, g4, h.postStateRoot, h4);
    SplitEqual(StateElements(i), ActionElements(i.actions), StateElements(j), ActionElements(j.actions));
    StateElementsInjective(i, j);
    ActionElementsInjective(i.actions, j.actions);
  }

  // ---------------------------------------------------------------------------------------------
  // Where each element is
  // ---------------------------------------------------------------------------------------------

  function ChunkEnd(n: nat, j: nat): nat {
    if 7 * j + 7 <= n then 7 * j + 7 else n
  }

  lemma {:induction false} ChunkCount(b: Octets)
    ensures |ChunkElements(b)| == (|b| + 6) / 7
  {
    if b != [] { ChunkCount(b[ChunkSize(|b|)..]); }
  }

  /** Element j is the little-endian value of bytes 7j to 7j + 7, or of what is left of them. */
  lemma {:induction false} ChunkAt(b: Octets, j: nat)
    requires 7 * j < |b|
    ensures j < |ChunkElements(b)| && ChunkElements(b)[j] == FromLE(b[7 * j..ChunkEnd(|b|, j)])
    decreases j
  {
    ChunkCount(b);
    var n := ChunkSize(|b|);
    if j == 0 {
      ChunkFits(b[..n]);
    } else {
      var rest := b[n..];
      ChunkAt(rest, j - 1);
      var from, to := 7 * (j - 1), ChunkEnd(|rest|, j - 1);
      assert from + 7 == 7 * j && to + 7 == ChunkEnd(|b|, j);
      SliceOfRest(b, n, from, to);
    }
  }

  lemma {:induction false} ActionAt(actions: seq<Action>, k: nat)
    requires k < |actions|
    ensures |ActionElements(actions)| == 2 * |actions|
    ensures ActionElements(actions)[2 * k] == ToFelt(actions[k].opcode.Code())
    ensures ActionElements(actions)[2 * k + 1] == ToFelt(actions[k].operand)
    decreases |actions|
  {
    var rest := actions[1..];
    if |actions| > 1 { ActionAt(rest, if k == 0 then 0 else k - 1); }
  }

  /** The six numbers, four digests of seven elements each, the two states, the number of actions, and then
      code and operand of every action. */
  lemma ElementOffsets(i: Inputs)
    requires i.Valid()
    ensures var e, h := ToElements(i), i.header;
            && |e| >= 37
            && e[..6] == [h.codecVersion, h.receiptKind, h.protocolVersion, h.verifierVersion, h.suiteId, h.flags]
            && e[6..13] == ChunkElements(h.programId) && e[13..20] == ChunkElements(h.preStateRoot)
            && e[20..27] == ChunkElements(h.blockId) && e[27..34] == ChunkElements(h.postStateRoot)
            && e[34..37] == [i.pre, i.post, |i.actions|] && e[37..] == ActionElements(i.actions)
  {
    var h := i.header;
    NumbersAreSmall(h);
    ChunkCount(h.programId);
    ChunkCount(h.preStateRoot);
    ChunkCount(h.blockId);
    ChunkCount(h.postStateRoot);
    SevenParts(NumberElements(h), ChunkElements(h.programId), ChunkElements(h.preStateRoot), ChunkElements(h.blockId),
               ChunkElements(h.postStateRoot), StateElements(i), ActionElements(i.actions));
    SmallIsItself(i.pre);
    SmallIsItself(i.post);
    SmallIsItself(|i.actions|);
  }
}
