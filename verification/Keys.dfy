/** 48-byte keys addressed bit by bit.

The accumulator and the authorization verifier both walk a 384-bit key from its most significant
bit, with byte indexing and masks. This module keeps those byte-and-mask operations and shows that
each one is the plain operation on the key's sequence of 384 bits. */
module Keys {
  import opened Widths

  type Byte = bv8
  type Bytes = seq<Byte>

  const KEY_BYTES: nat := 48
  const KEY_BITS: nat := 384

  /** A 48-byte array: a key, or a digest. */
  type Root = r: Bytes | |r| == KEY_BYTES witness seq(KEY_BYTES, _ => 0)

  function ZeroRoot(): Root {
    seq(KEY_BYTES, _ => 0)
  }

  const ZERO_ROOT: Root := ZeroRoot()

  // ---------------------------------------------------------------------------------------------
  // One byte
  // ---------------------------------------------------------------------------------------------

  /** `1 << (7 - i)`, as a table; MaskIsShift states the shift form. */
  function Mask(i: nat): Byte
    requires i < 8
  {
    if i == 0 then 0x80 else if i == 1 then 0x40 else if i == 2 then 0x20 else if i == 3 then 0x10
    else if i == 4 then 0x08 else if i == 5 then 0x04 else if i == 6 then 0x02 else 0x01
  }

  /** `0xff << (8 - r)`, the mask that keeps the first r bits of a byte. */
  function HighMask(r: nat): Byte
    requires r < 8
  {
    if r == 0 then 0x00 else if r == 1 then 0x80 else if r == 2 then 0xc0 else if r == 3 then 0xe0
    else if r == 4 then 0xf0 else if r == 5 then 0xf8 else if r == 6 then 0xfc else 0xfe
  }

  lemma MaskIsShift(i: nat)
    requires i < 8
    ensures Mask(i) == 1 << (7 - i)
    ensures 0 < i ==> HighMask(i) == 0xff << (8 - i)
  {
    assert i == 0 || i == 1 || i == 2 || i == 3 || i == 4 || i == 5 || i == 6 || i == 7;
  }

  /** Bit i of a byte, the most significant first. */
  predicate ByteBit(b: Byte, i: nat)
    requires i < 8
  {
    b & Mask(i) != 0
  }

  predicate OneHot(m: Byte) {
    m != 0 && m & (m - 1) == 0
  }

  lemma OneHotOps(b: Byte, m: Byte, n: Byte)
    requires OneHot(m) && OneHot(n)
    ensures ((b ^ m) & n != 0) == (if m == n then b & n == 0 else b & n != 0)
    ensures ((b | m) & n != 0) == (m == n || b & n != 0)
    ensures ((b & !m) & n != 0) == (m != n && b & n != 0)
  {}

  lemma MaskOneHot(i: nat, r: nat)
    requires i < 8 && r < 8
    ensures OneHot(Mask(i)) && OneHot(Mask(r)) && (Mask(i) == Mask(r) <==> i == r)
  {}

  lemma ToggleBit(b: Byte, r: nat, i: nat)
    requires r < 8 && i < 8
    ensures ByteBit(b ^ Mask(r), i) == (if i == r then !ByteBit(b, i) else ByteBit(b, i))
  {
    var m, n := Mask(r), Mask(i);
    MaskOneHot(i, r);
    OneHotOps(b, m, n);
  }

  lemma SetBit(b: Byte, r: nat, i: nat)
    requires r < 8 && i < 8
    ensures ByteBit(b | Mask(r), i) == (i == r || ByteBit(b, i))
  {
    MaskOneHot(i, r);
    OneHotOps(b, Mask(r), Mask(i));
  }

  lemma ClearBit(b: Byte, r: nat, i: nat)
    requires r < 8 && i < 8
    ensures ByteBit(b & !Mask(r), i) == (i != r && ByteBit(b, i))
  {
    MaskOneHot(i, r);
    OneHotOps(b, Mask(r), Mask(i));
  }

  lemma KeepBits(b: Byte, r: nat, i: nat)
    requires r < 8 && i < 8
    ensures ByteBit(b & HighMask(r), i) == (i < r && ByteBit(b, i))
  {}

  lemma ByteBitsInjective(a: Byte, b: Byte)
    requires forall i: nat | i < 8 :: ByteBit(a, i) == ByteBit(b, i)
    ensures a == b
  {
    assert ByteBit(a, 0) == ByteBit(b, 0) && ByteBit(a, 1) == ByteBit(b, 1);
    assert ByteBit(a, 2) == ByteBit(b, 2) && ByteBit(a, 3) == ByteBit(b, 3);
    assert ByteBit(a, 4) == ByteBit(b, 4) && ByteBit(a, 5) == ByteBit(b, 5);
    assert ByteBit(a, 6) == ByteBit(b, 6) && ByteBit(a, 7) == ByteBit(b, 7);
  }

  function ByteOfBits(p: seq<bool>): (b: Byte)
    requires |p| == 8
    ensures forall i: nat | i < 8 :: ByteBit(b, i) == p[i]
  {
    (if p[0] then 0x80 else 0) | (if p[1] then 0x40 else 0) | (if p[2] then 0x20 else 0)
    | (if p[3] then 0x10 else 0) | (if p[4] then 0x08 else 0) | (if p[5] then 0x04 else 0)
    | (if p[6] then 0x02 else 0) | (if p[7] then 0x01 else 0)
  }

  /** The last n binary digits of a number. */
  function NatBits(x: nat, n: nat): (bits: seq<bool>)
    ensures |bits| == n
    decreases n, x
  {
    if n == 0 then [] else NatBits(x / 2, n - 1) + [x % 2 == 1]
  }

  /** The byte of a number below 256. */
  function ByteOf(x: nat): Byte
    requires x < 256
  {
    ByteOfBits(NatBits(x, 8))
  }

  lemma {:induction false} NatBitsInjective(x: nat, y: nat, n: nat)
    requires x < Pow2(n) && y < Pow2(n) && NatBits(x, n) == NatBits(y, n)
    ensures x == y
  {
    if n > 0 {
      var a, b := NatBits(x, n), NatBits(y, n);
      assert a[..n - 1] == NatBits(x / 2, n - 1) && b[..n - 1] == NatBits(y / 2, n - 1);
      assert a[n - 1] == b[n - 1];
      NatBitsInjective(x / 2, y / 2, n - 1);
    }
  }

  lemma ByteOfInjective(x: nat, y: nat)
    requires x < 256 && y < 256
    ensures ByteOf(x) == ByteOf(y) <==> x == y
  {
    if ByteOf(x) == ByteOf(y) {
      SameBits(NatBits(x, 8), NatBits(y, 8));
      assert Pow2(8) == 256;
      NatBitsInjective(x, y, 8);
    }
  }

  lemma SameBits(p: seq<bool>, q: seq<bool>)
    requires |p| == |q| == 8 && ByteOfBits(p) == ByteOfBits(q)
    ensures p == q
  {
    var b := ByteOfBits(p);
    forall i: nat | i < 8 ensures p[i] == q[i] {
      assert ByteBit(b, i) == p[i];
      assert ByteBit(b, i) == q[i];
    }
  }

  // ---------------------------------------------------------------------------------------------
  // Keys: the byte-and-mask operations
  // ---------------------------------------------------------------------------------------------

  predicate KeyBit(key: Root, depth: nat)
    requires depth < KEY_BITS
  {
    ByteBit(key[depth / 8], depth % 8)
  }

  /** Keeps the first depth bits of the key and clears the rest. */
  function KeyPrefix(key: Root, depth: nat): Root
    requires depth <= KEY_BITS
  {
    if depth == KEY_BITS then key
    else
      var byte := depth / 8;
      var retained := depth % 8;
      var first := if retained == 0 then 0 else key[byte] & HighMask(retained);
      key[..byte] + [first] + seq(KEY_BYTES - byte - 1, _ => 0)
  }

  function ToggleKeyBit(key: Root, depth: nat): Root
    requires depth < KEY_BITS
  {
    key[depth / 8 := key[depth / 8] ^ Mask(depth % 8)]
  }

  function SetKeyBit(key: Root, depth: nat, value: bool): Root
    requires depth < KEY_BITS
  {
    var mask := Mask(depth % 8);
    key[depth / 8 := if value then key[depth / 8] | mask else key[depth / 8] & !mask]
  }

  // ---------------------------------------------------------------------------------------------
  // Keys as bit sequences
  // ---------------------------------------------------------------------------------------------

  /** The key as its 384 bits, most significant first. */
  function KeyBits(key: Root): (p: seq<bool>)
    ensures |p| == KEY_BITS
    ensures forall i: nat | i < KEY_BITS :: p[i] == KeyBit(key, i)
  {
    seq(KEY_BITS, i requires 0 <= i < KEY_BITS => KeyBit(key, i))
  }

  function KeyOfBits(p: seq<bool>): (key: Root)
    requires |p| == KEY_BITS
    ensures KeyBits(key) == p
  {
    var key := seq(KEY_BYTES, j requires 0 <= j < KEY_BYTES => ByteOfBits(p[8 * j..8 * j + 8]));
    assert forall i: nat | i < KEY_BITS :: KeyBit(key, i) == p[8 * (i / 8)..8 * (i / 8) + 8][i % 8];
    assert forall i: nat | i < KEY_BITS :: p[8 * (i / 8)..8 * (i / 8) + 8][i % 8] == p[i];
    key
  }

  lemma KeyBitsInjective(a: Root, b: Root)
    requires KeyBits(a) == KeyBits(b)
    ensures a == b
  {
    forall j | 0 <= j < KEY_BYTES ensures a[j] == b[j] {
      forall i: nat | i < 8 ensures ByteBit(a[j], i) == ByteBit(b[j], i) {
        var k := 8 * j + i;
        assert k / 8 == j && k % 8 == i;
        assert KeyBit(a, k) == KeyBits(a)[k] == KeyBits(b)[k] == KeyBit(b, k);
      }
      ByteBitsInjective(a[j], b[j]);
    }
  }

  function Zeros(n: nat): seq<bool> {
    seq(n, _ => false)
  }

  /** The mask-and-fill prefix is "first depth bits, then zeros". */
  lemma KeyPrefixBits(key: Root, depth: nat)
    requires depth <= KEY_BITS
    ensures KeyBits(KeyPrefix(key, depth)) == KeyBits(key)[..depth] + Zeros(KEY_BITS - depth)
  {
    var out := KeyPrefix(key, depth);
    var spec := KeyBits(key)[..depth] + Zeros(KEY_BITS - depth);
    forall i: nat | i < KEY_BITS ensures KeyBits(out)[i] == spec[i] {
      if depth < KEY_BITS {
        if i / 8 == depth / 8 {
          KeepBits(key[i / 8], depth % 8, i % 8);
        }
        assert i / 8 > depth / 8 ==> out[i / 8] == 0;
      }
    }
  }

  /** Changing one bit of one byte changes exactly that bit of the key. */
  lemma ReplaceByteBits(key: Root, depth: nat, b: Byte, value: bool)
    requires depth < KEY_BITS
    requires forall j: nat | j < 8 :: ByteBit(b, j) == if j == depth % 8 then value else ByteBit(key[depth / 8], j)
    ensures KeyBits(key[depth / 8 := b]) == KeyBits(key)[depth := value]
  {
    var out, spec := KeyBits(key[depth / 8 := b]), KeyBits(key)[depth := value];
    forall i: nat | i < KEY_BITS ensures out[i] == spec[i] {
      assert i == 8 * (i / 8) + i % 8 && depth == 8 * (depth / 8) + depth % 8;
    }
  }

  lemma ToggleKeyBitBits(key: Root, depth: nat)
    requires depth < KEY_BITS
    ensures KeyBits(ToggleKeyBit(key, depth)) == KeyBits(key)[depth := !KeyBits(key)[depth]]
  {
    var b := key[depth / 8];
    forall j: nat | j < 8 { ToggleBit(b, depth % 8, j); }
    ReplaceByteBits(key, depth, b ^ Mask(depth % 8), !KeyBits(key)[depth]);
  }

  lemma SetOneBit(key: Root, depth: nat)
    requires depth < KEY_BITS
    ensures KeyBits(SetKeyBit(key, depth, true)) == KeyBits(key)[depth := true]
  {
    var b := key[depth / 8];
    forall j: nat | j < 8 { SetBit(b, depth % 8, j); }
    ReplaceByteBits(key, depth, b | Mask(depth % 8), true);
  }

  lemma ClearOneBit(key: Root, depth: nat)
    requires depth < KEY_BITS
    ensures KeyBits(SetKeyBit(key, depth, false)) == KeyBits(key)[depth := false]
  {
    var b := key[depth / 8];
    forall j: nat | j < 8 { ClearBit(b, depth % 8, j); }
    ReplaceByteBits(key, depth, b & !Mask(depth % 8), false);
  }

  lemma SetKeyBitBits(key: Root, depth: nat, value: bool)
    requires depth < KEY_BITS
    ensures KeyBits(SetKeyBit(key, depth, value)) == KeyBits(key)[depth := value]
  {
    if value { SetOneBit(key, depth); } else { ClearOneBit(key, depth); }
  }

  /** Two keys have the same depth-bit prefix key exactly when their first depth bits agree. */
  lemma KeyPrefixAgree(a: Root, b: Root, depth: nat)
    requires depth <= KEY_BITS
    ensures KeyPrefix(a, depth) == KeyPrefix(b, depth) <==> KeyBits(a)[..depth] == KeyBits(b)[..depth]
  {
    KeyPrefixBits(a, depth);
    KeyPrefixBits(b, depth);
    if KeyPrefix(a, depth) == KeyPrefix(b, depth) {
      assert KeyBits(a)[..depth] == KeyBits(KeyPrefix(a, depth))[..depth];
      assert KeyBits(b)[..depth] == KeyBits(KeyPrefix(b, depth))[..depth];
    }
    if KeyBits(a)[..depth] == KeyBits(b)[..depth] {
      KeyBitsInjective(KeyPrefix(a, depth), KeyPrefix(b, depth));
    }
  }
}
