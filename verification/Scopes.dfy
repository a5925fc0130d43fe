/** Resource scopes: everything, one 384-bit resource, or a bit prefix. The byte-and-mask tests of
the verifier against the sets of resources they stand for. */
module Scopes {
  import opened Keys

  /** As decoded; an exact scope counts as 384 bits. */
  datatype Scope = Any | Exact(value: Root) | Prefix(bits: nat, value: Root) {
    function Bits(): nat
      requires !Any?
    {
      if Exact? then KEY_BITS else bits
    }

    /** The decoder's rules: a prefix is a proper one, and its unused bits are zero. */
    predicate Decoded() {
      Prefix? ==> 0 < bits < KEY_BITS && NormalizedPrefix(value, bits)
    }
  }

  predicate NormalizedPrefix(value: Root, bits: nat)
    requires bits < KEY_BITS
  {
    var full, rem := bits / 8, bits % 8;
    && (rem != 0 ==> value[full] & !HighMask(rem) == 0)
    && forall i | full + (if rem != 0 then 1 else 0) <= i < KEY_BYTES :: value[i] == 0
  }

  /** The loop over the bytes after the prefix. */
  method CheckNormalizedPrefix(value: Root, bits: nat) returns (normalized: bool)
    requires bits < KEY_BITS
    ensures normalized <==> NormalizedPrefix(value, bits)
  {
    var full, rem := bits / 8, bits % 8;
    var start := full;
    if rem != 0 {
      if value[full] & !HighMask(rem) != 0 {
        return false;
      }
      start := start + 1;
    }
    for i := start to KEY_BYTES
      invariant forall k | start <= k < i :: value[k] == 0
    {
      if value[i] != 0 {
        return false;
      }
    }
    normalized := true;
  }

  /** `b >> (8 - rem)`, as a table; HighBitsIsShift states the shift form. */
  function HighBits(b: Byte, rem: nat): Byte
    requires 0 < rem < 8
  {
    if rem == 1 then b >> 7 else if rem == 2 then b >> 6 else if rem == 3 then b >> 5 else if rem == 4 then b >> 4
    else if rem == 5 then b >> 3 else if rem == 6 then b >> 2 else b >> 1
  }

  lemma HighBitsIsShift(b: Byte, rem: nat)
    requires 0 < rem < 8
    ensures HighBits(b, rem) == b >> (8 - rem)
  {
    assert rem == 1 || rem == 2 || rem == 3 || rem == 4 || rem == 5 || rem == 6 || rem == 7;
  }

  predicate SameShifted(a: Root, b: Root, bits: nat)
    requires bits < KEY_BITS
  {
    var full, rem := bits / 8, bits % 8;
    a[..full] == b[..full] && (rem == 0 || HighBits(a[full], rem) == HighBits(b[full], rem))
  }

  predicate SameMasked(a: Root, b: Root, bits: nat)
    requires bits < KEY_BITS
  {
    SameUnder(a, b, bits, HighMask(bits % 8))
  }

  predicate SameUnder(a: Root, b: Root, bits: nat, mask: Byte)
    requires bits < KEY_BITS
  {
    var full, rem := bits / 8, bits % 8;
    a[..full] == b[..full] && (rem == 0 || a[full] & mask == b[full] & mask)
  }

  /** The selector test of the policy evaluator: bytes, then the shifted remainder. */
  predicate Contains(s: Scope, resource: Root)
    requires s.Prefix? ==> s.bits < KEY_BITS
  {
    match s
    case Any => true
    case Exact(value) => value == resource
    case Prefix(bits, value) => SameShifted(value, resource, bits)
  }

  /** The attenuation test of the capability verifier: bytes, then the masked remainder. */
  predicate ScopeSubset(child: Scope, parent: Scope)
    requires parent.Prefix? ==> parent.bits < KEY_BITS
  {
    if parent.Any? then true
    else if child.Any? then false
    else if parent.Exact? then child.Exact? && child.value == parent.value
    else if child.Bits() < parent.bits then false
    else SameMasked(child.value, parent.value, parent.bits)
  }

  // ---------------------------------------------------------------------------------------------
  // Both tests compare leading bits
  // ---------------------------------------------------------------------------------------------

  ghost predicate SameHigh(a: Byte, b: Byte, rem: nat)
    requires rem <= 8
  {
    forall i: nat | i < rem :: ByteBit(a, i) == ByteBit(b, i)
  }

  lemma MaskedEqual(a: Byte, b: Byte, rem: nat)
    requires 0 < rem < 8
    ensures a & HighMask(rem) == b & HighMask(rem) <==> HighBits(a, rem) == HighBits(b, rem)
  {}

  lemma MaskedIsSameHigh(a: Byte, b: Byte, rem: nat)
    requires 0 < rem < 8
    ensures a & HighMask(rem) == b & HighMask(rem) <==> SameHigh(a, b, rem)
  {
    var x, y := a & HighMask(rem), b & HighMask(rem);
    if x == y {
      forall i: nat | i < rem ensures ByteBit(a, i) == ByteBit(b, i) {
        KeepBits(a, rem, i);
        KeepBits(b, rem, i);
      }
    }
    if SameHigh(a, b, rem) {
      forall i: nat | i < 8 ensures ByteBit(x, i) == ByteBit(y, i) {
        KeepBits(a, rem, i);
        KeepBits(b, rem, i);
      }
      ByteBitsInjective(x, y);
    }
  }

  lemma ShiftedIsSameHigh(a: Byte, b: Byte, rem: nat)
    requires 0 < rem < 8
    ensures HighBits(a, rem) == HighBits(b, rem) <==> SameHigh(a, b, rem)
  {
    MaskedEqual(a, b, rem);
    MaskedIsSameHigh(a, b, rem);
  }

  lemma EqualIsSameHigh(a: Byte, b: Byte)
    ensures a == b <==> SameHigh(a, b, 8)
  {
    if SameHigh(a, b, 8) { ByteBitsInjective(a, b); }
  }

  /** Full bytes and a remainder agree exactly when the leading bits agree. */
  lemma BytesAgree(a: Root, b: Root, bits: nat)
    requires bits < KEY_BITS
    ensures var full, rem := bits / 8, bits % 8;
            a[..full] == b[..full] && (rem == 0 || SameHigh(a[full], b[full], rem))
            <==> KeyBits(a)[..bits] == KeyBits(b)[..bits]
  {
    var full, rem := bits / 8, bits % 8;
    if a[..full] == b[..full] && (rem == 0 || SameHigh(a[full], b[full], rem)) {
      forall k: nat | k < bits ensures KeyBits(a)[k] == KeyBits(b)[k] {
        assert k / 8 < full ==> a[k / 8] == a[..full][k / 8] && b[k / 8] == b[..full][k / 8];
      }
    }
    if KeyBits(a)[..bits] == KeyBits(b)[..bits] {
      forall j: nat, i: nat | j <= full && i < 8 && 8 * j + i < bits ensures ByteBit(a[j], i) == ByteBit(b[j], i) {
        var k := 8 * j + i;
        assert k / 8 == j && k % 8 == i;
        assert KeyBits(a)[..bits][k] == KeyBits(b)[..bits][k];
      }
      forall j: nat | j < full ensures a[j] == b[j] {
        assert SameHigh(a[j], b[j], 8);
        EqualIsSameHigh(a[j], b[j]);
      }
    }
  }

  /** The set of resources a scope stands for, over bit sequences. */
  ghost predicate Covers(s: Scope, resource: Root)
    requires s.Prefix? ==> s.bits < KEY_BITS
  {
    match s
    case Any => true
    case Exact(value) => resource == value
    case Prefix(bits, value) => KeyBits(resource)[..bits] == KeyBits(value)[..bits]
  }

  lemma ShiftedIsBits(a: Root, b: Root, bits: nat)
    requires bits < KEY_BITS
    ensures SameShifted(a, b, bits) <==> KeyBits(a)[..bits] == KeyBits(b)[..bits]
  {
    BytesAgree(a, b, bits);
    if bits % 8 != 0 { ShiftedIsSameHigh(a[bits / 8], b[bits / 8], bits % 8); }
  }

  lemma SameUnderIsBits(a: Root, b: Root, bits: nat, mask: Byte)
    requires bits < KEY_BITS
    requires bits % 8 != 0 ==>
               (a[bits / 8] & mask == b[bits / 8] & mask <==> SameHigh(a[bits / 8], b[bits / 8], bits % 8))
    ensures SameUnder(a, b, bits, mask) <==> KeyBits(a)[..bits] == KeyBits(b)[..bits]
  {
    BytesAgree(a, b, bits);
  }

  lemma MaskedIsBits(a: Root, b: Root, bits: nat)
    requires bits < KEY_BITS
    ensures SameMasked(a, b, bits) <==> KeyBits(a)[..bits] == KeyBits(b)[..bits]
  {
    if bits % 8 != 0 { MaskedIsSameHigh(a[bits / 8], b[bits / 8], bits % 8); }
    SameUnderIsBits(a, b, bits, HighMask(bits % 8));
  }

  lemma ContainsIsCovers(s: Scope, resource: Root)
    requires s.Prefix? ==> s.bits < KEY_BITS
    ensures Contains(s, resource) <==> Covers(s, resource)
  {
    if s.Prefix? { ShiftedIsBits(s.value, resource, s.bits); }
  }

  /** The masked comparison compares the leading bits of the parent's prefix. */
  lemma SubsetOfPrefix(child: Scope, parent: Scope)
    requires parent.Prefix? && parent.bits < KEY_BITS && !child.Any?
    ensures ScopeSubset(child, parent) <==>
            child.Bits() >= parent.bits && KeyBits(child.value)[..parent.bits] == KeyBits(parent.value)[..parent.bits]
  {
    MaskedIsBits(child.value, parent.value, parent.bits);
  }

  // ---------------------------------------------------------------------------------------------
  // The subset test is set inclusion
  // ---------------------------------------------------------------------------------------------

  ghost predicate Included(child: Scope, parent: Scope)
    requires (child.Prefix? ==> child.bits < KEY_BITS) && (parent.Prefix? ==> parent.bits < KEY_BITS)
  {
    forall r: Root :: Contains(child, r) ==> Contains(parent, r)
  }

  lemma SubsetIsIncluded(child: Scope, parent: Scope)
    requires child.Decoded() && parent.Decoded() && ScopeSubset(child, parent)
    ensures Included(child, parent)
  {
    forall r: Root | Contains(child, r) ensures Contains(parent, r) {
      ContainsIsCovers(child, r);
      ContainsIsCovers(parent, r);
      if parent.Prefix? {
        SubsetOfPrefix(child, parent);
        if child.Prefix? {
          assert KeyBits(r)[..parent.bits] == KeyBits(r)[..child.bits][..parent.bits];
          assert KeyBits(child.value)[..parent.bits] == KeyBits(child.value)[..child.bits][..parent.bits];
        }
      }
    }
  }

  /** A resource outside the parent: flip one of the bits it fixes. */
  lemma FlippedIsOutside(parent: Scope, r: Root, at: nat)
    requires parent.Decoded() && !parent.Any? && at < parent.Bits() && Covers(parent, r)
    ensures !Contains(parent, ToggleKeyBit(r, at))
  {
    ToggleKeyBitBits(r, at);
    var flipped := ToggleKeyBit(r, at);
    ContainsIsCovers(parent, flipped);
    if parent.Prefix? {
      assert KeyBits(flipped)[..parent.bits][at] != KeyBits(r)[..parent.bits][at];
    } else {
      assert KeyBits(flipped)[at] != KeyBits(r)[at];
    }
  }

  /** Flipping a bit that a prefix leaves free stays inside it. */
  lemma FlippedStaysInside(child: Scope, at: nat)
    requires child.Prefix? && child.bits <= at < KEY_BITS
    ensures Contains(child, child.value) && Contains(child, ToggleKeyBit(child.value, at))
  {
    var flipped := ToggleKeyBit(child.value, at);
    ToggleKeyBitBits(child.value, at);
    ContainsIsCovers(child, child.value);
    ContainsIsCovers(child, flipped);
    assert KeyBits(flipped)[..child.bits] == KeyBits(child.value)[..child.bits];
  }

  lemma IncludedIsSubset(child: Scope, parent: Scope)
    requires child.Decoded() && parent.Decoded() && Included(child, parent)
    ensures ScopeSubset(child, parent)
  {
    if parent.Any? {
    } else if child.Any? {
      FlippedIsOutside(parent, parent.value, 0);
    } else {
      var v := child.value;
      ContainsIsCovers(child, v);
      assert Contains(child, v) && Contains(parent, v);
      ContainsIsCovers(parent, v);
      if child.Prefix? && child.bits < parent.Bits() {
        FlippedStaysInside(child, child.bits);
        FlippedIsOutside(parent, v, child.bits);
      } else if parent.Prefix? {
        SubsetOfPrefix(child, parent);
      }
    }
  }

  /** The byte-and-mask subset test holds if and only if every one of the 2^384 resources of the child
      is a resource of the parent. */
  lemma ScopeSubsetIsInclusion(child: Scope, parent: Scope)
    requires child.Decoded() && parent.Decoded()
    ensures ScopeSubset(child, parent) <==> Included(child, parent)
  {
    if ScopeSubset(child, parent) { SubsetIsIncluded(child, parent); }
    if Included(child, parent) { IncludedIsSubset(child, parent); }
  }

  // ---------------------------------------------------------------------------------------------
  // One decoded scope per set of resources
  // ---------------------------------------------------------------------------------------------

  lemma LowBitsClear(b: Byte, rem: nat, i: nat)
    requires 0 < rem <= i < 8 && b & !HighMask(rem) == 0
    ensures !ByteBit(b, i)
  {}

  lemma NormalizedBits(value: Root, bits: nat, k: nat)
    requires bits <= k < KEY_BITS && NormalizedPrefix(value, bits)
    ensures !KeyBits(value)[k]
  {
    if k / 8 == bits / 8 && bits % 8 != 0 { LowBitsClear(value[k / 8], bits % 8, k % 8); }
  }

  lemma ClearBitsAreZero(b: Byte)
    requires forall i: nat | i < 8 :: !ByteBit(b, i)
    ensures b == 0
  {
    ByteBitsInjective(b, 0);
  }

  lemma ClearLowBits(b: Byte, rem: nat)
    requires 0 < rem < 8 && forall i: nat | rem <= i < 8 :: !ByteBit(b, i)
    ensures b & !HighMask(rem) == 0
  {
    forall i: nat | i < 8 ensures ByteBit(b & HighMask(rem), i) == ByteBit(b, i) {
      KeepBits(b, rem, i);
    }
    ByteBitsInjective(b & HighMask(rem), b);
    MaskSplits(b, HighMask(rem));
  }

  lemma MaskSplits(b: Byte, mask: Byte)
    requires b & mask == b
    ensures b & !mask == 0
  {}

  /** The decoder takes a prefix exactly when it is a proper one and every bit after it is zero. */
  lemma PrefixDecodesExactly(bits: nat, value: Root)
    ensures Prefix(bits, value).Decoded() <==>
            0 < bits < 384 && forall k: nat | bits <= k < 384 :: !KeyBits(value)[k]
  {
    if 0 < bits < KEY_BITS {
      if NormalizedPrefix(value, bits) {
        forall k: nat | bits <= k < KEY_BITS ensures !KeyBits(value)[k] { NormalizedBits(value, bits, k); }
      }
      if forall k: nat | bits <= k < KEY_BITS :: !KeyBits(value)[k] {
        ZeroAfterIsNormalized(value, bits);
      }
    }
  }

  lemma ZeroAfterIsNormalized(value: Root, bits: nat)
    requires 0 < bits < KEY_BITS && forall k: nat | bits <= k < KEY_BITS :: !KeyBits(value)[k]
    ensures NormalizedPrefix(value, bits)
  {
    var full, rem := bits / 8, bits % 8;
    forall j: nat, i: nat | j < KEY_BYTES && i < 8 && bits <= 8 * j + i ensures !ByteBit(value[j], i) {
      var k := 8 * j + i;
      assert k / 8 == j && k % 8 == i && !KeyBits(value)[k];
    }
    if rem != 0 { ClearLowBits(value[full], rem); }
    forall j | full + (if rem != 0 then 1 else 0) <= j < KEY_BYTES ensures value[j] == 0 {
      ClearBitsAreZero(value[j]);
    }
  }

  lemma SamePrefixIsEqual(a: Scope, b: Scope)
    requires a.Decoded() && b.Decoded() && a.Prefix? && b.Prefix? && a.bits == b.bits
    requires KeyBits(a.value)[..a.bits] == KeyBits(b.value)[..a.bits]
    ensures a == b
  {
    forall k: nat | k < KEY_BITS ensures KeyBits(a.value)[k] == KeyBits(b.value)[k] {
      if k < a.bits {
        assert KeyBits(a.value)[..a.bits][k] == KeyBits(b.value)[..a.bits][k];
      } else {
        NormalizedBits(a.value, a.bits, k);
        NormalizedBits(b.value, b.bits, k);
      }
    }
    KeyBitsInjective(a.value, b.value);
  }

  /** Decoded scopes that stand for the same resources are the same scope: the decoder's normal form is
      canonical. */
  lemma DecodedScopeIsCanonical(a: Scope, b: Scope)
    requires a.Decoded() && b.Decoded()
    ensures a == b <==> forall r: Root :: Contains(a, r) <==> Contains(b, r)
  {
    if forall r: Root :: Contains(a, r) <==> Contains(b, r) {
      IncludedIsSubset(a, b);
      IncludedIsSubset(b, a);
      if a.Prefix? && b.Prefix? {
        SubsetOfPrefix(a, b);
        SubsetOfPrefix(b, a);
        SamePrefixIsEqual(a, b);
      }
    }
  }
}
