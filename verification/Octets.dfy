/** Byte strings as sequences of numbers below 256, and fixed-width big-endian integers in them. */
module Octets {
  import opened Widths

  type Octet = x: int | 0 <= x < 256
  type Octets = seq<Octet>

  /** `to_be_bytes` of an unsigned integer of the given width. */
  function ToBE(n: nat, width: nat): (b: Octets)
    requires n < Pow256(width)
    ensures |b| == width
  {
    if width == 0 then [] else ToBE(n / 256, width - 1) + [n % 256]
  }

  /** `from_be_bytes`. */
  function FromBE(b: Octets): (n: nat)
    ensures n < Pow256(|b|)
  {
    if b == [] then 0 else 256 * FromBE(b[..|b| - 1]) + b[|b| - 1]
  }

  lemma {:induction false} FromToBE(n: nat, width: nat)
    requires n < Pow256(width)
    ensures FromBE(ToBE(n, width)) == n
  {
    if width > 0 {
      var b := ToBE(n, width);
      assert b[..width - 1] == ToBE(n / 256, width - 1);
      FromToBE(n / 256, width - 1);
    }
  }

  lemma {:induction false} ToFromBE(b: Octets)
    ensures ToBE(FromBE(b), |b|) == b
  {
    if b != [] {
      var front, last := b[..|b| - 1], b[|b| - 1];
      ToFromBE(front);
      assert FromBE(b) / 256 == FromBE(front) && FromBE(b) % 256 == last;
      assert b == front + [last];
    }
  }

  function Zeros(n: nat): (b: Octets)
    ensures |b| == n
    ensures forall i | 0 <= i < n :: b[i] == 0
  {
    seq(n, _ => 0)
  }

  lemma {:induction false} ZeroIsZeros(width: nat)
    ensures 0 < Pow256(width)
    ensures ToBE(0, width) == Zeros(width)
  {
    if width > 0 {
      ZeroIsZeros(width - 1);
      assert ToBE(0, width) == ToBE(0, width - 1) + [0];
    }
  }

  lemma {:induction false} FromZeros(width: nat)
    ensures FromBE(Zeros(width)) == 0
  {
    ZeroIsZeros(width);
    FromToBE(0, width);
  }

  // ---------------------------------------------------------------------------------------------
  // Reading from the front
  // ---------------------------------------------------------------------------------------------

  /** An integer taken from the front, and what follows it. */
  datatype IntRead = IntRead(value: nat, rest: Octets)

  function ReadInt(b: Octets, width: nat): IntRead
    requires width <= |b|
  {
    IntRead(FromBE(b[..width]), b[width..])
  }

  lemma ReadWritten(n: nat, width: nat, rest: Octets)
    requires n < Pow256(width)
    ensures ReadInt(ToBE(n, width) + rest, width) == IntRead(n, rest)
  {
    var b := ToBE(n, width) + rest;
    assert b[..width] == ToBE(n, width) && b[width..] == rest;
    FromToBE(n, width);
  }

  lemma WriteRead(b: Octets, width: nat)
    requires width <= |b|
    ensures ReadInt(b, width).value < Pow256(width)
    ensures b == ToBE(ReadInt(b, width).value, width) + ReadInt(b, width).rest
  {
    FrontBack(b[..width], b[width..], width);
    assert b == b[..width] + b[width..];
  }

  lemma FrontBack(front: Octets, rest: Octets, width: nat)
    requires |front| == width
    ensures FromBE(front) < Pow256(width) && ToBE(FromBE(front), width) + rest == front + rest
  {
    ToFromBE(front);
  }

  lemma TakeFront(front: Octets, rest: Octets)
    ensures (front + rest)[..|front|] == front && (front + rest)[|front|..] == rest
  {}
}
