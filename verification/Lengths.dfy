/** The canonical length prefix: seven bits a byte, the least significant first, the high bit set on
every byte but the last. One encoder and two decoders, written independently in Go and in Python. */
module Lengths {
  import opened Arithmetic
  import opened Octets
  import opened Widths

  datatype LengthError = UnexpectedEnd | LengthOverflow | NonminimalLength | BoundExceeded

  datatype LengthResult = Ok(value: nat, width: nat) | Err(error: LengthError)

  function Payload(b: Octet): nat {
    b % 128
  }

  predicate Continues(b: Octet) {
    b >= 128
  }

  function Pow128(n: nat): (p: nat)
    ensures 1 <= p
  {
    if n == 0 then 1 else 128 * Pow128(n - 1)
  }

  lemma SmallPowers()
    ensures Pow128(0) == 1 && Pow128(1) == 0x80 && Pow128(2) == 0x4000 && Pow128(3) == 0x20_0000
    ensures Pow128(4) == 0x1000_0000 && Pow128(5) == 0x8_0000_0000
  {
    assert Pow128(2) == 128 * Pow128(1);
    assert Pow128(3) == 128 * Pow128(2);
    assert Pow128(4) == 128 * Pow128(3);
  }

  function CanonicalLengthWidth(value: nat): (width: nat)
    ensures 1 <= width <= 5
  {
    if value < 0x80 then 1 else if value < 0x4000 then 2 else if value < 0x20_0000 then 3
    else if value < 0x1000_0000 then 4 else 5
  }

  // ---------------------------------------------------------------------------------------------
  // Encoding
  // ---------------------------------------------------------------------------------------------

  function LengthBytes(value: nat): (b: Octets)
    ensures b != []
  {
    if value < 128 then [value] else [value % 128 + 128] + LengthBytes(value / 128)
  }

  method EncodeCanonicalLength(value: nat) returns (output: Octets)
    requires value < U32_LIMIT
    ensures output == LengthBytes(value)
  {
    output := [];
    var left := value;
    while true
      invariant output + LengthBytes(left) == LengthBytes(value)
      decreases left
    {
      var current := left % 128;
      ghost var before := left;
      left := left / 128;
      if left != 0 {
        current := current + 128;
      }
      output := output + [current];
      if left == 0 {
        assert LengthBytes(before) == [current];
        return;
      }
      assert LengthBytes(before) == [current] + LengthBytes(left);
    }
  }

  // ---------------------------------------------------------------------------------------------
  // The value of a run of bytes
  // ---------------------------------------------------------------------------------------------

  function Value(p: Octets): nat {
    if p == [] then 0 else Payload(p[0]) + 128 * Value(p[1..])
  }

  lemma {:induction false} ValueSnoc(p: Octets, x: Octet)
    ensures Value(p + [x]) == Value(p) + Payload(x) * Pow128(|p|)
  {
    if p == [] {
      assert p + [x] == [x] && [x][1..] == [];
    } else {
      assert (p + [x])[1..] == p[1..] + [x];
      ValueSnoc(p[1..], x);
      Rearranged(128, Payload(x), Pow128(|p| - 1));
    }
  }

  lemma {:induction false} ValueBelow(p: Octets)
    ensures Value(p) < Pow128(|p|)
  {
    if p != [] { ValueBelow(p[1..]); }
  }

  /** The index of the last byte of a length: the first byte without its high bit. */
  function Stop(b: Octets): (t: nat)
    ensures t <= |b| && (t < |b| ==> !Continues(b[t]))
    ensures forall i | 0 <= i < t :: Continues(b[i])
  {
    if b == [] || !Continues(b[0]) then 0 else 1 + Stop(b[1..])
  }

  lemma {:induction false} StopIs(b: Octets, t: nat)
    requires t <= |b| && (forall i | 0 <= i < t :: Continues(b[i])) && (t < |b| ==> !Continues(b[t]))
    ensures Stop(b) == t
  {
    if t > 0 {
      assert b[t..] == b[1..][t - 1..];
      forall i | 0 <= i < t - 1 ensures Continues(b[1..][i]) {}
      StopIs(b[1..], t - 1);
    }
  }

  /** One length: high bits on all but the last byte, and no superfluous last byte. */
  predicate Minimal(p: Octets) {
    && p != [] && Stop(p) == |p| - 1
    && (|p| == 1 || Payload(p[|p| - 1]) != 0)
  }

  lemma MinimalTail(p: Octets)
    requires Minimal(p) && |p| > 1
    ensures Minimal(p[1..]) && Continues(p[0])
  {
    var q := p[1..];
    assert Continues(p[0]);
    assert q[|q| - 1] == p[|p| - 1] && !Continues(p[|p| - 1]);
    StopIs(q, |q| - 1);
  }

  lemma MinimalCons(x: Octet, q: Octets)
    requires Continues(x) && Minimal(q) && Payload(q[|q| - 1]) != 0
    ensures var p := [x] + q; Minimal(p) && p[1..] == q && p[|p| - 1] == q[|q| - 1]
  {
    var p := [x] + q;
    assert p[1..] == q && p[|p| - 1] == q[|q| - 1];
    forall i | 0 <= i < |p| - 1 ensures Continues(p[i]) {
      if i > 0 { assert p[i] == q[i - 1]; }
    }
    StopIs(p, |p| - 1);
  }

  lemma ValueCons(x: Octet, q: Octets)
    ensures Value([x] + q) == Payload(x) + 128 * Value(q)
  {
    assert ([x] + q)[1..] == q;
  }

  lemma {:induction false} EncodedIsMinimal(value: nat)
    ensures Minimal(LengthBytes(value)) && Value(LengthBytes(value)) == value
    ensures value > 0 ==> Payload(LengthBytes(value)[|LengthBytes(value)| - 1]) != 0
  {
    if value < 128 {
      var p := LengthBytes(value);
      assert p == [value] && p[1..] == [];
      StopIs(p, 0);
    } else {
      var x, q := value % 128 + 128, LengthBytes(value / 128);
      EncodedIsMinimal(value / 128);
      MinimalCons(x, q);
      ValueCons(x, q);
    }
  }

  /** Only one byte string stands for a value. */
  lemma {:induction false} MinimalIsEncoded(p: Octets)
    requires Minimal(p)
    ensures p == LengthBytes(Value(p)) && (|p| > 1 ==> Value(p) >= 128)
  {
    if |p| == 1 {
      assert p[1..] == [] && p == [p[0]];
    } else {
      var q := p[1..];
      MinimalTail(p);
      MinimalIsEncoded(q);
      assert Value(q) > 0 by {
        if |q| == 1 { assert q[1..] == [] && Value(q) == Payload(q[0]); }
      }
      assert p == [p[0]] + q;
      assert Value(p) / 128 == Value(q) && Value(p) % 128 == Payload(p[0]);
    }
  }

  // ---------------------------------------------------------------------------------------------
  // The Go decoder
  // ---------------------------------------------------------------------------------------------

  function GoLength(input: Octets): LengthResult {
    var t := Stop(input);
    if t >= 5 then Err(LengthOverflow)
    else if t == |input| then Err(UnexpectedEnd)
    else
      var value := Value(input[..t + 1]);
      if value >= U32_LIMIT then Err(LengthOverflow)
      else if CanonicalLengthWidth(value) != t + 1 then Err(NonminimalLength)
      else Ok(value, t + 1)
  }

  method DecodeLength(input: Octets) returns (r: LengthResult)
    ensures r == GoLength(input)
  {
    var value := 0;
    var place := 1;
    for i := 0 to 5
      invariant i <= |input| && (forall k | 0 <= k < i :: Continues(input[k]))
      invariant value == Value(input[..i]) && place == Pow128(i)
    {
      if i >= |input| {
        StopIs(input, i);
        return Err(UnexpectedEnd);
      }
      var b := input[i];
      assert input[..i + 1] == input[..i] + [b];
      ValueSnoc(input[..i], b);
      value := value + Payload(b) * place;
      if !Continues(b) {
        StopIs(input, i);
        if value >= U32_LIMIT {
          return Err(LengthOverflow);
        }
        if CanonicalLengthWidth(value) != i + 1 {
          return Err(NonminimalLength);
        }
        return Ok(value, i + 1);
      }
      place := place * 128;
    }
    r := Err(LengthOverflow);
  }

  // ---------------------------------------------------------------------------------------------
  // The Python decoder
  // ---------------------------------------------------------------------------------------------

  function PythonLength(input: Octets, maximum: nat): LengthResult {
    var t := Stop(input);
    if |input| >= 5 && t >= 4 && Payload(input[4]) > 0x0f then Err(LengthOverflow)
    else if t >= 5 then Err(LengthOverflow)
    else if t == |input| then Err(UnexpectedEnd)
    else if t != 0 && Payload(input[t]) == 0 then Err(NonminimalLength)
    else if Value(input[..t + 1]) > maximum then Err(BoundExceeded)
    else Ok(Value(input[..t + 1]), t + 1)
  }

  class Decoder {
    const data: Octets
    var offset: nat

    ghost predicate Valid()
      reads this
    {
      offset <= |data|
    }

    constructor (data: Octets)
      ensures Valid() && this.data == data && offset == 0
    {
      this.data := data;
      offset := 0;
    }

    /** Reads a length at the offset and moves past it; on an error the offset is of no further use. */
    method Length(maximum: nat) returns (r: LengthResult)
      requires Valid()
      modifies this
      ensures Valid() && r == PythonLength(old(data[offset..]), maximum)
      ensures r.Ok? ==> offset == old(offset) + r.width
    {
      ghost var input := data[offset..];
      var value, place := 0, 1;
      for count := 1 to 6
        invariant Valid() && offset == old(offset) + count - 1
        invariant forall k | 0 <= k < count - 1 :: Continues(input[k])
        invariant value == Value(input[..count - 1]) && place == Pow128(count - 1)
        invariant |input| >= 5 && count == 6 ==> Payload(input[4]) <= 0x0f
      {
        if offset == |data| {
          StopIs(input, count - 1);
          return Err(UnexpectedEnd);
        }
        var b := data[offset];
        assert b == input[count - 1] && input[..count] == input[..count - 1] + [b];
        ValueSnoc(input[..count - 1], b);
        offset := offset + 1;
        if count == 5 && Payload(b) > 0x0f {
          LateStop(input);
          return Err(LengthOverflow);
        }
        value := value + Payload(b) * place;
        if !Continues(b) {
          StopIs(input, count - 1);
          if count != 1 && Payload(b) == 0 {
            return Err(NonminimalLength);
          }
          if value > maximum {
            return Err(BoundExceeded);
          }
          return Ok(value, count);
        }
        place := place * 128;
      }
      LateStop(input);
      r := Err(LengthOverflow);
    }
  }

  lemma LateStop(b: Octets)
    requires |b| >= 5 && forall k | 0 <= k < 4 :: Continues(b[k])
    ensures Stop(b) >= 4 && (Continues(b[4]) ==> Stop(b) >= 5)
  {
  }

  // ---------------------------------------------------------------------------------------------
  // Inverse, unique, and in agreement
  // ---------------------------------------------------------------------------------------------

  /** The last payload tells the size of a value. */
  lemma LastPayload(p: Octets)
    requires p != []
    ensures var n, d := |p| - 1, Payload(p[|p| - 1]);
            d * Pow128(n) <= Value(p) < d * Pow128(n) + Pow128(n)
  {
    var n := |p| - 1;
    assert p == p[..n] + [p[n]];
    ValueSnoc(p[..n], p[n]);
    ValueBelow(p[..n]);
  }

  lemma WidthIsMinimal(p: Octets)
    requires 0 < |p| <= 5 && Stop(p) == |p| - 1
    ensures Value(p) < U32_LIMIT <==> |p| < 5 || Payload(p[4]) <= 0x0f
    ensures CanonicalLengthWidth(Value(p)) == |p| <==> Minimal(p)
  {
    SmallPowers();
    LastPayload(p);
    var n, d := |p| - 1, Payload(p[|p| - 1]);
    if |p| == 1 {
      assert Pow128(n) == 1 && d * Pow128(n) == d;
    } else if |p| == 2 {
      assert Pow128(n) == 0x80 && d * Pow128(n) == d * 0x80;
    } else if |p| == 3 {
      assert Pow128(n) == 0x4000 && d * Pow128(n) == d * 0x4000;
    } else if |p| == 4 {
      assert Pow128(n) == 0x20_0000 && d * Pow128(n) == d * 0x20_0000;
    } else {
      assert Pow128(n) == 0x1000_0000 && d * Pow128(n) == d * 0x1000_0000;
    }
  }

  lemma StopOfPrefix(b: Octets, t: nat)
    requires t < |b| && Stop(b) == t
    ensures Stop(b[..t + 1]) == t
  {
    var p := b[..t + 1];
    assert p[t] == b[t];
    forall i | 0 <= i < t ensures Continues(p[i]) { assert p[i] == b[i]; }
    StopIs(p, t);
  }

  lemma StopOfExtended(p: Octets, rest: Octets)
    requires p != [] && Stop(p) == |p| - 1
    ensures Stop(p + rest) == |p| - 1 && (p + rest)[..|p|] == p
  {
    var b := p + rest;
    forall i | 0 <= i < |p| - 1 ensures Continues(b[i]) { assert b[i] == p[i]; }
    assert b[|p| - 1] == p[|p| - 1];
    StopIs(b, |p| - 1);
  }

  lemma {:induction false} EncodedWidth(value: nat)
    requires value < U32_LIMIT
    ensures |LengthBytes(value)| == CanonicalLengthWidth(value)
  {
    if value >= 128 {
      EncodedWidth(value / 128);
    }
  }

  /** Decoding undoes encoding, for every 32-bit value and whatever follows it. */
  lemma DecodeEncoded(value: nat, rest: Octets)
    requires value < U32_LIMIT
    ensures GoLength(LengthBytes(value) + rest) == Ok(value, |LengthBytes(value)|)
  {
    var p := LengthBytes(value);
    EncodedIsMinimal(value);
    EncodedWidth(value);
    StopOfExtended(p, rest);
  }

  /** A decoded prefix is the encoding of its value: no other byte string is accepted for it. */
  lemma EncodeDecoded(input: Octets)
    requires GoLength(input).Ok?
    ensures var r := GoLength(input);
            && r.value < U32_LIMIT && r.width <= |input|
            && input[..r.width] == LengthBytes(r.value)
  {
    var t := Stop(input);
    var p := input[..t + 1];
    StopOfPrefix(input, t);
    WidthIsMinimal(p);
    MinimalIsEncoded(p);
  }

  /** The two decoders agree on every string, value, width and error alike, up to the bound that only
      the Python decoder takes. */
  lemma DecodersAgree(input: Octets, maximum: nat)
    requires maximum < U32_LIMIT
    ensures PythonLength(input, maximum) ==
            (var go := GoLength(input); if go.Ok? && go.value > maximum then Err(BoundExceeded) else go)
  {
    var t := Stop(input);
    if t < 5 && t < |input| {
      var p := input[..t + 1];
      StopOfPrefix(input, t);
      WidthIsMinimal(p);
      assert p[t] == input[t];
    }
  }
}
