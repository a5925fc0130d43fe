/** Reading a receipt with a moving cursor. */
module ReceiptReader {
  import opened Octets
  import opened Execution
  import opened BlockCodec
  import opened Receipts

  /** A cursor over bytes. */
  class Decoder {
    const bytes: Octets
    var pos: nat

    ghost predicate Valid()
      reads this
    {
      pos <= |bytes|
    }

    /** What is still to be read. */
    ghost function Rest(): Octets
      reads this
      requires Valid()
    {
      bytes[pos..]
    }

    constructor (bytes: Octets)
      ensures Valid() && this.bytes == bytes && Rest() == bytes && pos == 0
    {
      this.bytes, pos := bytes, 0;
    }

    method Take(n: nat) returns (r: Result<Octets, CodecError>)
      requires Valid()
      modifies this
      ensures Valid()
      ensures r == if n <= |old(Rest())| then Ok(old(Rest())[..n]) else Err(Malformed)
      ensures Rest() == if r.Ok? then old(Rest())[n..] else old(Rest())
    {
      if pos + n > |bytes| {
        return Err(Malformed);
      }
      var out := bytes[pos..pos + n];
      assert out == Rest()[..n] && bytes[pos + n..] == Rest()[n..];
      pos := pos + n;
      return Ok(out);
    }

    method Int(width: nat) returns (r: Result<nat, CodecError>)
      requires Valid()
      modifies this
      ensures Valid()
      ensures r == if width <= |old(Rest())| then Ok(ReadInt(old(Rest()), width).value) else Err(Malformed)
      ensures Rest() == if r.Ok? then ReadInt(old(Rest()), width).rest else old(Rest())
    {
      var b := Take(width);
      return if b.Ok? then Ok(FromBE(b.value)) else Err(Malformed);
    }

    method IsFinished() returns (done: bool)
      requires Valid()
      ensures done <==> Rest() == []
    {
      done := pos == |bytes|;
    }
  }

  /** The numbers between the magic and the block. */
  datatype PublicNumbers = PublicNumbers(pre: nat, post: nat, length: nat)

  method TakePublicNumbers(d: Decoder) returns (r: Result<PublicNumbers, CodecError>)
    requires d.Valid()
    modifies d
    ensures d.Valid()
    ensures var b := old(d.Rest());
            if |b| < 24 then r == Err(Malformed)
            else
              var version := ReadInt(b, 2);
              var reserved := ReadInt(version.rest, 2);
              var pre := ReadInt(reserved.rest, 8);
              var post := ReadInt(pre.rest, 8);
              var length := ReadInt(post.rest, 4);
              if version.value != 1 || reserved.value != 0 then r == Err(Malformed)
              else r == Ok(PublicNumbers(pre.value, post.value, length.value)) && d.Rest() == length.rest
  {
    var version := d.Int(2);
    if version.Err? || version.value != 1 {
      return Err(Malformed);
    }
    var reserved := d.Int(2);
    if reserved.Err? || reserved.value != 0 {
      return Err(Malformed);
    }
    var pre := d.Int(8);
    if pre.Err? {
      return Err(Malformed);
    }
    var post := d.Int(8);
    if post.Err? {
      return Err(Malformed);
    }
    var length := d.Int(4);
    if length.Err? {
      return Err(Malformed);
    }
    return Ok(PublicNumbers(pre.value, post.value, length.value));
  }

  method ReadPublicInputs(bytes: Octets) returns (r: Result<PublicInputs, CodecError>)
    ensures r == DecodePublicInputs(bytes)
  {
    var d := new Decoder(bytes);
    var magic := d.Take(8);
    if magic.Err? || magic.value != PUBLIC_INPUT_MAGIC {
      return Err(Malformed);
    }
    var numbers := TakePublicNumbers(d);
    if numbers.Err? {
      return Err(Malformed);
    }
    var block := d.Take(numbers.value.length);
    if block.Err? {
      return Err(Malformed);
    }
    var decoded := ReadBlock(block.value);
    if decoded.Err? {
      return Err(Model(decoded.error));
    }
    var done := d.IsFinished();
    return if done then Ok(PublicInputs(numbers.value.pre, numbers.value.post, decoded.value)) else Err(Malformed);
  }

  method TakeNumbers(d: Decoder) returns (n: NumbersRead)
    requires d.Valid() && |d.Rest()| >= 20
    modifies d
    ensures d.Valid() && d.Rest() == n.rest
    ensures n == ReadNumbers(old(d.Rest()))
  {
    var codec := d.Int(2);
    var kind := d.Int(2);
    var protocol := d.Int(4);
    var verifier := d.Int(4);
    var suite := d.Int(4);
    var flags := d.Int(4);
    n := NumbersRead(codec.value, kind.value, protocol.value, verifier.value, suite.value, flags.value,
      d.bytes[d.pos..]);
  }

  /** The four digests. */
  method TakeDigests(d: Decoder) returns (program: Octets, preRoot: Octets, block: Octets, postRoot: Octets)
    requires d.Valid() && |d.Rest()| >= 192
    modifies d
    ensures d.Valid() && d.Rest() == old(d.Rest())[192..]
    ensures var b := old(d.Rest());
            program == b[..48] && preRoot == b[48..96] && block == b[96..144] && postRoot == b[144..192]
  {
    var first := d.Take(48);
    var second := d.Take(48);
    var third := d.Take(48);
    var fourth := d.Take(48);
    program, preRoot, block, postRoot := first.value, second.value, third.value, fourth.value;
  }

  /** The fixed header, field by field. */
  method TakeHeader(d: Decoder) returns (r: HeaderRead)
    requires d.Valid() && |d.Rest()| >= FIXED_HEADER_LEN - 8
    modifies d
    ensures d.Valid() && d.Rest() == r.rest
    ensures r == HeaderAfterMagic(old(d.Rest()))
  {
    var n := TakeNumbers(d);
    var program, preRoot, block, postRoot := TakeDigests(d);
    var publicLength := d.Int(4);
    var proofLength := d.Int(4);
    r := HeaderRead(ReceiptHeader(n.codecVersion, n.receiptKind, n.protocolVersion, n.verifierVersion, n.suiteId,
                                  n.flags, program, preRoot, block, postRoot),
                    publicLength.value, proofLength.value, d.bytes[d.pos..]);
  }

  method TakeBody(d: Decoder, h: HeaderRead) returns (r: Result<Receipt, CodecError>)
    requires d.Valid() && d.Rest() == h.rest
    modifies d
    ensures r == DecodeAfterHeader(h)
  {
    if h.header.codecVersion != RECEIPT_CODEC_VERSION || h.header.flags != 0 {
      return Err(Malformed);
    }
    if h.publicLength > MAX_PUBLIC_INPUT_BYTES {
      return Err(PublicInputsTooLarge(h.publicLength));
    }
    if h.proofLength > MAX_PROOF_BYTES {
      return Err(ProofTooLarge(h.proofLength));
    }
    if |d.bytes| - d.pos != h.publicLength + h.proofLength {
      return Err(Malformed);
    }
    var publicBytes := d.Take(h.publicLength);
    var proof := d.Take(h.proofLength);
    var inputs := ReadPublicInputs(publicBytes.value);
    if inputs.Err? {
      return Err(inputs.error);
    }
    assert proof.value == h.rest[h.publicLength..];
    return Ok(Receipt(h.header, inputs.value.pre, inputs.value.post, inputs.value.block, proof.value));
  }

  method ReadReceipt(bytes: Octets) returns (r: Result<Receipt, CodecError>)
    ensures r == DecodeReceipt(bytes)
  {
    if |bytes| > MAX_RECEIPT_BYTES {
      return Err(ReceiptTooLarge(|bytes|));
    }
    if |bytes| < FIXED_HEADER_LEN {
      return Err(Malformed);
    }
    var d := new Decoder(bytes);
    var magic := d.Take(8);
    if magic.Err? || magic.value != RECEIPT_MAGIC {
      return Err(Malformed);
    }
    var h := TakeHeader(d);
    r := TakeBody(d, h);
  }
}
