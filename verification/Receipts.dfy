/** Execution receipts: the header, the public inputs and the proof bytes, with their strict codec. */
module Receipts {
  import opened Octets
  import opened Execution
  import opened BlockCodec
  import opened Widths

  const MAX_PROOF_BYTES: nat := 131_072
  const MAX_PUBLIC_INPUT_BYTES: nat := 20_000
  const MAX_RECEIPT_BYTES: nat := 160_000
  const FIXED_HEADER_LEN: nat := 228
  const RECEIPT_CODEC_VERSION: nat := 1
  /** "P060RCP1" */
  const RECEIPT_MAGIC: Octets := [0x50, 0x30, 0x36, 0x30, 0x52, 0x43, 0x50, 0x31]
  /** "P060PUB1" */
  const PUBLIC_INPUT_MAGIC: Octets := [0x50, 0x30, 0x36, 0x30, 0x50, 0x55, 0x42, 0x31]

  datatype CodecError =
    | ReceiptTooLarge(actual: nat) | ProofTooLarge(actual: nat) | PublicInputsTooLarge(actual: nat)
    | Malformed | Binding | Model(error: ModelError)

  datatype ReceiptHeader = ReceiptHeader(
    codecVersion: nat, receiptKind: nat, protocolVersion: nat, verifierVersion: nat, suiteId: nat, flags: nat,
    programId: Octets, preStateRoot: Octets, blockId: Octets, postStateRoot: Octets)
  {
    /** The field widths of the source's struct. */
    predicate Sized() {
      && codecVersion < U16_LIMIT && receiptKind < U16_LIMIT && protocolVersion < U32_LIMIT
      && verifierVersion < U32_LIMIT && suiteId < U32_LIMIT && flags < U32_LIMIT
      && |programId| == 48 && |preStateRoot| == 48 && |blockId| == 48 && |postStateRoot| == 48
    }
  }

  datatype Receipt = Receipt(header: ReceiptHeader, pre: nat, post: nat, block: Block, proof: Octets) {
    predicate Sized() {
      && header.Sized() && pre < U64_LIMIT && post < U64_LIMIT
      && forall i | 0 <= i < |block.actions| :: block.actions[i].operand < U64_LIMIT
    }
  }

  /** The domain-separated boundary hashes, which are parameters. */
  datatype Hashes = Hashes(programId: Octets, stateRoot: nat -> Octets, blockId: Octets -> Octets)

  // ---------------------------------------------------------------------------------------------
  // Structure
  // ---------------------------------------------------------------------------------------------

  /** What a validation answers. */
  datatype Verdict = Good | Bad(error: CodecError)

  function ValidateBindings(H: Hashes, h: ReceiptHeader, pre: nat, post: nat, b: Block): Verdict {
    if h.flags != 0 then Bad(Malformed)
    else if h.programId != H.programId then Bad(Binding)
    else if !Canonical(pre) then Bad(Model(NonCanonicalField(pre)))
    else if h.preStateRoot != H.stateRoot(pre) then Bad(Binding)
    else
      match EncodeBlock(b)
      case Err(e) => Bad(Model(e))
      case Ok(bytes) =>
        if h.blockId != H.blockId(bytes) then Bad(Binding)
        else if !Canonical(post) then Bad(Model(NonCanonicalField(post)))
        else if h.postStateRoot != H.stateRoot(post) then Bad(Binding)
        else Good
  }

  function ValidateStructure(H: Hashes, r: Receipt): Verdict {
    if r.proof == [] then Bad(Malformed)
    else if |r.proof| > MAX_PROOF_BYTES then Bad(ProofTooLarge(|r.proof|))
    else
      match EncodeBlock(r.block)
      case Err(e) => Bad(Model(e))
      case Ok(_) => ValidateBindings(H, r.header, r.pre, r.post, r.block)
  }

  /** The header's four digests are those of the program, the state before, the block and the state after. */
  predicate BoundTo(H: Hashes, h: ReceiptHeader, pre: nat, post: nat, b: Block)
    requires ValidBlock(b)
  {
    && h.programId == H.programId && h.preStateRoot == H.stateRoot(pre)
    && h.blockId == H.blockId(BlockBytes(b)) && h.postStateRoot == H.stateRoot(post)
  }

  /** Two canonical states and a block that has bytes: what there are digests of. */
  predicate Hashable(pre: nat, post: nat, b: Block) {
    pre < MODULUS && post < MODULUS && ValidBlock(b)
  }

  /** The bindings are good exactly when no flag is set and every digest of the header is the digest of
      the thing it names; an error says which of the three is not so. */
  lemma BindingsExact(H: Hashes, h: ReceiptHeader, pre: nat, post: nat, b: Block)
    ensures var v := ValidateBindings(H, h, pre, post, b);
            && (v == Good <==> h.flags == 0 && Hashable(pre, post, b) && BoundTo(H, h, pre, post, b))
            && (v == Bad(Malformed) <==> h.flags != 0)
            && (v == Bad(Binding) ==> h.flags == 0 && (Hashable(pre, post, b) ==> !BoundTo(H, h, pre, post, b)))
            && (v.Bad? && v.error.Model? ==> h.flags == 0 && !Hashable(pre, post, b))
            && (v.Bad? ==> v.error in {Malformed, Binding} || v.error.Model?)
  {}

  /** The structure is good exactly when there is a proof of a permitted length and the bindings are. */
  lemma StructureExact(H: Hashes, r: Receipt)
    ensures var v := ValidateStructure(H, r);
            && (v == Good <==>
                  && 0 < |r.proof| <= 131_072 && r.header.flags == 0
                  && Hashable(r.pre, r.post, r.block) && BoundTo(H, r.header, r.pre, r.post, r.block))
            && (r.proof == [] ==> v == Bad(Malformed))
            && (|r.proof| > 131_072 <==> v == Bad(ProofTooLarge(|r.proof|)))
  {
    BindingsExact(H, r.header, r.pre, r.post, r.block);
  }

  /** Under hashes that do not collide on them, one header stands for one state before, one block and one
      state after. */
  lemma HeaderDeterminesInputs(H: Hashes, r: Receipt, s: Receipt)
    requires ValidateStructure(H, r) == Good && ValidateStructure(H, s) == Good && r.header == s.header
    requires H.stateRoot(r.pre) == H.stateRoot(s.pre) ==> r.pre == s.pre
    requires H.stateRoot(r.post) == H.stateRoot(s.post) ==> r.post == s.post
    requires ValidBlock(r.block) && ValidBlock(s.block)
    requires H.blockId(BlockBytes(r.block)) == H.blockId(BlockBytes(s.block)) ==>
               BlockBytes(r.block) == BlockBytes(s.block)
    ensures r.pre == s.pre && r.block == s.block && r.post == s.post
  {
    StructureExact(H, r);
    StructureExact(H, s);
    BlockRoundTrip(r.block);
    BlockRoundTrip(s.block);
  }

  // ---------------------------------------------------------------------------------------------
  // Public inputs
  // ---------------------------------------------------------------------------------------------

  datatype PublicInputs = PublicInputs(pre: nat, post: nat, block: Block)

  function PublicInputBytes(pre: nat, post: nat, b: Block): (out: Octets)
    requires pre < U64_LIMIT && post < U64_LIMIT && ValidBlock(b)
    ensures |out| == 48 + |b.actions| * ACTION_BYTES <= MAX_PUBLIC_INPUT_BYTES
  {
    IntegerLimits();
    PUBLIC_INPUT_MAGIC
      + (ToBE(1, 2) + (ToBE(0, 2) + (ToBE(pre, 8) + (ToBE(post, 8) + (ToBE(|BlockBytes(b)|, 4) + BlockBytes(b))))))
  }

  /** The part after the magic. */
  function DecodeAfterMagic(b: Octets): Result<PublicInputs, CodecError>
    requires |b| >= 24
  {
    var version := ReadInt(b, 2);
    var reserved := ReadInt(version.rest, 2);
    var pre := ReadInt(reserved.rest, 8);
    var post := ReadInt(pre.rest, 8);
    var length := ReadInt(post.rest, 4);
    if version.value != 1 || reserved.value != 0 || |length.rest| < length.value then Err(Malformed)
    else
      match DecodeBlock(length.rest[..length.value])
      case Err(e) => Err(Model(e))
      case Ok(block) =>
        if |length.rest| != length.value then Err(Malformed) else Ok(PublicInputs(pre.value, post.value, block))
  }

  function DecodePublicInputs(b: Octets): Result<PublicInputs, CodecError> {
    if |b| < 32 || b[..8] != PUBLIC_INPUT_MAGIC then Err(Malformed) else DecodeAfterMagic(b[8..])
  }

  lemma PublicInputsRoundTrip(pre: nat, post: nat, b: Block)
    requires pre < U64_LIMIT && post < U64_LIMIT && ValidBlock(b)
    ensures DecodePublicInputs(PublicInputBytes(pre, post, b)) == Ok(PublicInputs(pre, post, b))
  {
    IntegerLimits();
    var block := BlockBytes(b);
    var b4 := ToBE(|block|, 4) + block;
    var b3 := ToBE(post, 8) + b4;
    var b2 := ToBE(pre, 8) + b3;
    var b1 := ToBE(0, 2) + b2;
    TakeFront(PUBLIC_INPUT_MAGIC, ToBE(1, 2) + b1);
    ReadWritten(1, 2, b1);
    ReadWritten(0, 2, b2);
    ReadWritten(pre, 8, b3);
    ReadWritten(post, 8, b4);
    ReadWritten(|block|, 4, block);
    assert block[..|block|] == block;
    BlockRoundTrip(b);
  }

  lemma PublicInputsCanonical(b: Octets)
    requires DecodePublicInputs(b).Ok?
    ensures var p := DecodePublicInputs(b).value;
            && p.pre < U64_LIMIT && p.post < U64_LIMIT && ValidBlock(p.block)
               && PublicInputBytes(p.pre, p.post, p.block) == b
  {
    IntegerLimits();
    var version := ReadInt(b[8..], 2);
    var reserved := ReadInt(version.rest, 2);
    var pre := ReadInt(reserved.rest, 8);
    var post := ReadInt(pre.rest, 8);
    var length := ReadInt(post.rest, 4);
    WriteRead(b[8..], 2);
    WriteRead(version.rest, 2);
    WriteRead(reserved.rest, 8);
    WriteRead(pre.rest, 8);
    WriteRead(post.rest, 4);
    assert length.rest[..length.value] == length.rest;
    BlockCanonical(length.rest);
    assert b == b[..8] + b[8..];
  }

  // ---------------------------------------------------------------------------------------------
  // The fixed header
  // ---------------------------------------------------------------------------------------------

  /** The six numbers of the header, followed by the rest. */
  function NumbersThen(h: ReceiptHeader, rest: Octets): (b: Octets)
    requires h.Sized()
    ensures |b| == 20 + |rest|
  {
    IntegerLimits();
    ToBE(h.codecVersion, 2) + (ToBE(h.receiptKind, 2) + (ToBE(h.protocolVersion, 4)
      + (ToBE(h.verifierVersion, 4) + (ToBE(h.suiteId, 4) + (ToBE(h.flags, 4) + rest)))))
  }

  datatype NumbersRead = NumbersRead(
    codecVersion: nat, receiptKind: nat, protocolVersion: nat, verifierVersion: nat, suiteId: nat, flags: nat,
    rest: Octets)

  function ReadNumbers(b: Octets): (r: NumbersRead)
    requires |b| >= 20
    ensures |r.rest| == |b| - 20
  {
    var codec := ReadInt(b, 2);
    var kind := ReadInt(codec.rest, 2);
    var protocol := ReadInt(kind.rest, 4);
    var verifier := ReadInt(protocol.rest, 4);
    var suite := ReadInt(verifier.rest, 4);
    var flags := ReadInt(suite.rest, 4);
    NumbersRead(codec.value, kind.value, protocol.value, verifier.value, suite.value, flags.value, flags.rest)
  }

  lemma NumbersRoundTrip(h: ReceiptHeader, rest: Octets)
    requires h.Sized()
    ensures ReadNumbers(NumbersThen(h, rest))
         == NumbersRead(h.codecVersion, h.receiptKind, h.protocolVersion, h.verifierVersion, h.suiteId, h.flags, rest)
  {
    IntegerLimits();
    var b5 := ToBE(h.flags, 4) + rest;
    var b4 := ToBE(h.suiteId, 4) + b5;
    var b3 := ToBE(h.verifierVersion, 4) + b4;
    var b2 := ToBE(h.protocolVersion, 4) + b3;
    var b1 := ToBE(h.receiptKind, 2) + b2;
    ReadWritten(h.codecVersion, 2, b1);
    ReadWritten(h.receiptKind, 2, b2);
    ReadWritten(h.protocolVersion, 4, b3);
    ReadWritten(h.verifierVersion, 4, b4);
    ReadWritten(h.suiteId, 4, b5);
    ReadWritten(h.flags, 4, rest);
  }

  lemma NumbersCanonical(b: Octets, h: ReceiptHeader)
    requires |b| >= 20 && |h.programId| == 48 && |h.preStateRoot| == 48 && |h.blockId| == 48 && |h.postStateRoot| == 48
    requires var n := ReadNumbers(b);
             && h.codecVersion == n.codecVersion && h.receiptKind == n.receiptKind
                && h.protocolVersion == n.protocolVersion
             && h.verifierVersion == n.verifierVersion && h.suiteId == n.suiteId && h.flags == n.flags
    ensures h.Sized() && b == NumbersThen(h, ReadNumbers(b).rest)
  {
    IntegerLimits();
    var codec := ReadInt(b, 2);
    var kind := ReadInt(codec.rest, 2);
    var protocol := ReadInt(kind.rest, 4);
    var verifier := ReadInt(protocol.rest, 4);
    var suite := ReadInt(verifier.rest, 4);
    WriteRead(b, 2);
    WriteRead(codec.rest, 2);
    WriteRead(kind.rest, 4);
    WriteRead(protocol.rest, 4);
    WriteRead(verifier.rest, 4);
    WriteRead(suite.rest, 4);
  }

  /** The four digests of the header, followed by the rest. */
  function DigestsThen(h: ReceiptHeader, rest: Octets): (b: Octets)
    requires h.Sized()
    ensures |b| == 192 + |rest|
  {
    h.programId + (h.preStateRoot + (h.blockId + (h.postStateRoot + rest)))
  }

  lemma DigestsRoundTrip(h: ReceiptHeader, rest: Octets)
    requires h.Sized()
    ensures var b := DigestsThen(h, rest);
            && b[..48] == h.programId && b[48..96] == h.preStateRoot && b[96..144] == h.blockId
               && b[144..192] == h.postStateRoot
            && b[192..] == rest
  {}

  lemma DigestsCanonical(b: Octets, h: ReceiptHeader)
    requires |b| >= 192 && h.Sized()
    requires h.programId == b[..48] && h.preStateRoot == b[48..96] && h.blockId == b[96..144]
             && h.postStateRoot == b[144..192]
    ensures b == DigestsThen(h, b[192..])
  {}

  /** The header, followed by the two lengths and the rest. */
  function HeaderThen(h: ReceiptHeader, publicLength: nat, proofLength: nat, rest: Octets): (b: Octets)
    requires h.Sized() && publicLength < U32_LIMIT && proofLength < U32_LIMIT
    ensures |b| == FIXED_HEADER_LEN + |rest|
  {
    IntegerLimits();
    RECEIPT_MAGIC + NumbersThen(h, DigestsThen(h, ToBE(publicLength, 4) + (ToBE(proofLength, 4) + rest)))
  }

  datatype HeaderRead = HeaderRead(header: ReceiptHeader, publicLength: nat, proofLength: nat, rest: Octets)

  /** Everything between the magic and the public inputs. */
  function HeaderAfterMagic(b: Octets): (r: HeaderRead)
    requires |b| >= FIXED_HEADER_LEN - 8
    ensures |r.rest| == |b| - (FIXED_HEADER_LEN - 8)
  {
    var n := ReadNumbers(b);
    var d := n.rest;
    var publicLength := ReadInt(d[192..], 4);
    var proofLength := ReadInt(publicLength.rest, 4);
    HeaderRead(ReceiptHeader(n.codecVersion, n.receiptKind, n.protocolVersion, n.verifierVersion, n.suiteId, n.flags,
                             d[..48], d[48..96], d[96..144], d[144..192]),
               publicLength.value, proofLength.value, proofLength.rest)
  }

  function ReadHeader(b: Octets): (r: HeaderRead)
    requires |b| >= FIXED_HEADER_LEN
    ensures |r.rest| == |b| - FIXED_HEADER_LEN
  {
    HeaderAfterMagic(b[8..])
  }

  lemma HeaderThenRoundTrip(h: ReceiptHeader, publicLength: nat, proofLength: nat, rest: Octets)
    requires h.Sized() && publicLength < U32_LIMIT && proofLength < U32_LIMIT
    ensures HeaderThen(h, publicLength, proofLength, rest)[..8] == RECEIPT_MAGIC
    ensures ReadHeader(HeaderThen(h, publicLength, proofLength, rest)) == HeaderRead(h, publicLength, proofLength, rest)
  {
    IntegerLimits();
    var b2 := ToBE(proofLength, 4) + rest;
    var b1 := ToBE(publicLength, 4) + b2;
    var d := DigestsThen(h, b1);
    TakeFront(RECEIPT_MAGIC, NumbersThen(h, d));
    NumbersRoundTrip(h, d);
    DigestsRoundTrip(h, b1);
    ReadWritten(publicLength, 4, b2);
    ReadWritten(proofLength, 4, rest);
  }

  lemma HeaderThenCanonical(b: Octets)
    requires |b| >= FIXED_HEADER_LEN && b[..8] == RECEIPT_MAGIC
    ensures var r := ReadHeader(b);
            && r.header.Sized() && r.publicLength < U32_LIMIT && r.proofLength < U32_LIMIT
            && b == HeaderThen(r.header, r.publicLength, r.proofLength, r.rest)
  {
    IntegerLimits();
    var r, d := ReadHeader(b), ReadNumbers(b[8..]).rest;
    NumbersCanonical(b[8..], r.header);
    DigestsCanonical(d, r.header);
    WriteRead(d[192..], 4);
    WriteRead(ReadInt(d[192..], 4).rest, 4);
    assert b == b[..8] + b[8..];
  }

  // ---------------------------------------------------------------------------------------------
  // Receipts
  // ---------------------------------------------------------------------------------------------

  function ReceiptBytes(r: Receipt): (b: Octets)
    requires r.Sized() && ValidBlock(r.block) && |r.proof| <= MAX_PROOF_BYTES
    ensures |b| <= MAX_RECEIPT_BYTES
  {
    var p := PublicInputBytes(r.pre, r.post, r.block);
    HeaderThen(r.header, |p|, |r.proof|, p + r.proof)
  }

  /** The encoder, with its two size checks. */
  function EncodeSizes(publicLength: nat, proofLength: nat, out: Octets): Result<Octets, CodecError> {
    if publicLength > MAX_PUBLIC_INPUT_BYTES then Err(PublicInputsTooLarge(publicLength))
    else if FIXED_HEADER_LEN + publicLength + proofLength > MAX_RECEIPT_BYTES
    then Err(ReceiptTooLarge(FIXED_HEADER_LEN + publicLength + proofLength))
    else Ok(out)
  }

  function EncodeReceipt(H: Hashes, r: Receipt): Result<Octets, CodecError>
    requires r.Sized()
  {
    match ValidateStructure(H, r)
    case Bad(e) => Err(e)
    case Good => EncodeSizes(|PublicInputBytes(r.pre, r.post, r.block)|, |r.proof|, ReceiptBytes(r))
  }

  function DecodeReceipt(b: Octets): Result<Receipt, CodecError> {
    if |b| > MAX_RECEIPT_BYTES then Err(ReceiptTooLarge(|b|))
    else if |b| < FIXED_HEADER_LEN || b[..8] != RECEIPT_MAGIC then Err(Malformed)
    else DecodeAfterHeader(ReadHeader(b))
  }

  function DecodeAfterHeader(r: HeaderRead): Result<Receipt, CodecError> {
    DecodeBody(DecodePublicInputs, r)
  }

  function DecodeBody(decode: Octets -> Result<PublicInputs, CodecError>, r: HeaderRead): Result<Receipt, CodecError> {
    if r.header.codecVersion != RECEIPT_CODEC_VERSION || r.header.flags != 0 then Err(Malformed)
    else if r.publicLength > MAX_PUBLIC_INPUT_BYTES then Err(PublicInputsTooLarge(r.publicLength))
    else if r.proofLength > MAX_PROOF_BYTES then Err(ProofTooLarge(r.proofLength))
    else if |r.rest| != r.publicLength + r.proofLength then Err(Malformed)
    else
      match decode(r.rest[..r.publicLength])
      case Err(e) => Err(e)
      case Ok(p) => Ok(Receipt(r.header, p.pre, p.post, p.block, r.rest[r.publicLength..]))
  }

  /** What an accepted body is made of. */
  lemma BodyParts(decode: Octets -> Result<PublicInputs, CodecError>, h: HeaderRead)
    returns (front: Octets, proof: Octets, p: PublicInputs)
    requires DecodeBody(decode, h).Ok?
    ensures h.rest == front + proof && |front| == h.publicLength && |proof| == h.proofLength <= MAX_PROOF_BYTES
    ensures decode(front) == Ok(p) && DecodeBody(decode, h) == Ok(Receipt(h.header, p.pre, p.post, p.block, proof))
  {
    front, proof := h.rest[..h.publicLength], h.rest[h.publicLength..];
    p := decode(front).value;
  }

  /** The size errors of the encoder are unreachable: every structurally valid receipt encodes. */
  lemma ValidReceiptsEncode(H: Hashes, r: Receipt)
    requires r.Sized() && ValidateStructure(H, r) == Good
    ensures EncodeReceipt(H, r) == Ok(ReceiptBytes(r))
  {}

  lemma AfterHeaderRoundTrip(r: Receipt)
    requires r.Sized() && ValidBlock(r.block) && |r.proof| <= MAX_PROOF_BYTES && r.header.flags == 0
    ensures var p := PublicInputBytes(r.pre, r.post, r.block);
            DecodeAfterHeader(HeaderRead(r.header, |p|, |r.proof|, p + r.proof)) ==
              if r.header.codecVersion == RECEIPT_CODEC_VERSION then Ok(r) else Err(Malformed)
  {
    TakeFront(PublicInputBytes(r.pre, r.post, r.block), r.proof);
    PublicInputsRoundTrip(r.pre, r.post, r.block);
  }

  lemma GoodStructure(H: Hashes, r: Receipt)
    requires ValidateStructure(H, r) == Good
    ensures ValidBlock(r.block) && 0 < |r.proof| <= MAX_PROOF_BYTES && r.header.flags == 0
    ensures Canonical(r.pre) && Canonical(r.post)
  {}

  /** Decoding the bytes of a structurally valid receipt gives it back if and only if its header has
      the current codec version: the structure check does not look at that field, the decoder does. */
  lemma ReceiptRoundTrip(H: Hashes, r: Receipt)
    requires r.Sized() && ValidateStructure(H, r) == Good
    ensures ValidBlock(r.block) && |r.proof| <= MAX_PROOF_BYTES
    ensures DecodeReceipt(ReceiptBytes(r))
         == if r.header.codecVersion == RECEIPT_CODEC_VERSION then Ok(r) else Err(Malformed)
  {
    GoodStructure(H, r);
    var p := PublicInputBytes(r.pre, r.post, r.block);
    HeaderThenRoundTrip(r.header, |p|, |r.proof|, p + r.proof);
    AfterHeaderRoundTrip(r);
  }

  /** Under any hashes of 48 bytes, a receipt for the empty block with codec version 2 is structurally
      valid, and its bytes are refused. */
  lemma OtherVersionIsRefused(H: Hashes)
    requires |H.programId| == |H.stateRoot(0)| == |H.blockId(BlockBytes(Block([])))| == 48
    ensures var block := Block([]);
            var header := ReceiptHeader(2, 1, 1, 1, 1, 0, H.programId, H.stateRoot(0), H.blockId(BlockBytes(block)),
              H.stateRoot(0));
            var r := Receipt(header, 0, 0, block, [0]);
            r.Sized() && ValidateStructure(H, r) == Good && DecodeReceipt(ReceiptBytes(r)) == Err(Malformed)
  {
    var block := Block([]);
    var header := ReceiptHeader(2, 1, 1, 1, 1, 0, H.programId, H.stateRoot(0), H.blockId(BlockBytes(block)),
      H.stateRoot(0));
    var r := Receipt(header, 0, 0, block, [0]);
    assert ValidateStructure(H, r) == Good;
    ReceiptRoundTrip(H, r);
  }

  lemma AfterHeaderCanonical(h: HeaderRead)
    requires h.header.Sized() && DecodeAfterHeader(h).Ok?
    ensures var r := DecodeAfterHeader(h).value;
            && r.Sized() && ValidBlock(r.block) && |r.proof| <= MAX_PROOF_BYTES && r.header == h.header
            && var p := PublicInputBytes(r.pre, r.post, r.block);
               |p| == h.publicLength && |r.proof| == h.proofLength && p + r.proof == h.rest
  {
    var front, proof, p := BodyParts(DecodePublicInputs, h);
    PublicInputsCanonical(front);
  }

  /** Any accepted receipt that encodes again gives back the same bytes. */
  lemma ReceiptCanonical(H: Hashes, b: Octets)
    requires DecodeReceipt(b).Ok?
    ensures var r := DecodeReceipt(b).value;
            && r.Sized() && ValidBlock(r.block) && |r.proof| <= MAX_PROOF_BYTES && ReceiptBytes(r) == b
            && (EncodeReceipt(H, r).Ok? ==> EncodeReceipt(H, r).value == b)
  {
    HeaderThenCanonical(b);
    AfterHeaderCanonical(ReadHeader(b));
  }

  // ---------------------------------------------------------------------------------------------
  // Where the fields are, and which bytes are refused how
  // ---------------------------------------------------------------------------------------------

  /** Two reads in a row read two adjacent slices. */
  lemma ReadAt(b: Octets, from: nat, width: nat)
    requires from + width <= |b|
    ensures ReadInt(b[from..], width) == IntRead(FromBE(b[from..from + width]), b[from + width..])
  {
    assert b[from..][..width] == b[from..from + width] && b[from..][width..] == b[from + width..];
  }

  lemma NumberOffsets(b: Octets)
    requires |b| >= 28
    ensures ReadNumbers(b[8..])
         == NumbersRead(FromBE(b[8..10]), FromBE(b[10..12]), FromBE(b[12..16]), FromBE(b[16..20]), FromBE(b[20..24]),
                        FromBE(b[24..28]), b[28..])
  {
    ReadAt(b, 8, 2);
    ReadAt(b, 10, 2);
    ReadAt(b, 12, 4);
    ReadAt(b, 16, 4);
    ReadAt(b, 20, 4);
    ReadAt(b, 24, 4);
  }

  /** The fixed header by its byte offsets. */
  lemma HeaderOffsets(b: Octets)
    requires |b| >= 228
    ensures ReadHeader(b).header
         == ReceiptHeader(FromBE(b[8..10]), FromBE(b[10..12]), FromBE(b[12..16]), FromBE(b[16..20]), FromBE(b[20..24]),
                          FromBE(b[24..28]), b[28..76], b[76..124], b[124..172], b[172..220])
    ensures ReadHeader(b).publicLength == FromBE(b[220..224]) && ReadHeader(b).proofLength == FromBE(b[224..228])
    ensures ReadHeader(b).rest == b[228..]
  {
    NumberOffsets(b);
    var d := b[28..];
    assert d[..48] == b[28..76] && d[48..96] == b[76..124] && d[96..144] == b[124..172] && d[144..192] == b[172..220];
    assert d[192..] == b[220..];
    ReadAt(b, 220, 4);
    ReadAt(b, 224, 4);
  }

  /** A fixed header of the known version without flags. */
  predicate Headed(b: Octets) {
    228 <= |b| <= 160_000 && b[..8] == RECEIPT_MAGIC && FromBE(b[8..10]) == 1 && FromBE(b[24..28]) == 0
  }

  /** The two announced lengths are permitted and leave nothing over. */
  predicate Measured(b: Octets) {
    && Headed(b) && FromBE(b[220..224]) <= 20_000 && FromBE(b[224..228]) <= 131_072
    && |b| == 228 + FromBE(b[220..224]) + FromBE(b[224..228])
  }

  /** The condition of each refusal of the receipt decoder up to the two lengths, by byte offsets. */
  lemma ReceiptAnswers(b: Octets)
    ensures |b| > 160_000 ==> DecodeReceipt(b) == Err(ReceiptTooLarge(|b|))
    ensures |b| <= 160_000 && !Headed(b) ==> DecodeReceipt(b) == Err(Malformed)
    ensures Headed(b) && FromBE(b[220..224]) > 20_000 ==>
              DecodeReceipt(b) == Err(PublicInputsTooLarge(FromBE(b[220..224])))
    ensures Headed(b) && FromBE(b[220..224]) <= 20_000 && FromBE(b[224..228]) > 131_072 ==>
              DecodeReceipt(b) == Err(ProofTooLarge(FromBE(b[224..228])))
    ensures Headed(b) && FromBE(b[220..224]) <= 20_000 && FromBE(b[224..228]) <= 131_072 && !Measured(b) ==>
              DecodeReceipt(b) == Err(Malformed)
  {
    if |b| >= 228 { HeaderOffsets(b); }
  }

  lemma BodyAnswers(decode: Octets -> Result<PublicInputs, CodecError>, b: Octets, r: HeaderRead, n: nat)
    requires Measured(b) && n == FromBE(b[220..224]) == r.publicLength && r.rest == b[228..]
    requires r.header.codecVersion == FromBE(b[8..10]) && r.header.flags == FromBE(b[24..28])
    requires r.proofLength == FromBE(b[224..228])
    ensures DecodeBody(decode, r) ==
            match decode(b[228..228 + n])
            case Err(e) => Err(e)
            case Ok(p) => Ok(Receipt(r.header, p.pre, p.post, p.block, b[228 + n..]))
  {
    assert r.rest[..n] == b[228..228 + n] && r.rest[n..] == b[228 + n..];
  }

  /** Past the lengths the answer is that for the public inputs, and the rest is the proof. */
  lemma ReceiptBodyAnswers(b: Octets)
    requires Measured(b)
    ensures var n := FromBE(b[220..224]);
            DecodeReceipt(b) ==
            match DecodePublicInputs(b[228..228 + n])
            case Err(e) => Err(e)
            case Ok(p) => Ok(Receipt(ReadHeader(b).header, p.pre, p.post, p.block, b[228 + n..]))
  {
    HeaderOffsets(b);
    BodyAnswers(DecodePublicInputs, b, ReadHeader(b), FromBE(b[220..224]));
  }

  /** A public-input header of the known version, with the announced block inside. */
  predicate PublicHeaded(b: Octets) {
    && |b| >= 32 && b[..8] == PUBLIC_INPUT_MAGIC && FromBE(b[8..10]) == 1 && FromBE(b[10..12]) == 0
    && 32 + FromBE(b[28..32]) <= |b|
  }

  /** The condition of each answer of the public-input decoder, by byte offsets. */
  lemma PublicInputAnswers(b: Octets)
    ensures !PublicHeaded(b) ==> DecodePublicInputs(b) == Err(Malformed)
    ensures PublicHeaded(b) ==>
              var r := DecodePublicInputs(b);
              match DecodeBlock(b[32..32 + FromBE(b[28..32])])
              case Err(e) => r == Err(Model(e))
              case Ok(block) =>
                r == if |b| == 32 + FromBE(b[28..32])
                     then Ok(PublicInputs(FromBE(b[12..20]), FromBE(b[20..28]), block)) else Err(Malformed)
  {
    if |b| >= 32 {
      ReadAt(b, 8, 2);
      ReadAt(b, 10, 2);
      ReadAt(b, 12, 8);
      ReadAt(b, 20, 8);
      ReadAt(b, 28, 4);
      var n := FromBE(b[28..32]);
      if 32 + n <= |b| { assert b[32..][..n] == b[32..32 + n]; }
    }
  }

  /** The size checks of the encoder, on any lengths. */
  lemma SizeAnswers(publicLength: nat, proofLength: nat, out: Octets)
    ensures var r := EncodeSizes(publicLength, proofLength, out);
            && (r == Err(PublicInputsTooLarge(publicLength)) <==> publicLength > 20_000)
            && (r == Err(ReceiptTooLarge(228 + publicLength + proofLength)) <==>
                  publicLength <= 20_000 && publicLength + proofLength > 159_772)
            && (r == Ok(out) <==> publicLength <= 20_000 && publicLength + proofLength <= 159_772)
  {}
}
