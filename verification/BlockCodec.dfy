/** The canonical byte form of a block: one and only one accepted encoding per valid block. */
module BlockCodec {
  import opened Octets
  import opened Execution
  import opened Sequences
  import opened Widths

  /** "P060BLK1" */
  const BLOCK_MAGIC: Octets := [0x50, 0x30, 0x36, 0x30, 0x42, 0x4c, 0x4b, 0x31]
  const ACTION_BYTES: nat := 16

  /** Operands are 64-bit; the codec is exact on all of them that are canonical. */
  predicate Sized(a: Action) {
    a.operand < U64_LIMIT
  }

  function EncodeAction(a: Action): (b: Octets)
    requires Sized(a)
    ensures |b| == ACTION_BYTES
  {
    IntegerLimits();
    [a.opcode.Code()] + (Zeros(7) + ToBE(a.operand, 8))
  }

  function DecodeAction(b: Octets): Result<Action, ModelError> {
    if |b| != ACTION_BYTES then Err(MalformedBlock)
    else if b[0] > 1 then Err(UnknownOpcode(b[0]))
    else if b[1..8] != Zeros(7) then Err(MalformedBlock)
    else
      var operand := FromBE(b[8..]);
      if !Canonical(operand) then Err(NonCanonicalField(operand))
      else Ok(Action(if b[0] == 0 then AddOp else MulOp, operand))
  }

  lemma ActionRoundTrip(a: Action, rest: Octets)
    requires Canonical(a.operand)
    ensures var b := EncodeAction(a) + rest; b[ACTION_BYTES..] == rest && DecodeAction(b[..ACTION_BYTES]) == Ok(a)
  {
    IntegerLimits();
    var b := EncodeAction(a) + rest;
    var e := b[..ACTION_BYTES];
    assert e == EncodeAction(a) && b[ACTION_BYTES..] == rest;
    assert e[1..8] == Zeros(7) && e[8..] == ToBE(a.operand, 8);
    FromToBE(a.operand, 8);
  }

  lemma ActionCanonical(b: Octets)
    requires DecodeAction(b).Ok?
    ensures Canonical(DecodeAction(b).value.operand) && EncodeAction(DecodeAction(b).value) == b
  {
    ToFromBE(b[8..]);
    assert b == [b[0]] + (b[1..8] + b[8..]);
  }

  /** One action by its byte offsets. */
  lemma ActionOffsets(a: Action)
    requires Sized(a)
    ensures var b := EncodeAction(a);
            b[0] == (if a.opcode == AddOp then 0 else 1) && b[1..8] == Zeros(7) && FromBE(b[8..]) == a.operand
  {
    IntegerLimits();
    ThreeParts([a.opcode.Code()], Zeros(7), ToBE(a.operand, 8));
    FromToBE(a.operand, 8);
  }

  /** The condition of each answer for sixteen bytes. */
  lemma ActionAnswers(b: Octets)
    requires |b| == 16
    ensures DecodeAction(b) == Err(UnknownOpcode(b[0])) <==> b[0] > 1
    ensures DecodeAction(b) == Err(MalformedBlock) <==> b[0] <= 1 && b[1..8] != Zeros(7)
    ensures DecodeAction(b) == Err(NonCanonicalField(FromBE(b[8..]))) <==>
            b[0] <= 1 && b[1..8] == Zeros(7) && FromBE(b[8..]) >= MODULUS
    ensures b[0] <= 1 && b[1..8] == Zeros(7) && FromBE(b[8..]) < MODULUS ==>
              DecodeAction(b) == Ok(Action([AddOp, MulOp][b[0]], FromBE(b[8..])))
  {}

  // ---------------------------------------------------------------------------------------------
  // All actions
  // ---------------------------------------------------------------------------------------------

  function EncodeActions(actions: seq<Action>): (b: Octets)
    requires forall i | 0 <= i < |actions| :: Canonical(actions[i].operand)
    ensures |b| == |actions| * ACTION_BYTES
  {
    if actions == [] then []
    else
      assert Canonical(actions[0].operand);
      EncodeAction(actions[0]) + EncodeActions(actions[1..])
  }

  type ActionDecoder = Octets -> Result<Action, ModelError>

  /** The actions of the remaining chunks after the earlier ones, or the first error. */
  function DecodeActions(
    decode: ActionDecoder, b: Octets, count: nat, earlier: seq<Action>): Result<seq<Action>, ModelError>
    requires |b| == count * ACTION_BYTES
    decreases count
  {
    if count == 0 then Ok(earlier)
    else
      match decode(b[..ACTION_BYTES])
      case Err(e) => Err(e)
      case Ok(a) => DecodeActions(decode, b[ACTION_BYTES..], count - 1, earlier + [a])
  }

  lemma {:induction false} ActionsRoundTrip(actions: seq<Action>, earlier: seq<Action>)
    requires forall i | 0 <= i < |actions| :: Canonical(actions[i].operand)
    ensures DecodeActions(DecodeAction, EncodeActions(actions), |actions|, earlier) == Ok(earlier + actions)
    decreases |actions|
  {
    if actions == [] {
      assert earlier + actions == earlier;
    } else {
      ActionRoundTrip(actions[0], EncodeActions(actions[1..]));
      ActionsRoundTrip(actions[1..], earlier + [actions[0]]);
      assert earlier + actions == (earlier + [actions[0]]) + actions[1..];
    }
  }

  lemma {:induction false} ActionsCanonical(b: Octets, count: nat, earlier: seq<Action>)
    requires |b| == count * ACTION_BYTES && DecodeActions(DecodeAction, b, count, earlier).Ok?
    ensures var all := DecodeActions(DecodeAction, b, count, earlier).value;
            && |all| == |earlier| + count && all[..|earlier|] == earlier
            && (forall i | |earlier| <= i < |all| :: Canonical(all[i].operand))
            && EncodeActions(all[|earlier|..]) == b
    decreases count
  {
    if count > 0 {
      var front, rest := b[..ACTION_BYTES], b[ACTION_BYTES..];
      ActionCanonical(front);
      var a := DecodeAction(front).value;
      ActionsCanonical(rest, count - 1, earlier + [a]);
      var all := DecodeActions(DecodeAction, b, count, earlier).value;
      assert all[|earlier|] == all[..|earlier| + 1][|earlier|] == a;
      assert all[..|earlier|] == all[..|earlier| + 1][..|earlier|];
      assert all[|earlier|..][1..] == all[|earlier| + 1..];
      assert b == front + rest;
    }
  }

  // ---------------------------------------------------------------------------------------------
  // Blocks
  // ---------------------------------------------------------------------------------------------

  function BlockHeader(count: nat): (b: Octets)
    requires count <= MAX_ACTIONS
    ensures |b| == 16
  {
    IntegerLimits();
    BLOCK_MAGIC + (ToBE(1, 2) + (ToBE(0, 2) + ToBE(count, 4)))
  }

  function BlockBytes(b: Block): (out: Octets)
    requires ValidBlock(b)
    ensures |out| == 16 + |b.actions| * ACTION_BYTES
  {
    BlockHeader(|b.actions|) + EncodeActions(b.actions)
  }

  /** Why `validate` refuses a block. */
  function Refusal(actions: seq<Action>): (e: ModelError)
    requires exists i :: 0 <= i < |actions| && !Canonical(actions[i].operand)
    ensures forall i | FirstBad(actions, i) :: e == NonCanonicalField(actions[i].operand)
  {
    if !Canonical(actions[0].operand) then NonCanonicalField(actions[0].operand) else Refusal(actions[1..])
  }

  function EncodeBlock(b: Block): Result<Octets, ModelError> {
    if |b.actions| > MAX_ACTIONS then Err(TooManyActions(|b.actions|))
    else if ValidBlock(b) then Ok(BlockBytes(b))
    else Err(Refusal(b.actions))
  }

  /** The action count that a good header announces. */
  function HeaderCount(b: Octets): (r: Result<nat, ModelError>)
    ensures r.Ok? ==> r.value <= MAX_ACTIONS && |b| == 16 + r.value * ACTION_BYTES
  {
    if |b| < 16 then Err(MalformedBlock)
    else if b[..8] != BLOCK_MAGIC then Err(MalformedBlock)
    else if FromBE(b[8..10]) != 1 then Err(MalformedBlock)
    else if b[10..12] != [0, 0] then Err(MalformedBlock)
    else
      var count := FromBE(b[12..16]);
      if count > MAX_ACTIONS then Err(TooManyActions(count))
      else if |b| != 16 + count * ACTION_BYTES then Err(MalformedBlock)
      else Ok(count)
  }

  function DecodeBlock(b: Octets): Result<Block, ModelError> {
    match HeaderCount(b)
    case Err(e) => Err(e)
    case Ok(count) =>
      match DecodeActions(DecodeAction, b[16..], count, [])
      case Err(e) => Err(e)
      case Ok(actions) => Ok(Block(actions))
  }

  lemma HeaderRoundTrip(count: nat, rest: Octets)
    requires count <= MAX_ACTIONS && |rest| == count * ACTION_BYTES
    ensures HeaderCount(BlockHeader(count) + rest) == Ok(count)
    ensures (BlockHeader(count) + rest)[16..] == rest
  {
    var b := BlockHeader(count) + rest;
    HeaderLayout(count, rest);
    IntegerLimits();
    FromToBE(1, 2);
    FromToBE(count, 4);
    TwoZeros();
  }

  lemma HeaderLayout(count: nat, rest: Octets)
    requires count <= MAX_ACTIONS
    ensures Pow256(2) == U16_LIMIT && Pow256(4) == U32_LIMIT
    ensures var b := BlockHeader(count) + rest;
            && b[..8] == BLOCK_MAGIC && b[8..10] == ToBE(1, 2) && b[10..12] == ToBE(0, 2) && b[12..16] == ToBE(count, 4)
            && b[16..] == rest
  {
    IntegerLimits();
    var version, reserved, number := ToBE(1, 2), ToBE(0, 2), ToBE(count, 4);
    FiveParts(BLOCK_MAGIC, version, reserved, number, rest);
    assert BlockHeader(count) + rest == BLOCK_MAGIC + (version + (reserved + (number + rest)));
  }

  lemma HeaderFields(h: Octets)
    requires |h| == 16 && h[..8] == BLOCK_MAGIC && FromBE(h[8..10]) == 1 && h[10..12] == [0, 0]
             && FromBE(h[12..]) <= MAX_ACTIONS
    ensures h == BlockHeader(FromBE(h[12..]))
  {
    ToFromBE(h[8..10]);
    ToFromBE(h[12..]);
    TwoZeros();
    FourParts(h);
  }

  lemma FourParts(h: Octets)
    requires |h| == 16
    ensures h == h[..8] + (h[8..10] + (h[10..12] + h[12..]))
  {}

  lemma TwoZeros()
    ensures 0 < Pow256(2) && ToBE(0, 2) == [0, 0]
  {
    ZeroIsZeros(2);
    assert Zeros(2) == [0, 0];
  }

  lemma HeaderCanonical(b: Octets)
    requires HeaderCount(b).Ok?
    ensures b == BlockHeader(HeaderCount(b).value) + b[16..]
  {
    var h := b[..16];
    assert h[..8] == b[..8] && h[8..10] == b[8..10] && h[10..12] == b[10..12] && h[12..] == b[12..16];
    HeaderFields(h);
    assert b == h + b[16..];
  }

  /** Decoding the encoding of a valid block gives it back. */
  lemma BlockRoundTrip(b: Block)
    requires ValidBlock(b)
    ensures DecodeBlock(BlockBytes(b)) == Ok(b)
  {
    HeaderRoundTrip(|b.actions|, EncodeActions(b.actions));
    ActionsRoundTrip(b.actions, []);
    assert [] + b.actions == b.actions;
  }

  /** Every accepted byte string decodes to a valid block and is that block's encoding. */
  lemma BlockCanonical(bytes: Octets)
    requires DecodeBlock(bytes).Ok?
    ensures ValidBlock(DecodeBlock(bytes).value) && BlockBytes(DecodeBlock(bytes).value) == bytes
  {
    HeaderCanonical(bytes);
    ActionsCanonical(bytes[16..], HeaderCount(bytes).value, []);
    var actions := DecodeBlock(bytes).value.actions;
    assert actions[0..] == actions;
  }

  // ---------------------------------------------------------------------------------------------
  // The loops
  // ---------------------------------------------------------------------------------------------

  method WriteBlock(b: Block) returns (r: Result<Octets, ModelError>)
    ensures r == EncodeBlock(b)
  {
    if |b.actions| > MAX_ACTIONS {
      return Err(TooManyActions(|b.actions|));
    }
    if !ValidBlock(b) {
      return Err(Refusal(b.actions));
    }
    var out := BlockHeader(|b.actions|);
    for n := 0 to |b.actions|
      invariant out + EncodeActions(b.actions[n..]) == BlockBytes(b)
    {
      assert b.actions[n..][0] == b.actions[n] && b.actions[n..][1..] == b.actions[n + 1..];
      out := out + EncodeAction(b.actions[n]);
    }
    assert b.actions[|b.actions|..] == [] && out + [] == out;
    return Ok(out);
  }

  method ReadActions(decode: ActionDecoder, bytes: Octets, count: nat) returns (r: Result<seq<Action>, ModelError>)
    requires |bytes| == 16 + count * ACTION_BYTES
    ensures r == DecodeActions(decode, bytes[16..], count, [])
  {
    var actions: seq<Action> := [];
    var at := 16;
    for n := 0 to count
      invariant at == 16 + n * ACTION_BYTES
      invariant DecodeActions(decode, bytes[at..], count - n, actions) == DecodeActions(decode, bytes[16..], count, [])
    {
      assert bytes[at..][..ACTION_BYTES] == bytes[at..at + ACTION_BYTES];
      assert bytes[at..][ACTION_BYTES..] == bytes[at + ACTION_BYTES..];
      var action := decode(bytes[at..at + ACTION_BYTES]);
      if action.Err? {
        return Err(action.error);
      }
      actions := actions + [action.value];
      at := at + ACTION_BYTES;
    }
    return Ok(actions);
  }

  method ReadBlock(bytes: Octets) returns (r: Result<Block, ModelError>)
    ensures r == DecodeBlock(bytes)
  {
    var count := HeaderCount(bytes);
    if count.Err? {
      return Err(count.error);
    }
    var actions := ReadActions(DecodeAction, bytes, count.value);
    return if actions.Err? then Err(actions.error) else Ok(Block(actions.value));
  }

  // ---------------------------------------------------------------------------------------------
  // Which bytes are refused how
  // ---------------------------------------------------------------------------------------------

  /** The chunk of sixteen bytes of action k. */
  function Chunk(b: Octets, k: nat): Octets
    requires 16 + 16 * k + 16 <= |b|
  {
    b[16 + 16 * k..][..16]
  }

  /** Magic, version and reserved bits are right. */
  predicate Framed(b: Octets) {
    |b| >= 16 && b[..8] == BLOCK_MAGIC && FromBE(b[8..10]) == 1 && b[10..12] == [0, 0]
  }

  lemma {:induction false} FirstBadChunk(b: Octets, count: nat, earlier: seq<Action>, k: nat)
    requires |b| == count * 16 && k < count
    requires forall j | 0 <= j < k :: DecodeAction(b[16 * j..][..16]).Ok?
    requires DecodeAction(b[16 * k..][..16]).Err?
    ensures DecodeActions(DecodeAction, b, count, earlier) == Err(DecodeAction(b[16 * k..][..16]).error)
    decreases k
  {
    assert b[16 * 0..][..16] == b[..16];
    if k > 0 {
      var rest := b[16..];
      forall j | 0 <= j < k ensures rest[16 * j..] == b[16 * (j + 1)..] {}
      assert DecodeAction(b[16 * 0..][..16]).Ok?;
      forall j | 0 <= j < k - 1 ensures DecodeAction(rest[16 * j..][..16]).Ok? {
        assert DecodeAction(b[16 * (j + 1)..][..16]).Ok?;
      }
      FirstBadChunk(rest, count - 1, earlier + [DecodeAction(b[..16]).value], k - 1);
    }
  }

  /** The condition of each refusal of the header. */
  lemma HeaderAnswers(b: Octets)
    ensures !Framed(b) ==> DecodeBlock(b) == Err(MalformedBlock)
    ensures Framed(b) && FromBE(b[12..16]) > 1024 ==> DecodeBlock(b) == Err(TooManyActions(FromBE(b[12..16])))
    ensures Framed(b) && FromBE(b[12..16]) <= 1024 && |b| != 16 + 16 * FromBE(b[12..16]) ==>
              DecodeBlock(b) == Err(MalformedBlock)
  {}

  /** With a good header the block is refused for its first bad action, with that action's error. */
  lemma FirstBadAction(b: Octets, k: nat)
    requires Framed(b) && FromBE(b[12..16]) <= 1024 && |b| == 16 + 16 * FromBE(b[12..16])
    requires k < FromBE(b[12..16]) && DecodeAction(Chunk(b, k)).Err?
    requires forall j: nat | j < k :: DecodeAction(Chunk(b, j)).Ok?
    ensures DecodeBlock(b) == Err(DecodeAction(Chunk(b, k)).error)
  {
    var rest, count := b[16..], FromBE(b[12..16]);
    forall j: nat | j <= k ensures rest[16 * j..][..16] == Chunk(b, j) {
      assert rest[16 * j..] == b[16 + 16 * j..];
    }
    FirstBadChunk(rest, count, [], k);
  }
}
