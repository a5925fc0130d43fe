/** The P-060 interpreter: blocks of additions and multiplications over the field of size
2^64 - 2^32 + 1, and the length of the trace that proves one. */
module Execution {
  import opened Widths

  const MODULUS: nat := 0xffff_ffff_0000_0001
  const MAX_ACTIONS: nat := 1024
  const MAX_TRACE_LENGTH: nat := 2048

  type Felt = x: int | 0 <= x < MODULUS

  /** `BaseElement::new`: reduces. */
  function ToFelt(value: nat): Felt {
    value % MODULUS
  }

  function Add(a: Felt, b: Felt): Felt {
    (a + b) % MODULUS
  }

  function Sub(a: Felt, b: Felt): Felt {
    (a - b) % MODULUS
  }

  function Mul(a: Felt, b: Felt): Felt {
    (a * b) % MODULUS
  }

  datatype Opcode = AddOp | MulOp {
    function Code(): nat {
      match this
      case AddOp => 0
      case MulOp => 1
    }
  }

  /** The operand is a 64-bit number. */
  datatype Action = Action(opcode: Opcode, operand: nat)

  datatype Block = Block(actions: seq<Action>)

  datatype ModelError =
    | NonCanonicalField(value: nat)
    | TooManyActions(actual: nat)
    | UnknownOpcode(code: nat)
    | MalformedBlock

  datatype Result<+T, +E> = Ok(value: T) | Err(error: E)

  predicate Canonical(value: nat) {
    value < MODULUS
  }

  /** What `validate` accepts. */
  predicate ValidBlock(b: Block) {
    |b.actions| <= MAX_ACTIONS && forall i | 0 <= i < |b.actions| :: Canonical(b.actions[i].operand)
  }

  /** The first action whose operand is not a field element. */
  ghost predicate FirstBad(actions: seq<Action>, i: int) {
    && 0 <= i < |actions| && !Canonical(actions[i].operand)
    && forall k | 0 <= k < i :: Canonical(actions[k].operand)
  }

  function Apply(a: Action, state: Felt): Felt {
    match a.opcode
    case AddOp => Add(state, ToFelt(a.operand))
    case MulOp => Mul(state, ToFelt(a.operand))
  }

  /** The state after the first n actions. */
  function RunTo(actions: seq<Action>, n: nat, pre: Felt): Felt
    requires n <= |actions|
  {
    if n == 0 then pre else Apply(actions[n - 1], RunTo(actions, n - 1, pre))
  }

  function Execute(b: Block, pre: Felt): Felt {
    RunTo(b.actions, |b.actions|, pre)
  }

  /** The checks and the loop of `execute`. */
  method RunBlock(b: Block, pre: nat) returns (r: Result<nat, ModelError>)
    ensures r.Ok? <==> ValidBlock(b) && Canonical(pre)
    ensures r.Ok? ==> r.value == Execute(b, pre)
    ensures |b.actions| > MAX_ACTIONS ==> r == Err(TooManyActions(|b.actions|))
    ensures forall i | FirstBad(b.actions, i) && |b.actions| <= MAX_ACTIONS ::
              r == Err(NonCanonicalField(b.actions[i].operand))
    ensures ValidBlock(b) && !Canonical(pre) ==> r == Err(NonCanonicalField(pre))
  {
    if |b.actions| > MAX_ACTIONS {
      return Err(TooManyActions(|b.actions|));
    }
    for i := 0 to |b.actions|
      invariant forall k | 0 <= k < i :: Canonical(b.actions[k].operand)
    {
      if !Canonical(b.actions[i].operand) {
        return Err(NonCanonicalField(b.actions[i].operand));
      }
    }
    if !Canonical(pre) {
      return Err(NonCanonicalField(pre));
    }
    var state: Felt := pre;
    for i := 0 to |b.actions|
      invariant state == RunTo(b.actions, i, pre)
    {
      state := Apply(b.actions[i], state);
    }
    return Ok(state);
  }

  // ---------------------------------------------------------------------------------------------
  // Trace length
  // ---------------------------------------------------------------------------------------------

  /** r is the least power of two that is at least n. */
  ghost predicate LeastPower(r: nat, n: nat) {
    n <= r && exists k: nat :: r == Pow2(k) && (k == 0 || Pow2(k - 1) < n)
  }

  /** `next_power_of_two`, trying exponents from e upwards. */
  function NextPower(n: nat, e: nat): (r: nat)
    requires e == 0 || Pow2(e - 1) < n
    ensures LeastPower(r, n)
    decreases n - Pow2(e)
  {
    if n <= Pow2(e) then assert LeastPower(Pow2(e), n); Pow2(e) else NextPower(n, e + 1)
  }

  function TraceLength(actions: nat): nat {
    NextPower(if actions + 1 > 8 then actions + 1 else 8, 0)
  }

  lemma {:induction false} Pow2Monotone(a: nat, b: nat)
    requires a <= b
    ensures Pow2(a) <= Pow2(b)
  {
    if a < b { Pow2Monotone(a, b - 1); }
  }

  lemma LeastPowerAtMost(r: nat, n: nat, e: nat)
    requires LeastPower(r, n) && n <= Pow2(e)
    ensures r <= Pow2(e)
  {
    var k: nat :| r == Pow2(k) && (k == 0 || Pow2(k - 1) < n);
    if k > e { Pow2Monotone(e, k - 1); } else { Pow2Monotone(k, e); }
  }

  /** The trace length is the least power of two that is at least 8 and leaves a row after the last
      action; for an admissible block it is at most 2048. */
  lemma TraceLengthBounds(actions: nat)
    ensures LeastPower(TraceLength(actions), if actions + 1 > 8 then actions + 1 else 8)
    ensures actions <= MAX_ACTIONS ==> TraceLength(actions) <= MAX_TRACE_LENGTH
  {
    if actions <= MAX_ACTIONS {
      assert Pow2(8) == 256;
      assert Pow2(11) == 8 * Pow2(8);
      LeastPowerAtMost(TraceLength(actions), if actions + 1 > 8 then actions + 1 else 8, 11);
    }
  }
}
