/** The algebraic description of an execution: a padded three-column trace, boundary assertions and
two transition constraints, and the theorem that a satisfying trace exists exactly for the true
post-state. */
module Air {
  import opened Execution

  datatype Row = Row(state: Felt, opcode: Felt, operand: Felt)

  /** The cell in the given column of a row must have the given value. */
  datatype Assertion = Assertion(column: nat, row: nat, value: Felt)

  datatype AccumulatorAir = AccumulatorAir(length: nat, pre: Felt, post: Felt, opcodes: seq<Felt>, operands: seq<Felt>)

  /** The actions resized with additions of zero. */
  function PaddedActions(b: Block, length: nat): (a: seq<Action>)
    requires |b.actions| < length
    ensures |a| == length - 1
  {
    b.actions + seq(length - 1 - |b.actions|, _ => Action(AddOp, 0))
  }

  /** The actions of a block as the trace pads them. */
  function Padded(b: Block): (a: seq<Action>)
    ensures |a| == TraceLength(|b.actions|) - 1 && |b.actions| <= |a|
  {
    TraceLengthBounds(|b.actions|);
    PaddedActions(b, TraceLength(|b.actions|))
  }

  function OpcodeColumn(actions: seq<Action>, n: nat): (c: seq<Felt>)
    ensures |c| == n
    ensures forall i | 0 <= i < n :: c[i] == if i < |actions| then ToFelt(actions[i].opcode.Code()) else 0
  {
    seq(n, i requires 0 <= i < n => if i < |actions| then ToFelt(actions[i].opcode.Code()) else 0)
  }

  function OperandColumn(actions: seq<Action>, n: nat): (c: seq<Felt>)
    ensures |c| == n
    ensures forall i | 0 <= i < n :: c[i] == if i < |actions| then ToFelt(actions[i].operand) else 0
  {
    seq(n, i requires 0 <= i < n => if i < |actions| then ToFelt(actions[i].operand) else 0)
  }

  /** The constraint system of the public inputs. */
  function AirOf(b: Block, pre: Felt, post: Felt): AccumulatorAir {
    TraceLengthBounds(|b.actions|);
    var n := TraceLength(|b.actions|);
    AccumulatorAir(n, pre, post, OpcodeColumn(b.actions, n - 1), OperandColumn(b.actions, n - 1))
  }

  /** The zero-filled columns are overwritten action by action. */
  method NewAir(b: Block, pre: Felt, post: Felt) returns (air: AccumulatorAir)
    ensures air == AirOf(b, pre, post)
  {
    TraceLengthBounds(|b.actions|);
    var n := TraceLength(|b.actions|) - 1;
    var opcodes, operands := OpcodeColumn([], n), OperandColumn([], n);
    for i := 0 to |b.actions|
      invariant opcodes == OpcodeColumn(b.actions[..i], n)
      invariant operands == OperandColumn(b.actions[..i], n)
    {
      opcodes := opcodes[i := ToFelt(b.actions[i].opcode.Code())];
      operands := operands[i := ToFelt(b.actions[i].operand)];
    }
    assert b.actions[..|b.actions|] == b.actions;
    air := AccumulatorAir(n + 1, pre, post, opcodes, operands);
  }

  // ---------------------------------------------------------------------------------------------
  // Constraints
  // ---------------------------------------------------------------------------------------------

  /** The two constraint polynomials on a pair of adjacent rows; both must be zero. */
  function EvaluateTransition(current: Row, next: Row): (Felt, Felt) {
    var state, opcode, operand := current.state, current.opcode, current.operand;
    var expected := Add(Mul(Sub(1, opcode), Add(state, operand)), Mul(Mul(opcode, state), operand));
    (Mul(opcode, Sub(opcode, 1)), Sub(next.state, expected))
  }

  function RowAssertions(air: AccumulatorAir, n: nat): seq<Assertion>
    requires n <= |air.opcodes| == |air.operands|
  {
    if n == 0 then []
    else RowAssertions(air, n - 1) + [Assertion(1, n - 1, air.opcodes[n - 1]), Assertion(2, n - 1, air.operands[n - 1])]
  }

  function Assertions(air: AccumulatorAir): seq<Assertion>
    requires |air.opcodes| == |air.operands| && 1 <= air.length
  {
    [Assertion(0, 0, air.pre), Assertion(0, air.length - 1, air.post)] + RowAssertions(air, |air.opcodes|)
  }

  method GetAssertions(air: AccumulatorAir) returns (a: seq<Assertion>)
    requires |air.opcodes| == |air.operands| && 1 <= air.length
    ensures a == Assertions(air)
  {
    a := [Assertion(0, 0, air.pre), Assertion(0, air.length - 1, air.post)];
    for row := 0 to |air.opcodes|
      invariant a == [Assertion(0, 0, air.pre), Assertion(0, air.length - 1, air.post)] + RowAssertions(air, row)
    {
      a := a + [Assertion(1, row, air.opcodes[row])];
      a := a + [Assertion(2, row, air.operands[row])];
    }
  }

  predicate Meets(trace: seq<Row>, a: Assertion) {
    && a.row < |trace|
    && (a.column == 0 ==> trace[a.row].state == a.value)
    && (a.column == 1 ==> trace[a.row].opcode == a.value)
    && (a.column == 2 ==> trace[a.row].operand == a.value)
  }

  /** A trace that a verifier of this system accepts: every assertion is met, and both constraints
      vanish on every pair of adjacent rows. */
  ghost predicate Satisfies(air: AccumulatorAir, trace: seq<Row>)
    requires |air.opcodes| == |air.operands| && 1 <= air.length
  {
    && |trace| == air.length
    && (forall a | a in Assertions(air) :: Meets(trace, a))
    && (forall k | 0 <= k < |trace| - 1 :: EvaluateTransition(trace[k], trace[k + 1]) == (0, 0))
  }

  // ---------------------------------------------------------------------------------------------
  // The constraints compute the actions
  // ---------------------------------------------------------------------------------------------

  lemma FieldUnits(x: Felt)
    ensures Mul(1, x) == x && Mul(0, x) == 0 && Mul(x, 0) == 0 && Add(x, 0) == x && Add(0, x) == x
    ensures Sub(1, 0) == 1 && Sub(1, 1) == 0 && Sub(0, 1) == MODULUS - 1
  {}

  lemma SubZero(a: Felt, b: Felt)
    ensures Sub(a, b) == 0 <==> a == b
  {}

  /** For a row holding an action, the constraints vanish exactly when the next state is the result
      of that action. */
  lemma TransitionIsAction(a: Action, state: Felt, next: Row)
    ensures var current := Row(state, ToFelt(a.opcode.Code()), ToFelt(a.operand));
            EvaluateTransition(current, next) == (0, 0) <==> next.state == Apply(a, state)
  {
    var operand := ToFelt(a.operand);
    FieldUnits(state);
    FieldUnits(Add(state, operand));
    FieldUnits(Mul(state, operand));
    FieldUnits(operand);
    FieldUnits(MODULUS - 1);
    SubZero(next.state, Apply(a, state));
  }

  lemma {:induction false} AssertionsOfRows(air: AccumulatorAir, n: nat, row: nat)
    requires row < n <= |air.opcodes| == |air.operands|
    ensures Assertion(1, row, air.opcodes[row]) in RowAssertions(air, n)
    ensures Assertion(2, row, air.operands[row]) in RowAssertions(air, n)
  {
    if row < n - 1 { AssertionsOfRows(air, n - 1, row); }
  }

  lemma {:induction false} RowsMeetAssertions(air: AccumulatorAir, trace: seq<Row>, n: nat)
    requires n <= |air.opcodes| == |air.operands| < |trace|
    requires forall k | 0 <= k < n :: trace[k].opcode == air.opcodes[k] && trace[k].operand == air.operands[k]
    ensures forall a | a in RowAssertions(air, n) :: Meets(trace, a)
  {
    if n > 0 { RowsMeetAssertions(air, trace, n - 1); }
  }

  /** Row k of a padded block holds padded action k. */
  lemma PaddedCell(b: Block, pre: Felt, post: Felt, k: nat)
    requires k < TraceLength(|b.actions|) - 1
    ensures var air := AirOf(b, pre, post);
            && air.opcodes[k] == ToFelt(Padded(b)[k].opcode.Code())
            && air.operands[k] == ToFelt(Padded(b)[k].operand)
  {}

  /** A satisfying trace runs the padded actions. */
  lemma {:induction false} TraceRunsActions(b: Block, pre: Felt, post: Felt, trace: seq<Row>, k: nat)
    requires k < TraceLength(|b.actions|)
    requires Satisfies(AirOf(b, pre, post), trace)
    ensures trace[k].state == RunTo(Padded(b), k, pre)
  {
    var air := AirOf(b, pre, post);
    if k == 0 {
      assert Assertion(0, 0, pre) in Assertions(air);
    } else {
      TraceRunsActions(b, pre, post, trace, k - 1);
      AssertionsOfRows(air, |air.opcodes|, k - 1);
      assert Meets(trace, Assertion(1, k - 1, air.opcodes[k - 1]));
      assert Meets(trace, Assertion(2, k - 1, air.operands[k - 1]));
      PaddedCell(b, pre, post, k - 1);
      assert EvaluateTransition(trace[k - 1], trace[k - 1 + 1]) == (0, 0);
      TransitionIsAction(Padded(b)[k - 1], trace[k - 1].state, trace[k]);
    }
  }

  /** Padding never changes the state. */
  lemma {:induction false} PaddingKeepsState(b: Block, length: nat, n: nat, pre: Felt)
    requires |b.actions| <= n < length
    ensures RunTo(PaddedActions(b, length), n, pre) == Execute(b, pre)
  {
    if n > |b.actions| {
      PaddingKeepsState(b, length, n - 1, pre);
      FieldUnits(Execute(b, pre));
    } else {
      PrefixRuns(b, length, n, pre);
    }
  }

  lemma {:induction false} PrefixRuns(b: Block, length: nat, n: nat, pre: Felt)
    requires n <= |b.actions| < length
    ensures RunTo(PaddedActions(b, length), n, pre) == RunTo(b.actions, n, pre)
  {
    if n > 0 { PrefixRuns(b, length, n - 1, pre); }
  }

  /** Soundness: a satisfying trace ends in the true post-state. */
  lemma SatisfiedMeansExecuted(b: Block, pre: Felt, post: Felt, trace: seq<Row>)
    requires Satisfies(AirOf(b, pre, post), trace)
    ensures post == Execute(b, pre)
  {
    var n := TraceLength(|b.actions|);
    var air := AirOf(b, pre, post);
    assert Assertion(0, n - 1, post) in Assertions(air);
    TraceRunsActions(b, pre, post, trace, n - 1);
    PaddingKeepsState(b, n, n - 1, pre);
  }

  // ---------------------------------------------------------------------------------------------
  // Building the trace
  // ---------------------------------------------------------------------------------------------

  function RowOf(a: Action, state: Felt): Row {
    Row(state, ToFelt(a.opcode.Code()), ToFelt(a.operand))
  }

  /** The trace of a sequence of actions: a row for each, and a last row whose opcode and operand are
      free. */
  ghost predicate IsTraceOf(actions: seq<Action>, pre: Felt, trace: seq<Row>) {
    && |trace| == |actions| + 1
    && (forall k {:trigger trace[k]} | 0 <= k < |actions| :: trace[k] == RowOf(actions[k], RunTo(actions, k, pre)))
    && trace[|actions|].state == RunTo(actions, |actions|, pre)
  }

  lemma TraceOfMeetsConstraints(actions: seq<Action>, pre: Felt, trace: seq<Row>, k: nat)
    requires IsTraceOf(actions, pre, trace) && k < |actions|
    ensures EvaluateTransition(trace[k], trace[k + 1]) == (0, 0)
  {
    TransitionIsAction(actions[k], trace[k].state, trace[k + 1]);
    assert trace[k + 1].state == RunTo(actions, k + 1, pre);
  }

  lemma BuiltCell(b: Block, pre: Felt, post: Felt, trace: seq<Row>, k: nat)
    requires k < TraceLength(|b.actions|) - 1
    requires IsTraceOf(Padded(b), pre, trace)
    ensures trace[k].opcode == AirOf(b, pre, post).opcodes[k] && trace[k].operand == AirOf(b, pre, post).operands[k]
  {
    PaddedCell(b, pre, post, k);
  }

  lemma AssertionsMet(air: AccumulatorAir, trace: seq<Row>)
    requires |air.opcodes| == |air.operands| < |trace| && 1 <= air.length <= |trace|
    requires trace[0].state == air.pre && trace[air.length - 1].state == air.post
    requires forall k | 0 <= k < |air.opcodes| ::
             trace[k].opcode == air.opcodes[k] && trace[k].operand == air.operands[k]
    ensures forall a | a in Assertions(air) :: Meets(trace, a)
  {
    RowsMeetAssertions(air, trace, |air.opcodes|);
  }

  lemma BuiltMeetsAssertions(b: Block, pre: Felt, trace: seq<Row>)
    requires IsTraceOf(Padded(b), pre, trace)
    ensures forall a | a in Assertions(AirOf(b, pre, Execute(b, pre))) :: Meets(trace, a)
  {
    var n := TraceLength(|b.actions|);
    var air := AirOf(b, pre, Execute(b, pre));
    PaddingKeepsState(b, n, n - 1, pre);
    forall k | 0 <= k < n - 1 ensures trace[k].opcode == air.opcodes[k] && trace[k].operand == air.operands[k] {
      BuiltCell(b, pre, Execute(b, pre), trace, k);
    }
    AssertionsMet(air, trace);
  }

  lemma BuiltTraceSatisfies(b: Block, pre: Felt, trace: seq<Row>)
    requires IsTraceOf(Padded(b), pre, trace)
    ensures Satisfies(AirOf(b, pre, Execute(b, pre)), trace)
  {
    BuiltMeetsAssertions(b, pre, trace);
    forall k | 0 <= k < |trace| - 1 ensures EvaluateTransition(trace[k], trace[k + 1]) == (0, 0) {
      TraceOfMeetsConstraints(Padded(b), pre, trace, k);
    }
  }

  /** The table is filled row by row from one mutable row. */
  method FillTrace(actions: seq<Action>, pre: Felt) returns (trace: seq<Row>)
    requires actions != []
    ensures IsTraceOf(actions, pre, trace)
  {
    var table := new Row[|actions| + 1](_ => Row(0, 0, 0));
    var row := RowOf(actions[0], pre);
    table[0] := row;
    for step := 0 to |actions|
      invariant row.state == RunTo(actions, step, pre)
      invariant table[step] == row && (step < |actions| ==> row == RowOf(actions[step], RunTo(actions, step, pre)))
      invariant forall k {:trigger table[k]} | 0 <= k < step :: table[k] == RowOf(actions[k], RunTo(actions, k, pre))
    {
      row := row.(state := Apply(actions[step], row.state));
      if step + 1 < |actions| {
        row := RowOf(actions[step + 1], row.state);
      }
      table[step + 1] := row;
    }
    trace := table[..];
  }

  method BuildTrace(b: Block, pre: nat) returns (r: Result<seq<Row>, ModelError>)
    ensures r.Ok? <==> Canonical(pre)
    ensures r.Err? ==> r.error == NonCanonicalField(pre)
    ensures r.Ok? ==> Satisfies(AirOf(b, pre, Execute(b, pre)), r.value)
  {
    TraceLengthBounds(|b.actions|);
    var actions := Padded(b);
    if !Canonical(pre) {
      return Err(NonCanonicalField(pre));
    }
    var trace := FillTrace(actions, pre);
    BuiltTraceSatisfies(b, pre, trace);
    return Ok(trace);
  }

  function TraceOf(actions: seq<Action>, pre: Felt): seq<Row> {
    seq(|actions| + 1, k requires 0 <= k <= |actions| =>
      if k < |actions| then RowOf(actions[k], RunTo(actions, k, pre)) else Row(RunTo(actions, k, pre), 0, 0))
  }

  /** A trace satisfying all assertions and constraints exists if and only if the claimed post-state
      is the one the interpreter computes. */
  lemma SatisfiableIffExecuted(b: Block, pre: Felt, post: Felt)
    ensures (exists trace :: Satisfies(AirOf(b, pre, post), trace)) <==> post == Execute(b, pre)
  {
    TraceLengthBounds(|b.actions|);
    if trace :| Satisfies(AirOf(b, pre, post), trace) {
      SatisfiedMeansExecuted(b, pre, post, trace);
    }
    if post == Execute(b, pre) {
      BuiltTraceSatisfies(b, pre, TraceOf(Padded(b), pre));
    }
  }
}
