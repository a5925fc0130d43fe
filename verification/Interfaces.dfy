/** What agents hand to the host: identifiers, commitments, and the bounds on the JSON they carry. */
module Interfaces {
  import opened Options
  import opened Widths

  const MAX_IDENTIFIER_BYTES: nat := 128
  const COMMITMENT_BYTES: nat := 96
  const MAX_TEXT_BYTES: nat := 4 * 1024
  const MAX_JSON_DEPTH: nat := 16
  const MAX_JSON_MEMBERS: nat := 256

  datatype InterfaceError =
    | UnsupportedVersion
    | InvalidIdentifier
    | InvalidAuthority
    | InvalidSurface
    | InvalidComponent
    | InvalidBinding
    | InvalidAction
    | LimitExceeded

  datatype Result = Ok | Err(error: InterfaceError)

  /** The bytes a character takes in UTF-8. */
  function Utf8Width(c: char): nat {
    if c as int < 0x80 then 1 else if c as int < 0x800 then 2 else if c as int < 0x1_0000 then 3 else 4
  }

  function ByteLength(s: string): nat {
    if s == "" then 0 else ByteLength(s[..|s| - 1]) + Utf8Width(s[|s| - 1])
  }

  predicate IdentifierChar(c: char) {
    '0' <= c <= '9' || 'A' <= c <= 'Z' || 'a' <= c <= 'z' || c in "._-:"
  }

  /** What `require_identifier` accepts. */
  predicate Identifier(s: string) {
    s != "" && ByteLength(s) <= MAX_IDENTIFIER_BYTES && forall c | c in s :: IdentifierChar(c)
  }

  /** What `require_commitment` accepts: 48 bytes in hexadecimal. */
  predicate Commitment(s: string) {
    ByteLength(s) == COMMITMENT_BYTES && forall c | c in s :: '0' <= c <= '9' || 'A' <= c <= 'F' || 'a' <= c <= 'f'
  }

  /** The payload bits of a UTF-8 sequence of n bytes: the lead byte's, and six in each byte after it. */
  function PayloadBits(n: nat): nat
    requires 1 <= n <= 4
  {
    if n == 1 then 7 else (7 - n) + 6 * (n - 1)
  }

  /** A character takes the fewest bytes that its code point fits in. */
  lemma WidthIsLeast(c: char)
    requires c as int < 0x11_0000
    ensures var n := Utf8Width(c);
            && 1 <= n <= 4 && c as int < Pow2(PayloadBits(n))
            && (n > 1 ==> c as int >= Pow2(PayloadBits(n - 1)))
  {
    assert Pow2(7) == 0x80;
    assert Pow2(11) == 0x10 * Pow2(7);
    assert Pow2(16) == 0x20 * Pow2(11);
    assert Pow2(21) == 0x20 * Pow2(16);
  }

  lemma {:induction false} AsciiLength(s: string)
    ensures |s| <= ByteLength(s) <= 4 * |s|
    ensures ByteLength(s) == |s| <==> forall c | c in s :: c as int < 0x80
  {
    if s != "" {
      var n := |s| - 1;
      AsciiLength(s[..n]);
      assert s == s[..n] + [s[n]] && s[n] in s;
      assert forall c :: c in s <==> c in s[..n] || c == s[n];
    }
  }

  const DIGITS: string := "0123456789"
  const CAPITALS: string := "ABCDEFGHIJKLMNOPQRSTUVWXYZ"
  const LETTERS: string := "abcdefghijklmnopqrstuvwxyz"

  lemma DigitsInOrder(c: char)
    ensures '0' <= c <= '9' <==> c in DIGITS
  {
    if '0' <= c <= '9' { assert c == DIGITS[c as int - '0' as int]; }
  }

  lemma CapitalsInOrder(c: char)
    ensures 'A' <= c <= 'Z' <==> c in CAPITALS
  {
    if 'A' <= c <= 'Z' { assert c == CAPITALS[c as int - 'A' as int]; }
  }

  lemma LettersInOrder(c: char)
    ensures 'a' <= c <= 'z' <==> c in LETTERS
  {
    if 'a' <= c <= 'z' { assert c == LETTERS[c as int - 'a' as int]; }
  }

  lemma IdentifierChars(c: char)
    ensures IdentifierChar(c) <==> c in DIGITS + CAPITALS + LETTERS + "._-:"
  {
    DigitsInOrder(c);
    CapitalsInOrder(c);
    LettersInOrder(c);
  }

  /** An identifier is one to 128 characters: digits, letters, dots, underscores, hyphens and colons. */
  lemma IdentifierIsText(s: string)
    ensures Identifier(s) <==> 1 <= |s| <= 128 && forall c | c in s :: c in DIGITS + CAPITALS + LETTERS + "._-:"
  {
    forall c | c in s ensures IdentifierChar(c) <==> c in DIGITS + CAPITALS + LETTERS + "._-:" {
      IdentifierChars(c);
    }
    AsciiLength(s);
  }

  /** A commitment is 96 hexadecimal digits, capital or small. */
  lemma CommitmentIsHex(s: string)
    ensures Commitment(s) <==> |s| == 96 && forall c | c in s :: c in "0123456789ABCDEFabcdef"
  {
    AsciiLength(s);
  }

  // ---------------------------------------------------------------------------------------------
  // JSON
  // ---------------------------------------------------------------------------------------------

  /** A plain value is null, a boolean or a number. The fields of an object are in the map's own order. */
  datatype Json = Plain | Text(text: string) | Array(items: seq<Json>) | Object(fields: seq<(string, Json)>)

  function Children(v: Json): (children: seq<Json>)
    ensures v.Object? ==> |children| == |v.fields|
    ensures forall i | 0 <= i < |children| :: children[i] < v
  {
    match v
    case Plain => []
    case Text(_) => []
    case Array(items) => items
    case Object(fields) => seq(|fields|, i requires 0 <= i < |fields| => fields[i].1)
  }

  /** `validate_json`: the first error met, outermost and leftmost first. */
  function JsonVerdict(v: Json, depth: nat): Result
    decreases v, |Children(v)| + 1
  {
    if depth > MAX_JSON_DEPTH then Err(LimitExceeded)
    else if v.Text? && ByteLength(v.text) > MAX_TEXT_BYTES then Err(LimitExceeded)
    else if |Children(v)| > MAX_JSON_MEMBERS then Err(LimitExceeded)
    else ChildrenVerdict(v, depth, 0)
  }

  /** The children from number i on; in an object each after its key. */
  function ChildrenVerdict(v: Json, depth: nat, i: nat): Result
    requires i <= |Children(v)|
    decreases v, |Children(v)| - i
  {
    if i == |Children(v)| then Ok
    else if v.Object? && !Identifier(v.fields[i].0) then Err(InvalidIdentifier)
    else
      var r := JsonVerdict(Children(v)[i], depth + 1);
      if r.Err? then r else ChildrenVerdict(v, depth, i + 1)
  }

  method ValidateJson(v: Json, depth: nat) returns (r: Result)
    ensures r == JsonVerdict(v, depth)
    decreases v
  {
    if depth > MAX_JSON_DEPTH {
      return Err(LimitExceeded);
    }
    match v
    case Plain =>
      return Ok;
    case Text(text) =>
      return if ByteLength(text) > MAX_TEXT_BYTES then Err(LimitExceeded) else Ok;
    case Array(items) =>
      if |items| > MAX_JSON_MEMBERS {
        return Err(LimitExceeded);
      }
      for i := 0 to |items|
        invariant ChildrenVerdict(v, depth, i) == JsonVerdict(v, depth)
      {
        r := ValidateJson(items[i], depth + 1);
        if r.Err? {
          return;
        }
      }
      return Ok;
    case Object(fields) =>
      if |fields| > MAX_JSON_MEMBERS {
        return Err(LimitExceeded);
      }
      for i := 0 to |fields|
        invariant ChildrenVerdict(v, depth, i) == JsonVerdict(v, depth)
      {
        if !Identifier(fields[i].0) {
          return Err(InvalidIdentifier);
        }
        r := ValidateJson(fields[i].1, depth + 1);
        if r.Err? {
          return;
        }
      }
      return Ok;
  }

  /** The value found by going down from child to child, if there is one. */
  function At(v: Json, path: seq<nat>): Option<Json>
    decreases |path|
  {
    if path == [] then Some(v)
    else if path[0] >= |Children(v)| then None
    else At(Children(v)[path[0]], path[1..])
  }

  /** The bounds on one value, whatever it holds. */
  predicate Bounded(v: Json) {
    && (v.Text? ==> ByteLength(v.text) <= MAX_TEXT_BYTES)
    && |Children(v)| <= MAX_JSON_MEMBERS
    && (v.Object? ==> forall i | 0 <= i < |v.fields| :: Identifier(v.fields[i].0))
  }

  ghost predicate BoundedAt(v: Json, depth: nat, path: seq<nat>) {
    At(v, path).Some? ==> depth + |path| <= MAX_JSON_DEPTH && Bounded(At(v, path).value)
  }

  /** Every value anywhere inside is bounded, and none is nested too deeply. */
  ghost predicate BoundedThroughout(v: Json, depth: nat) {
    forall path :: BoundedAt(v, depth, path)
  }

  lemma {:induction false} ChildrenVerdictIsAll(v: Json, depth: nat, i: nat)
    requires i <= |Children(v)|
    ensures ChildrenVerdict(v, depth, i).Ok? <==>
            forall k | i <= k < |Children(v)| ::
              && (v.Object? ==> Identifier(v.fields[k].0))
              && JsonVerdict(Children(v)[k], depth + 1).Ok?
    decreases |Children(v)| - i
  {
    if i < |Children(v)| { ChildrenVerdictIsAll(v, depth, i + 1); }
  }

  lemma ChildBoundedThroughout(v: Json, depth: nat, k: nat)
    requires BoundedThroughout(v, depth) && k < |Children(v)|
    ensures BoundedThroughout(Children(v)[k], depth + 1)
  {
    var child, below := Children(v)[k], depth + 1;
    forall path ensures BoundedAt(child, below, path) {
      assert BoundedAt(v, depth, [k] + path);
      assert ([k] + path)[1..] == path;
    }
  }

  lemma ThroughoutFromChildren(v: Json, depth: nat)
    requires depth <= MAX_JSON_DEPTH && Bounded(v)
    requires forall k: nat | k < |Children(v)| :: BoundedThroughout(Children(v)[k], depth + 1)
    ensures BoundedThroughout(v, depth)
  {
    forall path ensures BoundedAt(v, depth, path) {
      if path != [] && path[0] < |Children(v)| {
        assert BoundedAt(Children(v)[path[0]], depth + 1, path[1..]);
      }
    }
  }

  /** A JSON value is accepted if and only if every value inside it, however it is reached, is bounded and
      nested at most sixteen deep. */
  lemma {:induction false} JsonCheckIsExact(v: Json, depth: nat)
    ensures JsonVerdict(v, depth).Ok? <==> BoundedThroughout(v, depth)
    decreases v
  {
    forall k: nat | k < |Children(v)|
      ensures JsonVerdict(Children(v)[k], depth + 1).Ok? <==> BoundedThroughout(Children(v)[k], depth + 1)
    {
      JsonCheckIsExact(Children(v)[k], depth + 1);
    }
    ChildrenVerdictIsAll(v, depth, 0);
    if BoundedThroughout(v, depth) {
      assert BoundedAt(v, depth, []);
      forall k: nat | k < |Children(v)| { ChildBoundedThroughout(v, depth, k); }
    }
    if JsonVerdict(v, depth).Ok? {
      ThroughoutFromChildren(v, depth);
    }
  }

  // ---------------------------------------------------------------------------------------------
  // Which error
  // ---------------------------------------------------------------------------------------------

  /** What is wrong with one value, without looking inside it. */
  function OwnFaults(v: Json, depth: nat): seq<InterfaceError> {
    if depth <= 16 && (v.Text? ==> ByteLength(v.text) <= 4096) && |Children(v)| <= 256 then [] else [LimitExceeded]
  }

  /** Everything that is wrong with a value and inside it, outermost and leftmost first. */
  function Faults(v: Json, depth: nat): seq<InterfaceError>
    decreases v, |Children(v)| + 1
  {
    OwnFaults(v, depth) + FaultsFrom(v, depth, 0)
  }

  function FaultsFrom(v: Json, depth: nat, i: nat): seq<InterfaceError>
    requires i <= |Children(v)|
    decreases v, |Children(v)| - i
  {
    if i == |Children(v)| then []
    else
      (if v.Object? && !Identifier(v.fields[i].0) then [InvalidIdentifier] else [])
      + Faults(Children(v)[i], depth + 1) + FaultsFrom(v, depth, i + 1)
  }

  function FirstOf(faults: seq<InterfaceError>): Result {
    if faults == [] then Ok else Err(faults[0])
  }

  /** The error of a refused value is the first of everything that is wrong with it. */
  lemma {:induction false} JsonErrorIsFirst(v: Json, depth: nat)
    ensures JsonVerdict(v, depth) == FirstOf(Faults(v, depth))
    decreases v, |Children(v)| + 1
  {
    ChildrenErrorIsFirst(v, depth, 0);
  }

  lemma {:induction false} ChildrenErrorIsFirst(v: Json, depth: nat, i: nat)
    requires i <= |Children(v)|
    ensures ChildrenVerdict(v, depth, i) == FirstOf(FaultsFrom(v, depth, i))
    decreases v, |Children(v)| - i
  {
    if i < |Children(v)| {
      JsonErrorIsFirst(Children(v)[i], depth + 1);
      ChildrenErrorIsFirst(v, depth, i + 1);
    }
  }

  lemma {:induction false} FaultKinds(v: Json, depth: nat)
    ensures forall e | e in Faults(v, depth) :: e in {LimitExceeded, InvalidIdentifier}
    decreases v, |Children(v)| + 1
  {
    FaultKindsFrom(v, depth, 0);
  }

  lemma {:induction false} FaultKindsFrom(v: Json, depth: nat, i: nat)
    requires i <= |Children(v)|
    ensures forall e | e in FaultsFrom(v, depth, i) :: e in {LimitExceeded, InvalidIdentifier}
    decreases v, |Children(v)| - i
  {
    if i < |Children(v)| {
      FaultKinds(Children(v)[i], depth + 1);
      FaultKindsFrom(v, depth, i + 1);
    }
  }
}
