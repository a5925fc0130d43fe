/** The canonical codec as parts that are put together: rows of fixed-width integers, judged values, pairs
and counted lists. A part is exact when reading undoes writing and nothing else is read. */
module Codecs {
  import opened Arithmetic
  import opened Envelopes
  import opened Lengths
  import opened Octets
  import opened Options
  import opened Sequences
  import opened Widths

  // ---------------------------------------------------------------------------------------------
  // One row
  // ---------------------------------------------------------------------------------------------

  function Size(widths: seq<nat>): nat {
    if widths == [] then 0 else widths[0] + Size(widths[1..])
  }

  function Sum(widths: seq<nat>, n: nat): nat
    requires n <= |widths|
  {
    if n == 0 then 0 else Sum(widths, n - 1) + widths[n - 1]
  }

  lemma {:induction false} SumTail(widths: seq<nat>, n: nat)
    requires n < |widths|
    ensures Sum(widths, n + 1) == widths[0] + Sum(widths[1..], n)
  {
    if n > 0 { SumTail(widths, n - 1); }
  }

  lemma {:induction false} SizeIsSum(widths: seq<nat>)
    ensures Size(widths) == Sum(widths, |widths|)
  {
    if widths != [] {
      SizeIsSum(widths[1..]);
      SumTail(widths, |widths| - 1);
    }
  }

  predicate Fits(row: seq<nat>, widths: seq<nat>) {
    |row| == |widths| && forall i | 0 <= i < |row| :: row[i] < Pow256(widths[i])
  }

  function WriteRow(row: seq<nat>, widths: seq<nat>): (b: Octets)
    requires Fits(row, widths)
    ensures |b| == Size(widths)
  {
    if row == [] then [] else ToBE(row[0], widths[0]) + WriteRow(row[1..], widths[1..])
  }

  function ReadRow(b: Octets, widths: seq<nat>): (row: seq<nat>)
    requires |b| == Size(widths)
    ensures Fits(row, widths)
  {
    if widths == [] then [] else [FromBE(b[..widths[0]])] + ReadRow(b[widths[0]..], widths[1..])
  }

  lemma {:induction false} ReadWrittenRow(row: seq<nat>, widths: seq<nat>)
    requires Fits(row, widths)
    ensures ReadRow(WriteRow(row, widths), widths) == row
  {
    if row != [] {
      TakeFront(ToBE(row[0], widths[0]), WriteRow(row[1..], widths[1..]));
      FromToBE(row[0], widths[0]);
      ReadWrittenRow(row[1..], widths[1..]);
    }
  }

  lemma {:induction false} WriteReadRow(b: Octets, widths: seq<nat>)
    requires |b| == Size(widths)
    ensures WriteRow(ReadRow(b, widths), widths) == b
  {
    if widths != [] {
      var row := ReadRow(b, widths);
      assert row[1..] == ReadRow(b[widths[0]..], widths[1..]);
      WriteReadRow(b[widths[0]..], widths[1..]);
      ToFromBE(b[..widths[0]]);
      assert b == b[..widths[0]] + b[widths[0]..];
    }
  }

  /** The bytes of field i, where the widths before it end. */
  ghost predicate FieldIs(b: Octets, widths: seq<nat>, i: nat, value: nat) {
    && i < |widths| && Sum(widths, i) + widths[i] <= |b|
    && FromBE(b[Sum(widths, i)..Sum(widths, i) + widths[i]]) == value
  }

  lemma FieldAfter(front: Octets, rest: Octets, widths: seq<nat>, i: nat, value: nat)
    requires widths != [] && |front| == widths[0] && FieldIs(rest, widths[1..], i, value)
    ensures FieldIs(front + rest, widths, i + 1, value)
  {
    SumTail(widths, i);
    var from := Sum(widths[1..], i);
    SliceAfter(front, rest, from, from + widths[i + 1]);
  }

  /** Every field of a row stands, big-endian, where the widths before it end. */
  lemma {:induction false} FieldAt(row: seq<nat>, widths: seq<nat>, i: nat)
    requires Fits(row, widths) && i < |row|
    ensures FieldIs(WriteRow(row, widths), widths, i, row[i])
    decreases i
  {
    var front, rest := ToBE(row[0], widths[0]), WriteRow(row[1..], widths[1..]);
    if i == 0 {
      TakeFront(front, rest);
      FromToBE(row[0], widths[0]);
    } else {
      FieldAt(row[1..], widths[1..], i - 1);
      FieldAfter(front, rest, widths, i - 1, row[i]);
    }
  }

  /** The bytes are exactly these fields of these widths, big-endian, one after another. */
  ghost predicate LaidOut(b: Octets, widths: seq<nat>, fields: seq<nat>) {
    && |fields| == |widths| && |b| == Sum(widths, |widths|)
    && forall i: nat | i < |fields| :: FieldIs(b, widths, i, fields[i])
  }

  lemma RowIsLaidOut(row: seq<nat>, widths: seq<nat>)
    requires Fits(row, widths)
    ensures LaidOut(WriteRow(row, widths), widths, row)
  {
    SizeIsSum(widths);
    forall i: nat | i < |row| ensures FieldIs(WriteRow(row, widths), widths, i, row[i]) {
      FieldAt(row, widths, i);
    }
  }

  // ---------------------------------------------------------------------------------------------
  // Exact codecs
  // ---------------------------------------------------------------------------------------------

  /** What was taken from the front, and what follows it. */
  datatype Taken<+T> = Taken(value: T, rest: Octets)

  /** The values it writes, their bytes, and what it takes from the front of an input. */
  datatype Codec<!T> = Codec(ok: T -> bool, write: T -> Octets, take: Octets -> Option<Taken<T>>)

  /** Reading undoes writing, whatever follows. */
  ghost predicate Reads<T(!new)>(c: Codec<T>) {
    forall x: T, rest: Octets | c.ok(x) :: c.take(c.write(x) + rest) == Some(Taken(x, rest))
  }

  /** The input is the bytes of the value, followed by the rest. */
  predicate Written<T>(c: Codec<T>, b: Octets, t: Taken<T>) {
    c.ok(t.value) && b == c.write(t.value) + t.rest
  }

  /** Whatever is read was written. */
  ghost predicate Strict<T>(c: Codec<T>) {
    forall b: Octets | c.take(b).Some? :: Written(c, b, c.take(b).value)
  }

  ghost predicate Exact<T(!new)>(c: Codec<T>) {
    Reads(c) && Strict(c)
  }

  // ---------------------------------------------------------------------------------------------
  // Rows
  // ---------------------------------------------------------------------------------------------

  function WriteFitting(row: seq<nat>, widths: seq<nat>): Octets {
    if Fits(row, widths) then WriteRow(row, widths) else []
  }

  function TakeRow(b: Octets, widths: seq<nat>): Option<Taken<seq<nat>>> {
    var n := Size(widths);
    if |b| < n then None else Some(Taken(ReadRow(b[..n], widths), b[n..]))
  }

  function RowOf(widths: seq<nat>): Codec<seq<nat>> {
    Codec(row => Fits(row, widths), row => WriteFitting(row, widths), b => TakeRow(b, widths))
  }

  lemma RowIsExact(widths: seq<nat>)
    ensures Exact(RowOf(widths))
  {
    var c := RowOf(widths);
    forall row: seq<nat>, rest: Octets | c.ok(row) ensures c.take(c.write(row) + rest) == Some(Taken(row, rest)) {
      TakeFront(WriteRow(row, widths), rest);
      ReadWrittenRow(row, widths);
    }
    forall b: Octets | c.take(b).Some? ensures Written(c, b, c.take(b).value) {
      var n := Size(widths);
      WriteReadRow(b[..n], widths);
      assert b == b[..n] + b[n..];
    }
  }

  // ---------------------------------------------------------------------------------------------
  // Judged values
  // ---------------------------------------------------------------------------------------------

  /** How values are held in others: make judges and builds, parts takes apart. */
  datatype Layout<!A, !T> = Layout(make: A -> Option<T>, parts: T -> A)

  /** A value is made from its own parts only. */
  ghost predicate Faithful<A(!new), T>(s: Layout<A, T>) {
    forall a: A | s.make(a).Some? :: s.parts(s.make(a).value) == a
  }

  function TakeShaped<A, T>(c: Codec<A>, s: Layout<A, T>, b: Octets): Option<Taken<T>> {
    match c.take(b)
    case None => None
    case Some(t) =>
      match s.make(t.value)
      case None => None
      case Some(x) => Some(Taken(x, t.rest))
  }

  function Shaped<A, T(==)>(c: Codec<A>, s: Layout<A, T>): Codec<T> {
    Codec(x => c.ok(s.parts(x)) && s.make(s.parts(x)) == Some(x), x => c.write(s.parts(x)), b => TakeShaped(c, s, b))
  }

  lemma ShapedIsExact<A(!new), T(!new)>(c: Codec<A>, s: Layout<A, T>)
    requires Exact(c) && Faithful(s)
    ensures Exact(Shaped(c, s))
  {
    var shaped := Shaped(c, s);
    forall x: T, rest: Octets | shaped.ok(x) ensures shaped.take(shaped.write(x) + rest) == Some(Taken(x, rest)) {
      assert c.take(c.write(s.parts(x)) + rest) == Some(Taken(s.parts(x), rest));
    }
    forall b: Octets | shaped.take(b).Some? ensures Written(shaped, b, shaped.take(b).value) {
      var t := c.take(b).value;
      assert Written(c, b, t);
      assert s.parts(s.make(t.value).value) == t.value;
    }
  }

  // ---------------------------------------------------------------------------------------------
  // Pairs
  // ---------------------------------------------------------------------------------------------

  function TakeBoth<A, B>(first: Codec<A>, second: Codec<B>, b: Octets): Option<Taken<(A, B)>> {
    match first.take(b)
    case None => None
    case Some(t) =>
      match second.take(t.rest)
      case None => None
      case Some(u) => Some(Taken((t.value, u.value), u.rest))
  }

  function Both<A, B>(first: Codec<A>, second: Codec<B>): Codec<(A, B)> {
    Codec((x: (A, B)) => first.ok(x.0) && second.ok(x.1), (x: (A, B)) => first.write(x.0) + second.write(x.1),
          b => TakeBoth(first, second, b))
  }

  lemma BothIsExact<A(!new), B(!new)>(first: Codec<A>, second: Codec<B>)
    requires Exact(first) && Exact(second)
    ensures Exact(Both(first, second))
  {
    var c := Both(first, second);
    forall x: (A, B), rest: Octets | c.ok(x) ensures c.take(c.write(x) + rest) == Some(Taken(x, rest)) {
      assert c.write(x) + rest == first.write(x.0) + (second.write(x.1) + rest);
    }
    forall b: Octets | c.take(b).Some? ensures Written(c, b, c.take(b).value) {
      var t := first.take(b).value;
      assert Written(first, b, t);
      var u := second.take(t.rest).value;
      assert Written(second, t.rest, u);
      assert b == first.write(t.value) + second.write(u.value) + u.rest;
    }
  }

  // ---------------------------------------------------------------------------------------------
  // Counted lists
  // ---------------------------------------------------------------------------------------------

  predicate AllOk<T>(c: Codec<T>, xs: seq<T>) {
    forall i | 0 <= i < |xs| :: c.ok(xs[i])
  }

  function WriteItems<T>(c: Codec<T>, xs: seq<T>): Octets {
    if xs == [] then [] else c.write(xs[0]) + WriteItems(c, xs[1..])
  }

  /** The next count items, after the ones already taken. */
  function TakeItems<T>(c: Codec<T>, b: Octets, count: nat, before: seq<T>): Option<Taken<seq<T>>>
    decreases count
  {
    if count == 0 then Some(Taken(before, b))
    else
      match c.take(b)
      case None => None
      case Some(t) => TakeItems(c, t.rest, count - 1, before + [t.value])
  }

  lemma {:induction false} TakeWrittenItems<T(!new)>(c: Codec<T>, xs: seq<T>, before: seq<T>, rest: Octets)
    requires Reads(c) && AllOk(c, xs)
    ensures TakeItems(c, WriteItems(c, xs) + rest, |xs|, before) == Some(Taken(before + xs, rest))
    decreases |xs|
  {
    if xs == [] {
      assert before + xs == before && WriteItems(c, xs) + rest == rest;
    } else {
      var more := WriteItems(c, xs[1..]) + rest;
      assert WriteItems(c, xs) + rest == c.write(xs[0]) + more;
      TakeWrittenItems(c, xs[1..], before + [xs[0]], rest);
      assert before + [xs[0]] + xs[1..] == before + xs;
    }
  }

  lemma WriteCons<T>(c: Codec<T>, x: T, more: seq<T>, rest: Octets)
    ensures c.write(x) + (WriteItems(c, more) + rest) == WriteItems(c, [x] + more) + rest
  {
    var xs := [x] + more;
    assert xs[1..] == more;
  }

  lemma {:induction false} TakenItemsAreWritten<T>(c: Codec<T>, b: Octets, count: nat, before: seq<T>)
    returns (xs: seq<T>)
    requires Strict(c) && TakeItems(c, b, count, before).Some?
    ensures |xs| == count && AllOk(c, xs)
    ensures TakeItems(c, b, count, before).value.value == before + xs
    ensures b == WriteItems(c, xs) + TakeItems(c, b, count, before).value.rest
    decreases count
  {
    if count == 0 {
      xs := [];
    } else {
      var t := c.take(b).value;
      assert Written(c, b, t);
      var more := TakenItemsAreWritten(c, t.rest, count - 1, before + [t.value]);
      WriteCons(c, t.value, more, TakeItems(c, b, count, before).value.rest);
      xs := [t.value] + more;
    }
  }

  /** `read_length`; its loop is ReadLength. */
  function TakeLength(b: Octets, maximum: nat): Option<Taken<nat>> {
    var length := GoLength(b);
    if length.Err? || length.value > maximum then None else Some(Taken(length.value, b[length.width..]))
  }

  /** A fifth byte above 0x0f leaves the 32 bits, or goes on to a sixth. */
  lemma FifthByteOverflows(input: Octets)
    requires |input| > 4 && (forall k | 0 <= k < 4 :: Continues(input[k])) && input[4] > 0x0f
    ensures GoLength(input).Err?
  {
    if !Continues(input[4]) {
      StopIs(input, 4);
      assert input[..5] == input[..4] + [input[4]];
      ValueSnoc(input[..4], input[4]);
      SmallPowers();
    }
  }

  /** The loop of `read_length`. */
  method ReadLength(input: Octets, maximum: nat) returns (r: Option<Taken<nat>>)
    ensures r == TakeLength(input, maximum)
  {
    SmallPowers();
    var value := 0;
    for index := 0 to 5
      invariant index <= |input| && (forall k | 0 <= k < index :: Continues(input[k]))
      invariant value == Value(input[..index])
    {
      if index >= |input| {
        StopIs(input, index);
        return None;
      }
      var byte := input[index];
      assert input[..index + 1] == input[..index] + [byte];
      ValueSnoc(input[..index], byte);
      if index == 4 && byte > 0x0f {
        FifthByteOverflows(input);
        return None;
      }
      value := value + Payload(byte) * Pow128(index);
      if !Continues(byte) {
        StopIs(input, index);
        ValueBelow(input[..index]);
        if CanonicalLengthWidth(value) != index + 1 || value > maximum {
          return None;
        }
        return Some(Taken(value, input[index + 1..]));
      }
    }
    return None;
  }

  /** The loop over the items of a list. */
  method ReadItems<T>(c: Codec<T>, input: Octets, count: nat) returns (r: Option<Taken<seq<T>>>)
    ensures r == TakeItems(c, input, count, [])
  {
    var items, rest := [], input;
    for n := 0 to count
      invariant TakeItems(c, rest, count - n, items) == TakeItems(c, input, count, [])
    {
      var taken := c.take(rest);
      if taken.None? {
        return None;
      }
      items, rest := items + [taken.value.value], taken.value.rest;
    }
    return Some(Taken(items, rest));
  }

  function TakeList<T>(c: Codec<T>, b: Octets, maximum: nat): Option<Taken<seq<T>>> {
    match TakeLength(b, maximum)
    case None => None
    case Some(t) => TakeItems(c, t.rest, t.value, [])
  }

  function ListOf<T>(c: Codec<T>, maximum: nat): Codec<seq<T>> {
    Codec(xs => |xs| <= maximum && AllOk(c, xs), xs => LengthBytes(|xs|) + WriteItems(c, xs),
          b => TakeList(c, b, maximum))
  }

  lemma ListReads<T(!new)>(c: Codec<T>, maximum: nat, xs: seq<T>, rest: Octets)
    requires Reads(c) && maximum < U32_LIMIT && |xs| <= maximum && AllOk(c, xs)
    ensures TakeList(c, LengthBytes(|xs|) + WriteItems(c, xs) + rest, maximum) == Some(Taken(xs, rest))
  {
    var items := WriteItems(c, xs) + rest;
    assert LengthBytes(|xs|) + WriteItems(c, xs) + rest == LengthBytes(|xs|) + items;
    DecodeEncoded(|xs|, items);
    TakeFront(LengthBytes(|xs|), items);
    TakeWrittenItems(c, xs, [], rest);
    assert [] + xs == xs;
  }

  lemma TakenLengthIsWritten(b: Octets, maximum: nat)
    requires TakeLength(b, maximum).Some?
    ensures var t := TakeLength(b, maximum).value; t.value <= maximum && b == LengthBytes(t.value) + t.rest
  {
    EncodeDecoded(b);
  }

  lemma ListIsStrict<T>(c: Codec<T>, maximum: nat, b: Octets)
    requires Strict(c) && TakeList(c, b, maximum).Some?
    ensures var t := TakeList(c, b, maximum).value;
            |t.value| <= maximum && AllOk(c, t.value) && b == LengthBytes(|t.value|) + WriteItems(c, t.value) + t.rest
  {
    var t := TakeLength(b, maximum).value;
    TakenLengthIsWritten(b, maximum);
    var xs := TakenItemsAreWritten(c, t.rest, t.value, []);
    assert [] + xs == xs;
  }

  lemma ListIsExact<T(!new)>(c: Codec<T>, maximum: nat)
    requires Exact(c) && maximum < U32_LIMIT
    ensures Exact(ListOf(c, maximum))
  {
    var list := ListOf(c, maximum);
    forall xs: seq<T>, rest: Octets | list.ok(xs) ensures list.take(list.write(xs) + rest) == Some(Taken(xs, rest)) {
      ListReads(c, maximum, xs, rest);
    }
    forall b: Octets | list.take(b).Some? ensures Written(list, b, list.take(b).value) {
      ListIsStrict(c, maximum, b);
    }
  }

  // ---------------------------------------------------------------------------------------------
  // Sizes
  // ---------------------------------------------------------------------------------------------

  ghost predicate AtMost<T(!new)>(c: Codec<T>, n: nat) {
    forall x: T | c.ok(x) :: |c.write(x)| <= n
  }

  lemma BothAtMost<A(!new), B(!new)>(first: Codec<A>, m: nat, second: Codec<B>, n: nat)
    requires AtMost(first, m) && AtMost(second, n)
    ensures AtMost(Both(first, second), m + n)
  {
    forall x: (A, B) | Both(first, second).ok(x) ensures |Both(first, second).write(x)| <= m + n {
      assert first.ok(x.0) && second.ok(x.1);
    }
  }

  lemma ShapedAtMost<A(!new), T(!new)>(c: Codec<A>, s: Layout<A, T>, n: nat)
    requires AtMost(c, n)
    ensures AtMost(Shaped(c, s), n)
  {
    forall x: T | Shaped(c, s).ok(x) ensures |Shaped(c, s).write(x)| <= n {
      assert c.ok(s.parts(x));
    }
  }

  lemma RowAtMost(widths: seq<nat>)
    ensures AtMost(RowOf(widths), Size(widths))
  {}

  lemma {:induction false} ItemsAtMost<T(!new)>(c: Codec<T>, n: nat, xs: seq<T>)
    requires AtMost(c, n) && AllOk(c, xs)
    ensures |WriteItems(c, xs)| <= |xs| * n
  {
    if xs != [] {
      ItemsAtMost(c, n, xs[1..]);
      assert |xs| * n == n + |xs[1..]| * n;
    }
  }

  lemma ListAtMost<T(!new)>(c: Codec<T>, n: nat, maximum: nat)
    requires AtMost(c, n) && maximum < 0x20_0000
    ensures AtMost(ListOf(c, maximum), 3 + maximum * n)
  {
    var list := ListOf(c, maximum);
    forall xs: seq<T> | list.ok(xs) ensures |list.write(xs)| <= 3 + maximum * n {
      ItemsAtMost(c, n, xs);
      EncodedWidth(|xs|);
      MulAtMost(|xs|, maximum, n);
    }
  }

  // ---------------------------------------------------------------------------------------------
  // Whole files
  // ---------------------------------------------------------------------------------------------

  /** The body of an envelope: the type tag, the schema version, the length and nothing after the body. */
  function BodyIn(input: Octets, typeTag: nat, schema: nat, maximum: nat): Option<Octets> {
    if |input| < 4 || Word(input[0], input[1]) != typeTag || Word(input[2], input[3]) != schema then None
    else
      match TakeLength(input[4..], maximum)
      case None => None
      case Some(t) => if |t.rest| == t.value then Some(t.rest) else None
  }

  /** `decode_envelope`: one value, and the whole input. */
  function Decode<T>(c: Codec<T>, typeTag: nat, schema: nat, maximum: nat, input: Octets): Option<T> {
    match BodyIn(input, typeTag, schema, maximum)
    case None => None
    case Some(body) =>
      match c.take(body)
      case None => None
      case Some(t) => if t.rest == [] then Some(t.value) else None
  }

  lemma BodyInExactly(input: Octets, typeTag: nat, schema: nat, maximum: nat, body: Octets)
    requires typeTag < U16_LIMIT && schema < U16_LIMIT && maximum < U32_LIMIT
    ensures BodyIn(input, typeTag, schema, maximum) == Some(body)
       <==> |body| <= maximum && input == Envelope(typeTag, schema, body)
  {
    if BodyIn(input, typeTag, schema, maximum) == Some(body) {
      TakenLengthIsWritten(input[4..], maximum);
      assert input == input[..4] + input[4..];
      assert input[..4] == Header(typeTag, schema);
    }
    if |body| <= maximum && input == Envelope(typeTag, schema, body) {
      EnvelopeLayout(typeTag, schema, body);
      DecodeEncoded(|body|, body);
      TakeFront(LengthBytes(|body|), body);
    }
  }

  /** An exact codec decodes a file to a value if and only if the file is the envelope of that value. */
  lemma DecodesExactly<T(!new)>(c: Codec<T>, typeTag: nat, schema: nat, maximum: nat, input: Octets, x: T)
    requires Exact(c) && typeTag < U16_LIMIT && schema < U16_LIMIT && maximum < U32_LIMIT
    ensures Decode(c, typeTag, schema, maximum, input) == Some(x)
       <==> c.ok(x) && |c.write(x)| <= maximum && input == Envelope(typeTag, schema, c.write(x))
  {
    if Decode(c, typeTag, schema, maximum, input) == Some(x) {
      var body := BodyIn(input, typeTag, schema, maximum).value;
      BodyInExactly(input, typeTag, schema, maximum, body);
      assert Written(c, body, c.take(body).value);
      assert c.write(x) + [] == c.write(x);
    }
    if c.ok(x) && |c.write(x)| <= maximum && input == Envelope(typeTag, schema, c.write(x)) {
      BodyInExactly(input, typeTag, schema, maximum, c.write(x));
      assert c.write(x) + [] == c.write(x);
      assert c.take(c.write(x) + []) == Some(Taken(x, []));
    }
  }

  /** Files that hold values: what a file is read as, the file of a value, and the values that fit. */
  datatype Files<!T> = Files(load: Octets -> Option<T>, save: T -> Octets, fits: T -> bool)

  ghost predicate LosslessAt<T>(f: Files<T>, file: Octets, x: T) {
    f.load(file) == Some(x) <==> f.fits(x) && file == f.save(x)
  }

  /** Each file is read as the one value it is the file of, or not at all. */
  ghost predicate Lossless<T(!new)>(f: Files<T>) {
    forall file: Octets, x: T :: LosslessAt(f, file, x)
  }

  function FilesOf<T>(c: Codec<T>, typeTag: nat, schema: nat, maximum: nat): Files<T>
    requires typeTag < U16_LIMIT && schema < U16_LIMIT
  {
    Files((file: Octets) => Decode(c, typeTag, schema, maximum, file), (x: T) => Envelope(typeTag, schema, c.write(x)),
          c.ok)
  }

  lemma FilesAreLossless<T(!new)>(c: Codec<T>, typeTag: nat, schema: nat, maximum: nat)
    requires Exact(c) && AtMost(c, maximum)
    requires typeTag < U16_LIMIT && schema < U16_LIMIT && maximum < U32_LIMIT
    ensures Lossless(FilesOf(c, typeTag, schema, maximum))
  {
    var f := FilesOf(c, typeTag, schema, maximum);
    forall file: Octets, x: T ensures LosslessAt(f, file, x) {
      DecodesExactly(c, typeTag, schema, maximum, file, x);
    }
  }
}
