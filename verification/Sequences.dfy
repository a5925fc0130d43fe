/** Sequences without repetition, properties handed on along a sequence, and the parts of a concatenation. */
module Sequences {

  ghost predicate Distinct<T>(xs: seq<T>) {
    forall i, j | 0 <= i < j < |xs| :: xs[i] != xs[j]
  }

  /** What holds at place k and is handed on from each place to the next holds at every later place. */
  lemma {:induction false} Along<T>(items: seq<T>, good: T -> bool, k: nat, n: nat)
    requires k <= n < |items| && good(items[k])
    requires forall i | k <= i < n :: good(items[i]) ==> good(items[i + 1])
    ensures good(items[n])
    decreases n
  {
    if k < n {
      Along(items, good, k, n - 1);
      var i := n - 1;
      assert good(items[i]) ==> good(items[i + 1]);
    }
  }

  // ---------------------------------------------------------------------------------------------
  // The parts of a concatenation by their offsets
  // ---------------------------------------------------------------------------------------------

  lemma TwoParts<T>(a: seq<T>, b: seq<T>)
    ensures (a + b)[..|a|] == a && (a + b)[|a|..] == b
  {}

  lemma ThreeParts<T>(a: seq<T>, b: seq<T>, c: seq<T>)
    ensures var all, n := a + (b + c), |a| + |b|;
            all[..|a|] == a && all[|a|..n] == b && all[n..] == c
  {}

  lemma FourParts<T>(a: seq<T>, b: seq<T>, c: seq<T>, d: seq<T>)
    ensures var all, n := a + (b + (c + d)), |a| + |b|;
            all[..|a|] == a && all[|a|..n] == b && all[n..n + |c|] == c && all[n + |c|..] == d
  {}

  lemma FiveParts<T>(a: seq<T>, b: seq<T>, c: seq<T>, d: seq<T>, e: seq<T>)
    ensures var all, n := a + (b + (c + (d + e))), |a| + |b| + |c|;
            && all[..|a|] == a && all[|a|..|a| + |b|] == b && all[|a| + |b|..n] == c
            && all[n..n + |d|] == d && all[n + |d|..] == e
  {
    var rest := c + (d + e);
    ThreeParts(a, b, rest);
    FourParts(a + b, c, d, e);
    assert a + (b + rest) == (a + b) + rest;
  }

  lemma SevenParts<T>(a: seq<T>, b: seq<T>, c: seq<T>, d: seq<T>, e: seq<T>, f: seq<T>, g: seq<T>)
    requires |a| == 6 && |b| == |c| == |d| == |e| == 7 && |f| == 3
    ensures var all := a + (b + (c + (d + (e + (f + g)))));
            && |all| >= 37 && all[..6] == a && all[6..13] == b && all[13..20] == c && all[20..27] == d
            && all[27..34] == e && all[34..37] == f && all[37..] == g
  {
    var rest := d + (e + (f + g));
    FourParts(a, b, c, rest);
    FourParts(a + b + c, d, e, f + g);
    assert a + (b + (c + rest)) == (a + b + c) + rest;
    var all := a + (b + (c + rest));
    assert all[34..] == f + g;
    TwoParts(f, g);
    assert all[34..37] == all[34..][..3] && all[37..] == all[34..][3..];
  }

  lemma SliceOfRest<T>(b: seq<T>, n: nat, from: nat, to: nat)
    requires n <= |b| && from <= to <= |b| - n
    ensures b[n..][from..to] == b[n + from..n + to]
  {}

  lemma SliceAfter<T>(front: seq<T>, rest: seq<T>, from: nat, to: nat)
    requires from <= to <= |rest|
    ensures (front + rest)[|front| + from..|front| + to] == rest[from..to]
  {}
}
