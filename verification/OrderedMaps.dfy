/** Ordered maps (BTreeMap) with numeric keys: iteration in key order, collection from entries, and
sums of values. */
module OrderedMaps {
  import opened Sequences

  // ---------------------------------------------------------------------------------------------
  // Key order
  // ---------------------------------------------------------------------------------------------

  ghost predicate Least(s: set<nat>, m: nat) {
    m in s && forall x | x in s :: m <= x
  }

  lemma LeastOf(s: set<nat>, x: nat, m: nat)
    requires x in s && Least(s - {x}, m)
    ensures Least(s, if m <= x then m else x)
  {
    var least := if m <= x then m else x;
    forall y | y in s ensures least <= y { assert y == x || y in s - {x}; }
  }

  lemma {:induction false} MinExists(s: set<nat>)
    requires s != {}
    ensures exists m :: Least(s, m)
  {
    var x :| x in s;
    if s - {x} == {} {
      assert s == {x};
      assert Least(s, x);
    } else {
      MinExists(s - {x});
      var m :| Least(s - {x}, m);
      LeastOf(s, x, m);
    }
  }

  function MinOf(s: set<nat>): (m: nat)
    requires s != {}
    ensures m in s && forall x | x in s :: m <= x
  {
    MinExists(s);
    assert exists m :: m in s && forall x | x in s :: m <= x by { var m :| Least(s, m); }
    var m :| m in s && forall x | x in s :: m <= x;
    m
  }

  ghost predicate Increasing(keys: seq<nat>) {
    forall i, j | 0 <= i < j < |keys| :: keys[i] < keys[j]
  }

  /** The keys in increasing order. */
  function SortedKeys(s: set<nat>): (keys: seq<nat>)
    ensures |keys| == |s|
    ensures Increasing(keys)
    ensures forall k :: k in keys <==> k in s
    decreases |s|
  {
    if s == {} then [] else var m := MinOf(s); [m] + SortedKeys(s - {m})
  }

  /** Two increasing sequences with the same members are equal. */
  lemma {:induction false} IncreasingUnique(a: seq<nat>, b: seq<nat>)
    requires Increasing(a) && Increasing(b)
    requires forall k :: k in a <==> k in b
    ensures a == b
  {
    assert |a| > 0 ==> a[0] in b;
    assert |b| > 0 ==> b[0] in a;
    if a != [] && b != [] {
      assert a[0] == b[0];
      forall k ensures k in a[1..] <==> k in b[1..] {
        assert k in a[1..] <==> k in a && k != a[0];
        assert k in b[1..] <==> k in b && k != b[0];
      }
      IncreasingUnique(a[1..], b[1..]);
    }
  }

  // ---------------------------------------------------------------------------------------------
  // Entries
  // ---------------------------------------------------------------------------------------------

  /** The check on adjacent pairs, as in `windows(2).all(..)`. */
  predicate StrictlyOrdered<V>(entries: seq<(nat, V)>) {
    forall i | 0 <= i < |entries| - 1 :: entries[i].0 < entries[i + 1].0
  }

  lemma {:induction false} OrderedFar<V>(entries: seq<(nat, V)>, i: nat, j: nat)
    requires StrictlyOrdered(entries) && i < j < |entries|
    ensures entries[i].0 < entries[j].0
  {
    if i + 1 < j { OrderedFar(entries, i, j - 1); }
    assert entries[j - 1].0 < entries[j - 1 + 1].0;
  }

  function Pick<V>(m: map<nat, V>, keys: seq<nat>): (entries: seq<(nat, V)>)
    requires Increasing(keys) && forall i | 0 <= i < |keys| :: keys[i] in m
    ensures |entries| == |keys| && StrictlyOrdered(entries)
    ensures forall i | 0 <= i < |entries| :: entries[i].0 in m && m[entries[i].0] == entries[i].1
  {
    seq(|keys|, i requires 0 <= i < |keys| => (keys[i], m[keys[i]]))
  }

  /** Iteration over an ordered map. */
  function Entries<V>(m: map<nat, V>): (entries: seq<(nat, V)>)
    ensures |entries| == |m|
    ensures StrictlyOrdered(entries)
    ensures forall i | 0 <= i < |entries| :: entries[i].0 in m && m[entries[i].0] == entries[i].1
  {
    var keys := SortedKeys(m.Keys);
    assert forall i | 0 <= i < |keys| :: keys[i] in m by { assert forall i | 0 <= i < |keys| :: keys[i] in keys; }
    Pick(m, keys)
  }

  /** Every key has its entry. */
  lemma EntryAt<V>(m: map<nat, V>, key: nat) returns (i: nat)
    requires key in m
    ensures i < |Entries(m)| && Entries(m)[i] == (key, m[key])
  {
    var keys := SortedKeys(m.Keys);
    assert key in keys;
    i :| 0 <= i < |keys| && keys[i] == key;
  }

  /** `into_iter().collect()`: later entries replace earlier ones. */
  function Collect<V>(entries: seq<(nat, V)>): map<nat, V> {
    if entries == [] then map[]
    else
      var last := entries[|entries| - 1];
      Collect(entries[..|entries| - 1])[last.0 := last.1]
  }

  lemma {:induction false} CollectOrdered<V>(entries: seq<(nat, V)>)
    requires StrictlyOrdered(entries)
    ensures |Collect(entries)| == |entries|
    ensures forall k :: k in Collect(entries) ==> exists i :: 0 <= i < |entries| && entries[i].0 == k
    ensures forall i | 0 <= i < |entries| ::
            entries[i].0 in Collect(entries) && Collect(entries)[entries[i].0] == entries[i].1
  {
    if entries != [] {
      var earlier, last := entries[..|entries| - 1], entries[|entries| - 1];
      CollectOrdered(earlier);
      forall i | 0 <= i < |earlier| ensures earlier[i].0 < last.0 { OrderedFar(entries, i, |entries| - 1); }
      assert last.0 !in Collect(earlier);
      assert Collect(entries).Keys == Collect(earlier).Keys + {last.0};
      forall i | 0 <= i < |entries|
        ensures entries[i].0 in Collect(entries) && Collect(entries)[entries[i].0] == entries[i].1
      {
        assert i < |earlier| ==> entries[i] == earlier[i];
      }
      forall k | k in Collect(entries) ensures exists i :: 0 <= i < |entries| && entries[i].0 == k {
        if k == last.0 {
          assert entries[|entries| - 1].0 == k;
        } else {
          var i :| 0 <= i < |earlier| && earlier[i].0 == k;
          assert entries[i].0 == k;
        }
      }
    }
  }

  lemma CollectsEntry<V>(m: map<nat, V>, key: nat)
    requires key in m
    ensures key in Collect(Entries(m)) && Collect(Entries(m))[key] == m[key]
  {
    var i := EntryAt(m, key);
    CollectOrdered(Entries(m));
  }

  lemma CollectsOnlyEntries<V>(m: map<nat, V>, key: nat)
    requires key in Collect(Entries(m))
    ensures key in m
  {
    var e := Entries(m);
    CollectOrdered(e);
    var i :| 0 <= i < |e| && e[i].0 == key;
  }

  /** Iterating a map and collecting the entries gives the map back. */
  lemma CollectEntries<V>(m: map<nat, V>)
    ensures Collect(Entries(m)) == m
  {
    var collected := Collect(Entries(m));
    forall k | k in m ensures k in collected && collected[k] == m[k] { CollectsEntry(m, k); }
    forall k | k in collected ensures k in m { CollectsOnlyEntries(m, k); }
  }

  function KeysOf<V>(e: seq<(nat, V)>): (keys: seq<nat>)
    ensures |keys| == |e|
    ensures forall i | 0 <= i < |e| :: keys[i] == e[i].0
  {
    seq(|e|, i requires 0 <= i < |e| => e[i].0)
  }

  lemma CollectKeys<V>(e: seq<(nat, V)>)
    requires StrictlyOrdered(e)
    ensures Increasing(KeysOf(e))
    ensures KeysOf(e) == SortedKeys(Collect(e).Keys)
  {
    CollectOrdered(e);
    forall i, j | 0 <= i < j < |e| ensures KeysOf(e)[i] < KeysOf(e)[j] { OrderedFar(e, i, j); }
    forall k ensures k in KeysOf(e) <==> k in Collect(e) {
      if k in Collect(e) {
        var i :| 0 <= i < |e| && e[i].0 == k;
        assert KeysOf(e)[i] == k;
      }
    }
    IncreasingUnique(KeysOf(e), SortedKeys(Collect(e).Keys));
  }

  /** Collecting strictly ordered entries and iterating the map gives the entries back. */
  lemma EntriesCollect<V>(e: seq<(nat, V)>)
    requires StrictlyOrdered(e)
    ensures Entries(Collect(e)) == e
  {
    CollectOrdered(e);
    CollectKeys(e);
    var out := Entries(Collect(e));
    forall i | 0 <= i < |e| ensures out[i] == e[i] {
      assert out[i].0 == KeysOf(e)[i] == e[i].0;
    }
  }

  // ---------------------------------------------------------------------------------------------
  // Counting
  // ---------------------------------------------------------------------------------------------

  lemma {:induction false} DistinctSize<T(!new)>(xs: seq<T>)
    requires Distinct(xs)
    ensures |(set x | x in xs)| == |xs|
  {
    if xs != [] {
      var earlier, last := xs[..|xs| - 1], xs[|xs| - 1];
      DistinctSize(earlier);
      assert xs == earlier + [last];
      assert (set x | x in xs) == (set x | x in earlier) + {last};
      assert last !in earlier;
    }
  }

  lemma SubsetSize<T>(a: set<T>, b: set<T>)
    requires a <= b && |a| == |b|
    ensures a == b
  {
    if a != b {
      var x :| x in b && x !in a;
      assert a <= b - {x};
      SubsetAtMost(a, b - {x});
    }
  }

  lemma {:induction false} SubsetAtMost<T>(a: set<T>, b: set<T>)
    requires a <= b
    ensures |a| <= |b|
  {
    if a != {} {
      var x :| x in a;
      SubsetAtMost(a - {x}, b - {x});
    }
  }

  /** Distinct members of a set, as many as the set has, are all of it. */
  lemma DistinctExhausts<T(!new)>(xs: seq<T>, s: set<T>)
    requires Distinct(xs) && |xs| == |s| && forall i | 0 <= i < |xs| :: xs[i] in s
    ensures forall x :: x in s <==> x in xs
  {
    DistinctSize(xs);
    SubsetSize((set x | x in xs), s);
    assert forall x :: x in (set y | y in xs) <==> x in xs;
  }

  // ---------------------------------------------------------------------------------------------
  // Sums
  // ---------------------------------------------------------------------------------------------

  ghost function SumOver(m: map<nat, nat>, keys: set<nat>): nat
    requires keys <= m.Keys
  {
    if keys == {} then 0 else var k :| k in keys; m[k] + SumOver(m, keys - {k})
  }

  /** The mathematical total of all values. */
  ghost function Total(m: map<nat, nat>): nat {
    SumOver(m, m.Keys)
  }

  lemma {:induction false} SumRemove(m: map<nat, nat>, keys: set<nat>, k: nat)
    requires keys <= m.Keys && k in keys
    ensures SumOver(m, keys) == m[k] + SumOver(m, keys - {k})
  {
    var x :| x in keys && SumOver(m, keys) == m[x] + SumOver(m, keys - {x});
    if x != k {
      SumRemove(m, keys - {x}, k);
      SumRemove(m, keys - {k}, x);
      assert keys - {x} - {k} == keys - {k} - {x};
    }
  }

  lemma {:induction false} SumAgree(m: map<nat, nat>, m': map<nat, nat>, keys: set<nat>)
    requires keys <= m.Keys && keys <= m'.Keys
    requires forall k | k in keys :: m[k] == m'[k]
    ensures SumOver(m, keys) == SumOver(m', keys)
  {
    if keys != {} {
      var k :| k in keys;
      SumRemove(m, keys, k);
      SumRemove(m', keys, k);
      SumAgree(m, m', keys - {k});
    }
  }

  lemma {:induction false} SumMonotone(m: map<nat, nat>, small: set<nat>, large: set<nat>)
    requires small <= large <= m.Keys
    ensures SumOver(m, small) <= SumOver(m, large)
  {
    if small != {} {
      var k :| k in small;
      SumRemove(m, small, k);
      SumRemove(m, large, k);
      SumMonotone(m, small - {k}, large - {k});
    }
  }

  ghost function FirstKeys(keys: seq<nat>, n: nat): set<nat>
    requires n <= |keys|
  {
    var first := keys[..n];
    set k | k in first
  }

  /** Sum over the first n of the keys in order. */
  ghost function SumFirst(m: map<nat, nat>, keys: seq<nat>, n: nat): nat
    requires n <= |keys| && forall k | k in keys :: k in m
  {
    SumOver(m, FirstKeys(keys, n))
  }

  lemma SumNext(m: map<nat, nat>, keys: seq<nat>, n: nat)
    requires n < |keys| && Increasing(keys) && forall k | k in keys :: k in m
    ensures keys[n] in m && SumFirst(m, keys, n + 1) == SumFirst(m, keys, n) + m[keys[n]]
  {
    var before, after := FirstKeys(keys, n), FirstKeys(keys, n + 1);
    assert keys[n] in keys;
    assert keys[..n + 1] == keys[..n] + [keys[n]];
    assert keys[n] !in before && after == before + {keys[n]};
    SumRemove(m, after, keys[n]);
    assert after - {keys[n]} == before;
  }

  lemma FirstKeysOf(s: set<nat>, keys: seq<nat>, n: nat)
    requires n <= |keys| && forall k :: k in keys <==> k in s
    ensures FirstKeys(keys, n) <= s && (n == |keys| ==> FirstKeys(keys, n) == s)
  {
    var first := keys[..n];
    forall k | k in first ensures k in keys {}
    if n == |keys| { assert first == keys; }
  }

  lemma SumFirstAtMost(m: map<nat, nat>, n: nat)
    requires n <= |m|
    ensures SumFirst(m, SortedKeys(m.Keys), n) <= Total(m)
    ensures n == |m| ==> SumFirst(m, SortedKeys(m.Keys), n) == Total(m)
  {
    var keys := SortedKeys(m.Keys);
    FirstKeysOf(m.Keys, keys, n);
    SumMonotone(m, FirstKeys(keys, n), m.Keys);
  }

  /** Moving an amount between two entries leaves the total unchanged. */
  lemma TransferKeepsTotal(m: map<nat, nat>, from: nat, to: nat, amount: nat)
    requires from in m && to in m && from != to && amount <= m[from]
    ensures Total(m[from := m[from] - amount][to := m[to] + amount]) == Total(m)
  {
    var m' := m[from := m[from] - amount][to := m[to] + amount];
    var rest := m.Keys - {from} - {to};
    assert m'.Keys == m.Keys;
    SumRemove(m, m.Keys, from);
    SumRemove(m, m.Keys - {from}, to);
    SumRemove(m', m'.Keys, from);
    SumRemove(m', m'.Keys - {from}, to);
    SumAgree(m, m', rest);
  }
}
