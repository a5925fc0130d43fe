/** Delegated capabilities: the attenuation check between a parent and a child, and what it means
for a whole chain of delegations. */
module Capabilities {
  import opened Keys
  import opened Octets
  import opened Options
  import opened Scopes

  // ---------------------------------------------------------------------------------------------
  // Byte-wise comparison
  // ---------------------------------------------------------------------------------------------

  /** `bytes.Compare`: -1, 0 or 1, lexicographically. */
  function Compare(a: Octets, b: Octets): int {
    if a == [] && b == [] then 0
    else if a == [] then -1
    else if b == [] then 1
    else if a[0] < b[0] then -1
    else if a[0] > b[0] then 1
    else Compare(a[1..], b[1..])
  }

  function Sign(n: int): int {
    if n < 0 then -1 else if n == 0 then 0 else 1
  }

  lemma {:induction false} CompareLast(a: Octets, b: Octets, x: Octet, y: Octet)
    requires |a| == |b|
    ensures Compare(a + [x], b + [y]) == if Compare(a, b) != 0 then Compare(a, b) else Sign(x - y)
  {
    if a == [] {
      assert a + [x] == [x] && b + [y] == [y] && [x][1..] == [] && [y][1..] == [];
    } else {
      assert (a + [x])[1..] == a[1..] + [x] && (b + [y])[1..] == b[1..] + [y];
      if a[0] == b[0] {
        CompareLast(a[1..], b[1..], x, y);
      }
    }
  }

  /** On strings of one length, comparing bytes compares the big-endian numbers. */
  lemma {:induction false} CompareIsNumeric(a: Octets, b: Octets)
    requires |a| == |b|
    ensures Compare(a, b) == Sign(FromBE(a) - FromBE(b))
  {
    if a != [] {
      var n := |a| - 1;
      CompareIsNumeric(a[..n], b[..n]);
      CompareLast(a[..n], b[..n], a[n], b[n]);
      assert a == a[..n] + [a[n]] && b == b[..n] + [b[n]];
    }
  }

  /** Comparing is a total order on strings of any length, in which a proper prefix comes first. */
  lemma {:induction false} CompareOrders(a: Octets, b: Octets)
    ensures Compare(a, b) in {-1, 0, 1} && Compare(b, a) == -Compare(a, b)
    ensures Compare(a, b) == 0 <==> a == b
    ensures a < b ==> Compare(a, b) == -1
  {
    if a != [] && b != [] && a[0] == b[0] {
      CompareOrders(a[1..], b[1..]);
      assert a == [a[0]] + a[1..] && b == [b[0]] + b[1..];
    }
  }

  // ---------------------------------------------------------------------------------------------
  // Capabilities
  // ---------------------------------------------------------------------------------------------

  /** A 128-bit amount as its 16 big-endian bytes. */
  type Amount = b: Octets | |b| == 16 witness seq(16, _ => 0)

  datatype Holder = Principal(value: Root) | Service(value: Root) | Bearer

  datatype Rate = Rate(uses: nat, window: nat)

  datatype Capability = Capability(
    id: Root, issuer: Root, holder: Holder, parent: Option<Root>, actions: seq<Root>,
    resource: Scope, data: Scope, monetary: Option<Amount>, compute: Option<Amount>,
    rate: Option<Rate>, uses: Option<nat>, validFrom: nat, validUntil: Option<nat>,
    depth: nat, delegation: bool, revocation: Option<Root>, constraint: Root)
  {
    /** The structural rules every decoded capability meets. */
    ghost predicate Decoded() {
      && 0 < |actions| <= 32
      && resource.Decoded() && data.Decoded()
      && (rate.Some? ==> 0 < rate.value.uses && 0 < rate.value.window)
      && parent != Some(id)
      && (validUntil.Some? ==> validFrom <= validUntil.value)
      && depth < 256
      && (delegation <==> depth != 0)
    }
  }

  /** No looser than the parent's limit, when the parent has one. */
  predicate AmountAttenuated(parent: Option<Amount>, child: Option<Amount>) {
    parent.None? || (child.Some? && Compare(child.value, parent.value) <= 0)
  }

  predicate CountAttenuated(parent: Option<nat>, child: Option<nat>) {
    parent.None? || (child.Some? && child.value <= parent.value)
  }

  predicate Attenuates(parent: Capability, child: Capability)
    requires parent.Decoded() && child.Decoded()
  {
    && parent.delegation && child.parent == Some(parent.id)
    && parent.holder.Principal? && child.issuer == parent.holder.value && !child.holder.Bearer?
    && (forall action | action in child.actions :: action in parent.actions)
    && ScopeSubset(child.resource, parent.resource) && ScopeSubset(child.data, parent.data)
    && AmountAttenuated(parent.monetary, child.monetary) && AmountAttenuated(parent.compute, child.compute)
    && (parent.rate.Some? ==>
          child.rate.Some? && child.rate.value.window == parent.rate.value.window
          && child.rate.value.uses <= parent.rate.value.uses)
    && CountAttenuated(parent.uses, child.uses) && child.validFrom >= parent.validFrom
    && CountAttenuated(parent.validUntil, child.validUntil) && child.depth < parent.depth
    && child.constraint == parent.constraint
    && (parent.revocation.Some? ==> child.revocation == parent.revocation)
  }

  /** The nested search over the two action lists. */
  method ActionsCovered(child: seq<Root>, parent: seq<Root>) returns (covered: bool)
    ensures covered <==> forall action | action in child :: action in parent
  {
    for i := 0 to |child|
      invariant forall action | action in child[..i] :: action in parent
    {
      var found := false;
      for j := 0 to |parent|
        invariant !found && child[i] !in parent[..j]
      {
        if child[i] == parent[j] {
          found := true;
          break;
        }
      }
      if !found {
        assert child[i] in child && child[i] !in parent;
        return false;
      }
    }
    covered := true;
  }

  method VerifyCapabilityAttenuation(parent: Capability, child: Capability) returns (accepted: bool)
    requires parent.Decoded() && child.Decoded()
    ensures accepted <==> Attenuates(parent, child)
  {
    if !parent.delegation || child.parent.None? || child.parent.value != parent.id {
      return false;
    }
    if !parent.holder.Principal? || child.issuer != parent.holder.value || child.holder.Bearer? {
      return false;
    }
    var covered := ActionsCovered(child.actions, parent.actions);
    if !covered {
      return false;
    }
    if !ScopeSubset(child.resource, parent.resource) || !ScopeSubset(child.data, parent.data) {
      return false;
    }
    if !AmountAttenuated(parent.monetary, child.monetary) || !AmountAttenuated(parent.compute, child.compute) {
      return false;
    }
    if parent.rate.Some? {
      if child.rate.None? || child.rate.value.window != parent.rate.value.window
         || child.rate.value.uses > parent.rate.value.uses
      {
        return false;
      }
    }
    if !CountAttenuated(parent.uses, child.uses) || child.validFrom < parent.validFrom {
      return false;
    }
    if !CountAttenuated(parent.validUntil, child.validUntil) || child.depth >= parent.depth {
      return false;
    }
    if child.constraint != parent.constraint {
      return false;
    }
    if parent.revocation.Some? && (child.revocation.None? || child.revocation.value != parent.revocation.value) {
      return false;
    }
    accepted := true;
  }

  // ---------------------------------------------------------------------------------------------
  // What a capability permits
  // ---------------------------------------------------------------------------------------------

  /** One use of a capability: what is done, to what, when, and the totals spent so far with it. */
  datatype Exercise = Exercise(
    action: Root, resource: Root, data: Root, money: nat, compute: nat, uses: nat, height: nat)

  ghost predicate Under(limit: Option<Amount>, spent: nat) {
    limit.Some? ==> spent <= FromBE(limit.value)
  }

  ghost predicate CountUnder(limit: Option<nat>, count: nat) {
    limit.Some? ==> count <= limit.value
  }

  /** The heights at which a capability is valid. */
  ghost predicate Live(c: Capability, height: nat) {
    c.validFrom <= height && CountUnder(c.validUntil, height)
  }

  /** The exercise is within every limit the capability states. */
  ghost predicate Permits(c: Capability, e: Exercise)
    requires c.Decoded()
  {
    && e.action in c.actions
    && Contains(c.resource, e.resource) && Contains(c.data, e.data)
    && Under(c.monetary, e.money) && Under(c.compute, e.compute)
    && CountUnder(c.uses, e.uses) && Live(c, e.height)
  }

  /** The terms that are carried along, not tightened: the rate window with no more uses in it, the
      constraint, and the revocation handle once there is one. */
  ghost predicate Inherits(c: Capability, from: Capability) {
    && (from.rate.Some? ==>
          c.rate.Some? && c.rate.value.window == from.rate.value.window && c.rate.value.uses <= from.rate.value.uses)
    && c.constraint == from.constraint
    && (from.revocation.Some? ==> c.revocation == from.revocation)
  }

  lemma AmountUnder(parent: Option<Amount>, child: Option<Amount>, spent: nat)
    requires AmountAttenuated(parent, child) && Under(child, spent)
    ensures Under(parent, spent)
  {
    if parent.Some? { CompareIsNumeric(child.value, parent.value); }
  }

  /** Every spending within the child's limit is within the parent's. */
  ghost predicate Tighter(parent: Option<Amount>, child: Option<Amount>) {
    forall spent: nat :: Under(child, spent) ==> Under(parent, spent)
  }

  /** Every number of uses within the child's limit is within the parent's. */
  ghost predicate FewerUses(parent: Capability, child: Capability) {
    forall uses: nat :: CountUnder(child.uses, uses) ==> CountUnder(parent.uses, uses)
  }

  /** At every height at which the child is valid, so is the parent. */
  ghost predicate ShorterLife(parent: Capability, child: Capability) {
    forall height: nat :: Live(child, height) ==> Live(parent, height)
  }

  /** Dimension by dimension, what the child admits the parent admits. */
  ghost predicate Within(child: Capability, parent: Capability)
    requires child.Decoded() && parent.Decoded()
  {
    && (forall a | a in child.actions :: a in parent.actions)
    && Included(child.resource, parent.resource) && Included(child.data, parent.data)
    && Tighter(parent.monetary, child.monetary) && Tighter(parent.compute, child.compute)
    && FewerUses(parent, child) && ShorterLife(parent, child)
  }

  /** The comparison of optional counts is inclusion of what they admit. */
  lemma UsesAreFewer(parent: Capability, child: Capability)
    ensures CountAttenuated(parent.uses, child.uses) <==> FewerUses(parent, child)
  {
    if FewerUses(parent, child) && parent.uses.Some? {
      assert CountUnder(child.uses, if child.uses.Some? then child.uses.value else parent.uses.value + 1);
    }
  }

  /** The two comparisons of the validity bounds are inclusion of the heights. */
  lemma LifeIsShorter(parent: Capability, child: Capability)
    requires child.Decoded()
    ensures child.validFrom >= parent.validFrom && CountAttenuated(parent.validUntil, child.validUntil)
       <==> ShorterLife(parent, child)
  {
    if ShorterLife(parent, child) {
      assert Live(child, child.validFrom);
      if parent.validUntil.Some? {
        var last := if child.validUntil.Some? then child.validUntil.value
                    else child.validFrom + parent.validUntil.value + 1;
        assert Live(child, last);
      }
    }
  }

  lemma AmountIsTighter(parent: Option<Amount>, child: Option<Amount>)
    ensures AmountAttenuated(parent, child) <==> Tighter(parent, child)
  {
    if AmountAttenuated(parent, child) {
      forall spent: nat | Under(child, spent) ensures Under(parent, spent) {
        AmountUnder(parent, child, spent);
      }
    }
    if Tighter(parent, child) && parent.Some? {
      if child.None? {
        assert Under(child, FromBE(parent.value) + 1);
      } else {
        assert Under(child, FromBE(child.value));
        CompareIsNumeric(child.value, parent.value);
      }
    }
  }

  /** The check accepts exactly the tightenings: a child of the parent's holder, one level deeper at
      least, with the inherited terms, that lies inside the parent in every dimension. */
  lemma AttenuatesIsTightening(parent: Capability, child: Capability)
    requires parent.Decoded() && child.Decoded()
    ensures Attenuates(parent, child) <==>
            && child.parent == Some(parent.id) && parent.holder == Principal(child.issuer) && !child.holder.Bearer?
            && child.depth < parent.depth && Inherits(child, parent) && Within(child, parent)
  {
    ScopeSubsetIsInclusion(child.resource, parent.resource);
    ScopeSubsetIsInclusion(child.data, parent.data);
    AmountIsTighter(parent.monetary, child.monetary);
    AmountIsTighter(parent.compute, child.compute);
    UsesAreFewer(parent, child);
    LifeIsShorter(parent, child);
  }

  /** Whatever the inner capability permits, the outer one permits. */
  lemma WithinPermitsLess(inner: Capability, outer: Capability, e: Exercise)
    requires inner.Decoded() && outer.Decoded() && Within(inner, outer) && Permits(inner, e)
    ensures Permits(outer, e)
  {}

  /** Every exercise of the inner capability is one of the outer. */
  ghost predicate PermitsNoMore(inner: Capability, outer: Capability)
    requires inner.Decoded() && outer.Decoded()
  {
    forall e: Exercise :: Permits(inner, e) ==> Permits(outer, e)
  }

  function SomeResource(s: Scope): Root {
    match s
    case Any => ZERO_ROOT
    case Exact(value) => value
    case Prefix(_, value) => value
  }

  /** No decoded capability is empty: this can always be done with it. */
  ghost function Sample(c: Capability): (e: Exercise)
    requires c.Decoded()
    ensures Permits(c, e)
  {
    ContainsIsCovers(c.resource, SomeResource(c.resource));
    ContainsIsCovers(c.data, SomeResource(c.data));
    Exercise(c.actions[0], SomeResource(c.resource), SomeResource(c.data), 0, 0, 0, c.validFrom)
  }

  lemma NoMoreIsWithin(inner: Capability, outer: Capability)
    requires inner.Decoded() && outer.Decoded() && PermitsNoMore(inner, outer)
    ensures Within(inner, outer)
  {
    var e := Sample(inner);
    forall a | a in inner.actions ensures a in outer.actions {
      assert Permits(inner, e.(action := a));
    }
    forall r: Root | Contains(inner.resource, r) ensures Contains(outer.resource, r) {
      assert Permits(inner, e.(resource := r));
    }
    forall r: Root | Contains(inner.data, r) ensures Contains(outer.data, r) {
      assert Permits(inner, e.(data := r));
    }
    forall n: nat | Under(inner.monetary, n) ensures Under(outer.monetary, n) {
      assert Permits(inner, e.(money := n));
    }
    forall n: nat | Under(inner.compute, n) ensures Under(outer.compute, n) {
      assert Permits(inner, e.(compute := n));
    }
    forall n: nat | CountUnder(inner.uses, n) ensures CountUnder(outer.uses, n) {
      assert Permits(inner, e.(uses := n));
    }
    forall h: nat | Live(inner, h) ensures Live(outer, h) {
      assert Permits(inner, e.(height := h));
    }
  }

  /** The check is exact: it accepts a child if and only if it was issued by the parent's holder at a lower
      depth with the inherited terms, and nothing can be done with it that the parent does not permit. */
  lemma AttenuatesExactly(parent: Capability, child: Capability)
    requires parent.Decoded() && child.Decoded()
    ensures Attenuates(parent, child) <==>
            && child.parent == Some(parent.id) && parent.holder == Principal(child.issuer) && !child.holder.Bearer?
            && child.depth < parent.depth && Inherits(child, parent) && PermitsNoMore(child, parent)
  {
    AttenuatesIsTightening(parent, child);
    if Within(child, parent) {
      forall e: Exercise | Permits(child, e) ensures Permits(parent, e) {
        WithinPermitsLess(child, parent, e);
      }
    }
    if PermitsNoMore(child, parent) { NoMoreIsWithin(child, parent); }
  }

  // ---------------------------------------------------------------------------------------------
  // Chains
  // ---------------------------------------------------------------------------------------------

  ghost predicate Chain(links: seq<Capability>) {
    && (forall c | c in links :: c.Decoded())
    && forall i | 0 <= i < |links| - 1 :: Attenuates(links[i], links[i + 1])
  }

  lemma WithinTransitive(a: Capability, b: Capability, c: Capability)
    requires a.Decoded() && b.Decoded() && c.Decoded() && Within(a, b) && Within(b, c)
    ensures Within(a, c)
  {}

  lemma WithinReflexive(a: Capability)
    requires a.Decoded()
    ensures Within(a, a)
  {}

  /** In every dimension, a capability further down lies inside each one above it. */
  lemma {:induction false} ChainNarrows(links: seq<Capability>, i: nat, j: nat)
    requires Chain(links) && i <= j < |links|
    ensures links[i] in links && links[j] in links && Within(links[j], links[i])
    decreases j
  {
    var last, first := links[j], links[i];
    if i == j {
      WithinReflexive(last);
    } else {
      var above := links[j - 1];
      ChainNarrows(links, i, j - 1);
      assert Attenuates(above, last);
      AttenuatesIsTightening(above, last);
      WithinTransitive(last, above, first);
    }
  }

  /** So whatever it permits, every capability above it permits. */
  lemma ChainPermitsLess(links: seq<Capability>, i: nat, j: nat, e: Exercise)
    requires Chain(links) && i <= j < |links| && links[i].Decoded() && links[j].Decoded() && Permits(links[j], e)
    ensures Permits(links[i], e)
  {
    ChainNarrows(links, i, j);
    WithinPermitsLess(links[j], links[i], e);
  }

  lemma {:induction false} ChainInherits(links: seq<Capability>, i: nat, j: nat)
    requires Chain(links) && i <= j < |links|
    ensures Inherits(links[j], links[i])
    ensures links[j].depth + (j - i) <= links[i].depth
    decreases j
  {
    if i < j {
      assert Attenuates(links[j - 1], links[j]);
      ChainInherits(links, i, j - 1);
    }
  }

  /** A chain cannot loop, and is no longer than the first capability's delegation depth allows. */
  lemma ChainIsBounded(links: seq<Capability>)
    requires Chain(links) && links != []
    ensures |links| <= links[0].depth + 1 <= 256
    ensures forall i, j | 0 <= i < j < |links| :: links[i] != links[j]
  {
    assert links[0] in links;
    ChainInherits(links, 0, |links| - 1);
    forall i, j | 0 <= i < j < |links| ensures links[i] != links[j] {
      ChainInherits(links, i, j);
    }
  }

  /** Only the last link may be held by anyone but a principal, each link is issued by the holder
      above it, and none that was delegated is a bearer capability. */
  lemma ChainOfCustody(links: seq<Capability>, i: nat)
    requires Chain(links) && 0 < i < |links|
    ensures links[i - 1].holder == Principal(links[i].issuer) && links[i].parent == Some(links[i - 1].id)
    ensures !links[i].holder.Bearer? && (i < |links| - 1 ==> links[i].holder.Principal?)
  {
    assert Attenuates(links[i - 1], links[i]);
    if i < |links| - 1 {
      var held := links[i];
      assert Attenuates(held, links[i + 1]);
    }
  }
}
