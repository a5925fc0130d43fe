/** The authorization policy language: rules that permit or forbid, evaluated with deny overriding. */
module Policies {
  import opened Keys
  import opened Octets
  import opened Options
  import opened Scopes
  import opened Lengths
  import opened Capabilities

  datatype Actor = Actor(kind: nat, value: Root)

  datatype Condition =
    | ActorIs(actor: Actor) | ActionIs(digest: Root) | ResourceIn(selector: Scope)
    | ValueAtMost(amount: Amount) | ValueAtLeast(amount: Amount)
    | HeightAtLeast(height: nat) | HeightAtMost(height: nat)
    | HasCredential(digest: Root) | HasCapability(digest: Root)
    | ApprovedBy(digest: Root, minimum: nat) | FreezeIs(freeze: nat) | PurposeIs(digest: Root)
  {
    predicate Decoded() {
      ResourceIn? ==> selector.Decoded()
    }
  }

  datatype Effect = Permit | Forbid

  /** An obligation is kept as the bytes it was decoded from. */
  type Obligation = Octets

  datatype Rule = Rule(effect: Effect, conditions: seq<Condition>, obligations: seq<Obligation>)

  datatype Approval = Approval(role: Root, count: nat)

  datatype Request = Request(
    actor: Actor, action: Root, resource: Root, height: nat, value: Amount, freeze: nat, purpose: Option<Root>,
    credentials: seq<Root>, capabilities: seq<Root>, approvals: seq<Approval>)

  datatype Decision = Decision(result: nat, permits: nat, forbids: nat, steps: nat, obligations: seq<Obligation>)

  // ---------------------------------------------------------------------------------------------
  // What the decoders admit
  // ---------------------------------------------------------------------------------------------

  const MAX_RULES: nat := 32
  const MAX_CONDITIONS: nat := 16
  const MAX_OBLIGATIONS: nat := 4
  const MAX_STEPS: nat := 544
  const MAX_DECISION_OBLIGATIONS: nat := 128
  const MAX_DECISION_BODY: nat := 8327

  /** The bytes of one obligation: its kind, and what that kind carries. */
  predicate WellFormedObligation(raw: Obligation) {
    && raw != []
    && (match raw[0]
        case 0 => |raw| == 65
        case 1 => |raw| == 49
        case 2 => |raw| == 49
        case 3 => |raw| == 50 && raw[49] != 0
        case 4 => |raw| == 9
        case 5 => |raw| == 49
        case _ => false)
  }

  predicate DecodedRule(rule: Rule) {
    && |rule.conditions| <= MAX_CONDITIONS && |rule.obligations| <= MAX_OBLIGATIONS
    && (rule.effect.Forbid? ==> rule.obligations == [])
    && (forall c | c in rule.conditions :: c.Decoded())
    && (forall o | o in rule.obligations :: WellFormedObligation(o))
  }

  predicate DecodedPolicy(rules: seq<Rule>) {
    |rules| <= MAX_RULES && forall rule | rule in rules :: DecodedRule(rule)
  }

  /** Every check the decision decoder makes on a decision it is given. */
  predicate DecisionChecks(d: Decision) {
    && d.result <= 1 && d.permits + d.forbids <= 32
    && d.steps <= MAX_STEPS && d.steps >= d.permits + d.forbids
    && |d.obligations| <= MAX_DECISION_OBLIGATIONS && (forall o | o in d.obligations :: WellFormedObligation(o))
    && d.result == (if d.permits > 0 && d.forbids == 0 then 1 else 0)
    && (d.result == 0 ==> d.obligations == [])
    && DecisionBodySize(d) <= MAX_DECISION_BODY
  }

  /** Result, two counters, the 16-bit step count, the obligation count and the obligations. */
  function DecisionBodySize(d: Decision): nat {
    5 + CanonicalLengthWidth(|d.obligations|) + BytesIn(d.obligations)
  }

  function BytesIn(obligations: seq<Obligation>): nat {
    if obligations == [] then 0 else BytesIn(obligations[..|obligations| - 1]) + |obligations[|obligations| - 1]|
  }

  // ---------------------------------------------------------------------------------------------
  // Evaluation
  // ---------------------------------------------------------------------------------------------

  /** The first approval of the role decides. */
  predicate Approved(approvals: seq<Approval>, role: Root, minimum: nat) {
    if approvals == [] then false
    else if approvals[0].role == role then approvals[0].count >= minimum
    else Approved(approvals[1..], role, minimum)
  }

  predicate ConditionHolds(c: Condition, request: Request)
    requires c.Decoded()
  {
    match c
    case ActorIs(actor) => actor == request.actor
    case ActionIs(digest) => digest == request.action
    case ResourceIn(selector) => Contains(selector, request.resource)
    case ValueAtMost(amount) => Compare(request.value, amount) <= 0
    case ValueAtLeast(amount) => Compare(request.value, amount) >= 0
    case HeightAtLeast(height) => request.height >= height
    case HeightAtMost(height) => request.height <= height
    case HasCredential(digest) => digest in request.credentials
    case HasCapability(digest) => digest in request.capabilities
    case ApprovedBy(digest, minimum) => Approved(request.approvals, digest, minimum)
    case FreezeIs(freeze) => request.freeze == freeze
    case PurposeIs(digest) => request.purpose == Some(digest)
  }

  // ---------------------------------------------------------------------------------------------
  // What a condition means
  // ---------------------------------------------------------------------------------------------

  ghost predicate Listed(digest: Root, digests: seq<Root>) {
    exists i | 0 <= i < |digests| :: digests[i] == digest
  }

  /** Approval i is the first one of the role, and has the count. */
  ghost predicate ApprovedAt(approvals: seq<Approval>, role: Root, minimum: nat, i: nat) {
    && i < |approvals| && approvals[i].role == role && approvals[i].count >= minimum
    && forall j | 0 <= j < i :: approvals[j].role != role
  }

  /** What each of the twelve conditions says of a request: amounts and heights as numbers, a selector as
      the set of resources it covers, an approval by the first entry of its role. */
  ghost predicate Means(c: Condition, request: Request) {
    match c
    case ActorIs(actor) => request.actor.kind == actor.kind && request.actor.value == actor.value
    case ActionIs(digest) => request.action == digest
    case ResourceIn(selector) => selector.Decoded() && Covers(selector, request.resource)
    case ValueAtMost(amount) => FromBE(request.value) <= FromBE(amount)
    case ValueAtLeast(amount) => FromBE(request.value) >= FromBE(amount)
    case HeightAtLeast(height) => height <= request.height
    case HeightAtMost(height) => height >= request.height
    case HasCredential(digest) => Listed(digest, request.credentials)
    case HasCapability(digest) => Listed(digest, request.capabilities)
    case ApprovedBy(digest, minimum) => exists i: nat :: ApprovedAt(request.approvals, digest, minimum, i)
    case FreezeIs(freeze) => request.freeze == freeze
    case PurposeIs(digest) => request.purpose.Some? && request.purpose.value == digest
  }

  lemma {:induction false} ApprovedMeans(approvals: seq<Approval>, role: Root, minimum: nat)
    ensures Approved(approvals, role, minimum) <==> exists i: nat :: ApprovedAt(approvals, role, minimum, i)
  {
    if approvals == [] {
    } else if approvals[0].role == role {
      assert Approved(approvals, role, minimum) ==> ApprovedAt(approvals, role, minimum, 0);
    } else {
      var rest := approvals[1..];
      ApprovedMeans(rest, role, minimum);
      if i: nat :| ApprovedAt(approvals, role, minimum, i) {
        assert ApprovedAt(rest, role, minimum, i - 1);
      }
      if i: nat :| ApprovedAt(rest, role, minimum, i) {
        assert approvals[i + 1] == rest[i];
        assert forall j | 0 < j <= i :: approvals[j] == rest[j - 1];
        assert ApprovedAt(approvals, role, minimum, i + 1);
      }
    }
  }

  /** The evaluator decides every condition as what it means. */
  lemma ConditionMeans(c: Condition, request: Request)
    requires c.Decoded()
    ensures ConditionHolds(c, request) <==> Means(c, request)
  {
    if c.ValueAtMost? || c.ValueAtLeast? {
      CompareIsNumeric(request.value, c.amount);
    } else if c.ResourceIn? {
      ContainsIsCovers(c.selector, request.resource);
    } else if c.ApprovedBy? {
      ApprovedMeans(request.approvals, c.digest, c.minimum);
    }
  }

  ghost predicate DistinctRoles(approvals: seq<Approval>) {
    forall i, j | 0 <= i < j < |approvals| :: approvals[i].role != approvals[j].role
  }

  /** Where no role is listed twice, as in a decoded request, any approval of the role counts. */
  lemma ApprovedExactly(approvals: seq<Approval>, role: Root, minimum: nat)
    requires DistinctRoles(approvals)
    ensures Approved(approvals, role, minimum)
       <==> exists i | 0 <= i < |approvals| :: approvals[i].role == role && approvals[i].count >= minimum
  {
    ApprovedMeans(approvals, role, minimum);
    if i :| 0 <= i < |approvals| && approvals[i].role == role && approvals[i].count >= minimum {
      assert ApprovedAt(approvals, role, minimum, i);
    }
  }

  /** A minimum height that holds holds at every later height and at no height below it; a maximum height
      that holds holds at every earlier height and at no height above it. */
  lemma HeightsAreThresholds(bound: nat, request: Request, height: nat)
    ensures ConditionHolds(HeightAtLeast(bound), request) && height >= request.height ==>
              ConditionHolds(HeightAtLeast(bound), request.(height := height))
    ensures height < bound ==> !ConditionHolds(HeightAtLeast(bound), request.(height := height))
    ensures ConditionHolds(HeightAtMost(bound), request) && height <= request.height ==>
              ConditionHolds(HeightAtMost(bound), request.(height := height))
    ensures height > bound ==> !ConditionHolds(HeightAtMost(bound), request.(height := height))
    ensures ConditionHolds(HeightAtLeast(bound), request) && ConditionHolds(HeightAtMost(bound), request) <==>
            request.height == bound
  {}

  /** A credential is not a capability: presenting one decides the conditions on credentials alone. */
  lemma CredentialsAreNotCapabilities(digest: Root, other: Root, request: Request)
    ensures var more := request.(credentials := request.credentials + [digest]);
            && ConditionHolds(HasCredential(digest), more)
            && (ConditionHolds(HasCapability(other), more) <==> ConditionHolds(HasCapability(other), request))
    ensures var more := request.(capabilities := request.capabilities + [digest]);
            && ConditionHolds(HasCapability(digest), more)
            && (ConditionHolds(HasCredential(other), more) <==> ConditionHolds(HasCredential(other), request))
  {}

  ghost predicate Matches(rule: Rule, request: Request) {
    forall c | c in rule.conditions :: c.Decoded() && ConditionHolds(c, request)
  }

  /** One rule: a step for itself and one for each condition, every condition looked at. */
  method MatchRule(rule: Rule, request: Request, stepsBefore: nat) returns (matches: bool, steps: nat)
    requires forall c | c in rule.conditions :: c.Decoded()
    ensures matches <==> Matches(rule, request)
    ensures steps == (stepsBefore + StepsOf(rule)) % 0x1_0000
  {
    steps := (stepsBefore + 1) % 0x1_0000;
    matches := true;
    for j := 0 to |rule.conditions|
      invariant steps == (stepsBefore + 1 + j) % 0x1_0000
      invariant matches <==> forall c | c in rule.conditions[..j] :: ConditionHolds(c, request)
    {
      WrapNext(stepsBefore + 1 + j, 1, 0x1_0000);
      steps := (steps + 1) % 0x1_0000;
      matches := ConditionHolds(rule.conditions[j], request) && matches;
      assert rule.conditions[..j + 1] == rule.conditions[..j] + [rule.conditions[j]];
    }
    assert rule.conditions[..|rule.conditions|] == rule.conditions;
  }

  /** One rule: the counters cut to their widths, and the obligations of a permit. */
  method CountRule(rule: Rule, request: Request, permits: nat, forbids: nat, steps: nat, obligations: seq<Obligation>)
    returns (permits': nat, forbids': nat, steps': nat, obligations': seq<Obligation>)
    requires forall c | c in rule.conditions :: c.Decoded()
    ensures permits' == if Permitting(request)(rule) == 1 then (permits + 1) % 256 else permits
    ensures forbids' == if Forbidding(request)(rule) == 1 then (forbids + 1) % 256 else forbids
    ensures steps' == (steps + StepsOf(rule)) % 0x1_0000 && obligations' == obligations + Granted(rule, request)
  {
    permits', forbids', obligations' := permits, forbids, obligations;
    var matches;
    matches, steps' := MatchRule(rule, request, steps);
    if matches {
      if rule.effect.Permit? {
        permits' := (permits + 1) % 256;
        obligations' := obligations + rule.obligations;
      } else {
        forbids' := (forbids + 1) % 256;
      }
    }
  }

  /** The counters and the obligations after the loop over the rules. */
  method CountRules(rules: seq<Rule>, request: Request)
    returns (permits: nat, forbids: nat, steps: nat, obligations: seq<Obligation>)
    requires forall rule | rule in rules :: forall c | c in rule.conditions :: c.Decoded()
    ensures Counted(rules, request, permits, forbids, steps) && obligations == Collected(rules, request)
  {
    permits, forbids, steps, obligations := 0, 0, 0, [];
    for i := 0 to |rules|
      invariant Counted(rules[..i], request, permits, forbids, steps)
      invariant obligations == Collected(rules[..i], request)
    {
      assert rules[i] in rules;
      CountNext(rules, i, request, permits, forbids, steps);
      permits, forbids, steps, obligations := CountRule(rules[i], request, permits, forbids, steps, obligations);
    }
    assert rules[..|rules|] == rules;
  }

  /** One pass over the rules; the counters are bytes and a 16-bit word, and wrap. */
  method EvaluateApl(rules: seq<Rule>, request: Request) returns (out: Decision)
    requires forall rule | rule in rules :: forall c | c in rule.conditions :: c.Decoded()
    ensures out == Evaluated(rules, request)
  {
    var permits, forbids, steps, obligations := CountRules(rules, request);
    if permits > 0 && forbids == 0 {
      out := Decision(1, permits, forbids, steps, obligations);
    } else {
      out := Decision(0, permits, forbids, steps, []);
    }
  }

  lemma WrapNext(count: nat, more: nat, modulus: nat)
    requires modulus == 256 || modulus == 0x1_0000
    ensures (count % modulus + more) % modulus == (count + more) % modulus
  {
    assert (count % 256 + more) % 256 == (count + more) % 256;
  }

  ghost predicate Counted(rules: seq<Rule>, request: Request, permits: nat, forbids: nat, steps: nat) {
    && permits == Total(rules, Permitting(request)) % 256
    && forbids == Total(rules, Forbidding(request)) % 256
    && steps == Total(rules, StepsOf) % 0x1_0000
  }

  lemma CountNext(rules: seq<Rule>, i: nat, request: Request, permits: nat, forbids: nat, steps: nat)
    requires i < |rules| && Counted(rules[..i], request, permits, forbids, steps)
    ensures var rule := rules[i];
            Counted(rules[..i + 1], request,
                    if Permitting(request)(rule) == 1 then (permits + 1) % 256 else permits,
                    if Forbidding(request)(rule) == 1 then (forbids + 1) % 256 else forbids,
                    (steps + StepsOf(rule)) % 0x1_0000)
    ensures Collected(rules[..i + 1], request) == Collected(rules[..i], request) + Granted(rules[i], request)
  {
    var rule, next := rules[i], rules[..i + 1];
    assert next[..i] == rules[..i] && next[i] == rules[i];
    WrapNext(Total(rules[..i], Permitting(request)), 1, 256);
    WrapNext(Total(rules[..i], Forbidding(request)), 1, 256);
    WrapNext(Total(rules[..i], StepsOf), StepsOf(rule), 0x1_0000);
  }

  // ---------------------------------------------------------------------------------------------
  // The specification: totals over the rules
  // ---------------------------------------------------------------------------------------------

  ghost function Total(rules: seq<Rule>, weight: Rule -> nat): nat {
    if rules == [] then 0 else Total(rules[..|rules| - 1], weight) + weight(rules[|rules| - 1])
  }

  ghost function Permitting(request: Request): Rule -> nat {
    (rule: Rule) => if rule.effect.Permit? && Matches(rule, request) then 1 else 0
  }

  ghost function Forbidding(request: Request): Rule -> nat {
    (rule: Rule) => if rule.effect.Forbid? && Matches(rule, request) then 1 else 0
  }

  function StepsOf(rule: Rule): nat {
    1 + |rule.conditions|
  }

  ghost function Granted(rule: Rule, request: Request): seq<Obligation> {
    if rule.effect.Permit? && Matches(rule, request) then rule.obligations else []
  }

  ghost function Collected(rules: seq<Rule>, request: Request): seq<Obligation> {
    if rules == [] then []
    else Collected(rules[..|rules| - 1], request) + Granted(rules[|rules| - 1], request)
  }

  /** The decision from the true counts: counters cut to their widths, obligations only with a permit. */
  function Verdict(permitting: nat, forbidding: nat, steps: nat, obligations: seq<Obligation>): Decision {
    var permits, forbids := permitting % 256, forbidding % 256;
    var permitted := permits > 0 && forbids == 0;
    Decision(if permitted then 1 else 0, permits, forbids, steps % 0x1_0000, if permitted then obligations else [])
  }

  ghost function Evaluated(rules: seq<Rule>, request: Request): Decision {
    Verdict(Total(rules, Permitting(request)), Total(rules, Forbidding(request)), Total(rules, StepsOf),
            Collected(rules, request))
  }

  // ---------------------------------------------------------------------------------------------
  // Totals do not depend on the order
  // ---------------------------------------------------------------------------------------------

  ghost function Without(rules: seq<Rule>, i: nat): seq<Rule>
    requires i < |rules|
  {
    rules[..i] + rules[i + 1..]
  }

  lemma TotalSnoc(rules: seq<Rule>, rule: Rule, weight: Rule -> nat)
    ensures Total(rules + [rule], weight) == Total(rules, weight) + weight(rule)
  {
    assert (rules + [rule])[..|rules|] == rules;
  }

  lemma WithoutSnoc(rules: seq<Rule>, i: nat)
    requires i < |rules| - 1
    ensures Without(rules, i) == Without(rules[..|rules| - 1], i) + [rules[|rules| - 1]]
  {}

  lemma {:induction false} TotalWithout(rules: seq<Rule>, i: nat, weight: Rule -> nat)
    requires i < |rules|
    ensures Total(rules, weight) == Total(Without(rules, i), weight) + weight(rules[i])
  {
    var n := |rules| - 1;
    if i == n {
      assert Without(rules, i) == rules[..n];
    } else {
      TotalWithout(rules[..n], i, weight);
      WithoutSnoc(rules, i);
      TotalSnoc(Without(rules[..n], i), rules[n], weight);
    }
  }

  lemma WithoutMultiset(rules: seq<Rule>, i: nat)
    requires i < |rules|
    ensures multiset(Without(rules, i)) == multiset(rules) - multiset{rules[i]}
  {
    assert rules == rules[..i] + [rules[i]] + rules[i + 1..];
  }

  lemma {:induction false} TotalPermuted(a: seq<Rule>, b: seq<Rule>, weight: Rule -> nat)
    requires multiset(a) == multiset(b)
    ensures Total(a, weight) == Total(b, weight)
  {
    if a == [] {
      assert |b| == |multiset(b)| == 0;
    } else {
      var n := |a| - 1;
      assert a[n] in multiset(b);
      var i :| 0 <= i < |b| && b[i] == a[n];
      WithoutMultiset(a, n);
      WithoutMultiset(b, i);
      assert Without(a, n) == a[..n];
      TotalPermuted(a[..n], Without(b, i), weight);
      TotalWithout(b, i, weight);
    }
  }

  lemma {:induction false} CollectedCount(rules: seq<Rule>, request: Request, o: Obligation)
    ensures multiset(Collected(rules, request))[o] == Total(rules, (rule: Rule) => multiset(Granted(rule, request))[o])
  {
    if rules != [] { CollectedCount(rules[..|rules| - 1], request, o); }
  }

  /** Reordering the rules changes neither the result nor a counter, and obliges to the same things. */
  lemma OrderDoesNotMatter(a: seq<Rule>, b: seq<Rule>, request: Request)
    requires multiset(a) == multiset(b)
    ensures var x, y := Evaluated(a, request), Evaluated(b, request);
            && x.result == y.result && x.permits == y.permits && x.forbids == y.forbids && x.steps == y.steps
            && multiset(x.obligations) == multiset(y.obligations)
  {
    TotalPermuted(a, b, Permitting(request));
    TotalPermuted(a, b, Forbidding(request));
    TotalPermuted(a, b, StepsOf);
    forall o: Obligation ensures multiset(Collected(a, request))[o] == multiset(Collected(b, request))[o] {
      CollectedCount(a, request, o);
      CollectedCount(b, request, o);
      TotalPermuted(a, b, (rule: Rule) => multiset(Granted(rule, request))[o]);
    }
    assert multiset(Collected(a, request)) == multiset(Collected(b, request));
  }

  // ---------------------------------------------------------------------------------------------
  // No counter wraps
  // ---------------------------------------------------------------------------------------------

  lemma {:induction false} MatchesAtMost(rules: seq<Rule>, request: Request)
    ensures Total(rules, Permitting(request)) + Total(rules, Forbidding(request)) <= |rules| <= Total(rules, StepsOf)
  {
    if rules != [] { MatchesAtMost(rules[..|rules| - 1], request); }
  }

  lemma {:induction false} StepsAtMost(rules: seq<Rule>)
    requires forall rule | rule in rules :: DecodedRule(rule)
    ensures Total(rules, StepsOf) <= |rules| * 17
  {
    if rules != [] {
      assert rules[|rules| - 1] in rules;
      StepsAtMost(rules[..|rules| - 1]);
    }
  }

  lemma VerdictExact(permitting: nat, forbidding: nat, steps: nat, obligations: seq<Obligation>)
    requires permitting + forbidding <= MAX_RULES && steps <= MAX_STEPS
    ensures var d := Verdict(permitting, forbidding, steps, obligations);
            d.permits == permitting && d.forbids == forbidding && d.steps == steps
  {}

  /** The counters are a byte, a byte and a 16-bit word, and wrap: they are the true counts up to a multiple
      of their widths. */
  lemma CountersWrap(rules: seq<Rule>, request: Request) returns (p: nat, f: nat, s: nat)
    ensures var d := Evaluated(rules, request);
            && d.permits < 256 && d.forbids < 256 && d.steps < 65_536
            && Total(rules, Permitting(request)) == 256 * p + d.permits
            && Total(rules, Forbidding(request)) == 256 * f + d.forbids
            && Total(rules, StepsOf) == 65_536 * s + d.steps
            && (d.result == 1 <==> d.permits > 0 && d.forbids == 0)
            && d.obligations == if d.result == 1 then Collected(rules, request) else []
  {
    p, f := Total(rules, Permitting(request)) / 256, Total(rules, Forbidding(request)) / 256;
    s := Total(rules, StepsOf) / 65_536;
  }

  /** For a decoded policy the byte and word counters hold the true counts. */
  lemma NoCounterWraps(rules: seq<Rule>, request: Request)
    requires DecodedPolicy(rules)
    ensures var d := Evaluated(rules, request);
            && d.permits == Total(rules, Permitting(request)) && d.forbids == Total(rules, Forbidding(request))
            && d.steps == Total(rules, StepsOf)
            && d.permits + d.forbids <= |rules| <= d.steps <= MAX_STEPS
  {
    MatchesAtMost(rules, request);
    StepsAtMost(rules);
    VerdictExact(Total(rules, Permitting(request)), Total(rules, Forbidding(request)), Total(rules, StepsOf),
      Collected(rules, request));
  }

  // ---------------------------------------------------------------------------------------------
  // Deny overrides
  // ---------------------------------------------------------------------------------------------

  /** The rule has the effect, and every one of its conditions means something true of the request. */
  ghost predicate Applies(rule: Rule, effect: Effect, request: Request) {
    rule.effect == effect && forall c | c in rule.conditions :: Means(c, request)
  }

  ghost predicate SomeApplies(rules: seq<Rule>, effect: Effect, request: Request) {
    exists i | 0 <= i < |rules| :: Applies(rules[i], effect, request)
  }

  lemma MatchesMeans(rule: Rule, request: Request)
    requires DecodedRule(rule)
    ensures Matches(rule, request) <==> Applies(rule, rule.effect, request)
  {
    forall c | c in rule.conditions ensures ConditionHolds(c, request) <==> Means(c, request) {
      ConditionMeans(c, request);
    }
  }

  lemma WeightsMean(rule: Rule, request: Request)
    requires DecodedRule(rule)
    ensures Permitting(request)(rule) == if Applies(rule, Permit, request) then 1 else 0
    ensures Forbidding(request)(rule) == if Applies(rule, Forbid, request) then 1 else 0
    ensures Granted(rule, request) == if Applies(rule, Permit, request) then rule.obligations else []
  {
    MatchesMeans(rule, request);
  }

  lemma {:induction false} PositiveTotal(rules: seq<Rule>, weight: Rule -> nat)
    ensures Total(rules, weight) > 0 <==> exists i | 0 <= i < |rules| :: weight(rules[i]) > 0
  {
    if rules != [] {
      var n := |rules| - 1;
      PositiveTotal(rules[..n], weight);
      if i :| 0 <= i < |rules| && weight(rules[i]) > 0 {
        if i < n { assert rules[..n][i] == rules[i]; }
      }
      if i :| 0 <= i < n && weight(rules[..n][i]) > 0 { assert rules[i] == rules[..n][i]; }
    }
  }

  /** A decoded policy permits if and only if all conditions of some permitting rule are true of the
      request, and of no forbidding one. */
  lemma PermitsExactly(rules: seq<Rule>, request: Request)
    requires DecodedPolicy(rules)
    ensures Evaluated(rules, request).result == 1 <==>
            SomeApplies(rules, Permit, request) && !SomeApplies(rules, Forbid, request)
  {
    NoCounterWraps(rules, request);
    PositiveTotal(rules, Permitting(request));
    PositiveTotal(rules, Forbidding(request));
    forall i | 0 <= i < |rules|
      ensures Permitting(request)(rules[i]) > 0 <==> Applies(rules[i], Permit, request)
      ensures Forbidding(request)(rules[i]) > 0 <==> Applies(rules[i], Forbid, request)
    {
      assert rules[i] in rules;
      WeightsMean(rules[i], request);
    }
  }

  ghost function Positions(rules: seq<Rule>, p: Rule -> bool): set<nat> {
    set i: nat | i < |rules| && p(rules[i])
  }

  lemma PositionsNext(rules: seq<Rule>, p: Rule -> bool)
    requires rules != []
    ensures var n := |rules| - 1;
            |Positions(rules, p)| == |Positions(rules[..n], p)| + if p(rules[n]) then 1 else 0
  {
    var n := |rules| - 1;
    var before := Positions(rules[..n], p);
    assert Positions(rules, p) == if p(rules[n]) then before + {n} else before;
  }

  /** Where in the policy the rules of the effect that apply are. */
  ghost function Applying(rules: seq<Rule>, effect: Effect, request: Request): set<nat> {
    Positions(rules, (rule: Rule) => Applies(rule, effect, request))
  }

  lemma {:induction false} CountsApplying(rules: seq<Rule>, request: Request)
    requires forall rule | rule in rules :: DecodedRule(rule)
    ensures Total(rules, Permitting(request)) == |Applying(rules, Permit, request)|
    ensures Total(rules, Forbidding(request)) == |Applying(rules, Forbid, request)|
  {
    if rules != [] {
      var n := |rules| - 1;
      CountsApplying(rules[..n], request);
      assert rules[n] in rules;
      WeightsMean(rules[n], request);
      PositionsNext(rules, (rule: Rule) => Applies(rule, Permit, request));
      PositionsNext(rules, (rule: Rule) => Applies(rule, Forbid, request));
    }
  }

  /** The reported counters are the numbers of rules that apply, and the steps are the rules and the
      conditions of the policy. */
  lemma CountersExact(rules: seq<Rule>, request: Request)
    requires DecodedPolicy(rules)
    ensures var d := Evaluated(rules, request);
            && d.permits == |Applying(rules, Permit, request)| && d.forbids == |Applying(rules, Forbid, request)|
            && d.steps == |rules| + |ConditionsOf(rules)|
  {
    NoCounterWraps(rules, request);
    CountsApplying(rules, request);
    StepsExact(rules);
  }

  /** All conditions of a policy, rule after rule. */
  function ConditionsOf(rules: seq<Rule>): seq<Condition> {
    if rules == [] then [] else ConditionsOf(rules[..|rules| - 1]) + rules[|rules| - 1].conditions
  }

  lemma {:induction false} StepsExact(rules: seq<Rule>)
    ensures Total(rules, StepsOf) == |rules| + |ConditionsOf(rules)|
  {
    if rules != [] { StepsExact(rules[..|rules| - 1]); }
  }

  /** A permitted request is obliged to exactly what the permitting rules that apply carry; a denied one
      to nothing. */
  lemma ObligationsExactly(rules: seq<Rule>, request: Request, o: Obligation)
    requires DecodedPolicy(rules)
    ensures o in Evaluated(rules, request).obligations <==>
            && Evaluated(rules, request).result == 1
            && exists i | 0 <= i < |rules| :: Applies(rules[i], Permit, request) && o in rules[i].obligations
  {
    CollectedExactly(rules, request, o);
  }

  lemma {:induction false} CollectedExactly(rules: seq<Rule>, request: Request, o: Obligation)
    requires forall rule | rule in rules :: DecodedRule(rule)
    ensures o in Collected(rules, request) <==>
            exists i | 0 <= i < |rules| :: Applies(rules[i], Permit, request) && o in rules[i].obligations
  {
    if rules != [] {
      var n := |rules| - 1;
      CollectedExactly(rules[..n], request, o);
      assert rules[n] in rules;
      WeightsMean(rules[n], request);
      if i :| 0 <= i < |rules| && Applies(rules[i], Permit, request) && o in rules[i].obligations {
        if i < n { assert rules[..n][i] == rules[i]; }
      }
      if i :| 0 <= i < n && Applies(rules[..n][i], Permit, request) && o in rules[..n][i].obligations {
        assert rules[i] == rules[..n][i];
      }
    }
  }

  /** Obligations come in the order of the rules. */
  lemma {:induction false} CollectedInOrder(earlier: seq<Rule>, later: seq<Rule>, request: Request)
    ensures Collected(earlier + later, request) == Collected(earlier, request) + Collected(later, request)
  {
    if later == [] {
      assert earlier + later == earlier;
    } else {
      var n := |later| - 1;
      assert (earlier + later)[..|earlier| + n] == earlier + later[..n];
      CollectedInOrder(earlier, later[..n], request);
    }
  }

  /** A forbidding rule put anywhere in a policy never turns a denial into a permission, and where the
      request is still permitted, the obligations are the same. */
  lemma ForbidNeverGrants(rules: seq<Rule>, i: nat, rule: Rule, request: Request)
    requires i <= |rules| && rule.effect.Forbid?
    requires DecodedPolicy(rules) && DecodedPolicy(rules[..i] + [rule] + rules[i..])
    ensures var x, y := Evaluated(rules, request), Evaluated(rules[..i] + [rule] + rules[i..], request);
            y.result == 1 ==>
              x.result == 1 && multiset(x.obligations) == multiset(y.obligations) && x.permits == y.permits
  {
    var more := rules[..i] + [rule] + rules[i..];
    assert Without(more, i) == rules;
    NoCounterWraps(rules, request);
    NoCounterWraps(more, request);
    TotalWithout(more, i, Permitting(request));
    TotalWithout(more, i, Forbidding(request));
    forall o: Obligation ensures multiset(Collected(more, request))[o] == multiset(Collected(rules, request))[o] {
      CollectedCount(more, request, o);
      CollectedCount(rules, request, o);
      TotalWithout(more, i, (r: Rule) => multiset(Granted(r, request))[o]);
    }
    assert multiset(Collected(more, request)) == multiset(Collected(rules, request));
  }

  // ---------------------------------------------------------------------------------------------
  // The decision passes its own decoder
  // ---------------------------------------------------------------------------------------------

  lemma {:induction false} CollectedAtMost(rules: seq<Rule>, request: Request)
    requires forall rule | rule in rules :: DecodedRule(rule)
    ensures |Collected(rules, request)| <= |rules| * MAX_OBLIGATIONS
    ensures forall o | o in Collected(rules, request) :: WellFormedObligation(o)
  {
    if rules != [] {
      assert rules[|rules| - 1] in rules;
      CollectedAtMost(rules[..|rules| - 1], request);
    }
  }

  lemma {:induction false} BytesAtMost(obligations: seq<Obligation>)
    requires forall o | o in obligations :: WellFormedObligation(o)
    ensures BytesIn(obligations) <= 65 * |obligations|
  {
    if obligations != [] {
      assert obligations[|obligations| - 1] in obligations;
      BytesAtMost(obligations[..|obligations| - 1]);
    }
  }

  /** The evaluator's decision on a decoded policy meets every check of the decision decoder, down to
      the size of its body. */
  lemma DecisionPassesChecks(rules: seq<Rule>, request: Request)
    requires DecodedPolicy(rules)
    ensures DecisionChecks(Evaluated(rules, request))
  {
    NoCounterWraps(rules, request);
    CollectedAtMost(rules, request);
    BytesAtMost(Evaluated(rules, request).obligations);
  }
}
