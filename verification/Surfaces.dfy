/** Agent-drawn surfaces: components that refer to each other by id, the check that what is drawn from the
root has bounded depth, and the validation of a whole surface. */
module Surfaces {
  import opened Interfaces
  import opened Options

  const MAX_COMPONENTS: nat := 64
  const MAX_COMPONENT_CHILDREN: nat := 32
  const MAX_COMPONENT_DEPTH: nat := 12
  const MAX_DATA_MODEL_BYTES: nat := 64 * 1024

  const INTERFACE_VERSION: string := "activechain.agent-interfaces.v1"
  const A2UI_VERSION: string := "v0.9"

  const ALLOWED_COMPONENTS: seq<string> := [
    "Button", "Card", "CheckBox", "Column", "Divider", "Icon", "List", "Modal", "RichText", "Row", "Table", "Text"
  ]

  const ALLOWED_ACTIONS: seq<string> := ["activechain.approve", "activechain.reject", "activechain.open_details"]

  datatype Action = Action(name: string, context: map<string, string>)

  /** The text is the path it is bound to. */
  datatype Component = Component(
    id: string, kind: string, children: seq<string>, child: Option<string>, text: Option<string>,
    action: Option<Action>)

  datatype Surface = Surface(
    version: string, interfaceVersion: string, surfaceId: string, root: string, intentCommitment: string,
    components: seq<Component>, dataModel: Json)

  /** The children, then the single child if there is one. */
  function References(c: Component): seq<string> {
    c.children + if c.child.Some? then [c.child.value] else []
  }

  /** The first component with the id. */
  function Find(components: seq<Component>, id: string): (found: Option<Component>)
    ensures found.Some? ==> found.value in components && found.value.id == id
    ensures found.None? ==> forall c | c in components :: c.id != id
  {
    if components == [] then None
    else if components[0].id == id then Some(components[0])
    else Find(components[1..], id)
  }

  function Links(components: seq<Component>, id: string): seq<string> {
    var found := Find(components, id);
    if found.None? then [] else References(found.value)
  }

  ghost predicate UniqueIds(components: seq<Component>) {
    forall i, j | 0 <= i < j < |components| :: components[i].id != components[j].id
  }

  ghost predicate HasId(components: seq<Component>, id: string) {
    exists c | c in components :: c.id == id
  }

  ghost predicate Resolved(components: seq<Component>) {
    forall c | c in components :: forall link | link in References(c) :: HasId(components, link)
  }

  // ---------------------------------------------------------------------------------------------
  // The recursive check
  // ---------------------------------------------------------------------------------------------

  /** The set of ids being visited, shared by the whole recursion. */
  class Active {
    var ids: set<string>

    constructor ()
      ensures ids == {}
    {
      ids := {};
    }
  }

  function Room(depth: nat): nat {
    if depth > MAX_COMPONENT_DEPTH then 0 else MAX_COMPONENT_DEPTH + 1 - depth
  }

  /** The check as a predicate of the ids above. */
  predicate Passes(components: seq<Component>, id: string, depth: nat, above: set<string>)
    decreases Room(depth), id
  {
    && depth <= MAX_COMPONENT_DEPTH && id !in above && Find(components, id).Some?
    && forall link | link in Links(components, id) :: Passes(components, link, depth + 1, above + {id})
  }

  /** Visits a component and what it refers to; the active set is as before whenever that succeeds. */
  method ValidateDepth(id: string, components: seq<Component>, active: Active, depth: nat) returns (r: Result)
    modifies active
    ensures r.Ok? <==> Passes(components, id, depth, old(active.ids))
    ensures r.Ok? ==> active.ids == old(active.ids)
    ensures r.Err? && Resolved(components) && HasId(components, id) ==> r.error == LimitExceeded
    ensures r.Err? && r.error != LimitExceeded ==> r.error == InvalidComponent
    decreases Room(depth)
  {
    if depth > MAX_COMPONENT_DEPTH || id in active.ids {
      return Err(LimitExceeded);
    }
    active.ids := active.ids + {id};
    var found := Find(components, id);
    if found.None? {
      return Err(InvalidComponent);
    }
    var links := References(found.value);
    for i := 0 to |links|
      invariant active.ids == old(active.ids) + {id}
      invariant forall link | link in links[..i] :: Passes(components, link, depth + 1, old(active.ids) + {id})
    {
      r := ValidateDepth(links[i], components, active, depth + 1);
      if r.Err? {
        assert links[i] in Links(components, id);
        return;
      }
      assert links[..i + 1] == links[..i] + [links[i]];
    }
    assert links[..|links|] == links == Links(components, id);
    active.ids := active.ids - {id};
    r := Ok;
  }

  // ---------------------------------------------------------------------------------------------
  // Walks
  // ---------------------------------------------------------------------------------------------

  /** Some component with the first id refers to the second. */
  ghost predicate Refers(components: seq<Component>, from: string, to: string) {
    exists c | c in components :: c.id == from && to in References(c)
  }

  ghost predicate Walk(components: seq<Component>, walk: seq<string>) {
    && walk != []
    && forall i | 0 <= i < |walk| - 1 :: Refers(components, walk[i], walk[i + 1])
  }

  lemma {:induction false} FindUnique(components: seq<Component>, c: Component)
    requires UniqueIds(components) && c in components
    ensures Find(components, c.id) == Some(c)
  {
    if components[0] != c {
      assert c in components[1..];
      var i :| 0 <= i < |components| && components[i] == c;
      assert components[0].id != components[i].id;
      FindUnique(components[1..], c);
    }
  }

  lemma RefersIsLink(components: seq<Component>, from: string, to: string)
    requires UniqueIds(components)
    ensures Refers(components, from, to) <==> to in Links(components, from)
  {
    if c :| c in components && c.id == from && to in References(c) {
      FindUnique(components, c);
    }
  }

  /** Every walk from the id has at most k components. */
  ghost predicate ShortFrom(components: seq<Component>, id: string, k: nat)
    decreases k, id
  {
    k > 0 && forall link | link in Links(components, id) :: ShortFrom(components, link, k - 1)
  }

  lemma {:induction false} WalksAreShort(components: seq<Component>, walk: seq<string>, k: nat)
    requires UniqueIds(components) && Walk(components, walk) && ShortFrom(components, walk[0], k)
    ensures |walk| <= k && ShortFrom(components, walk[|walk| - 1], k + 1 - |walk|)
  {
    if |walk| > 1 {
      RefersIsLink(components, walk[0], walk[1]);
      assert walk[1] in Links(components, walk[0]);
      WalkTail(components, walk);
      WalksAreShort(components, walk[1..], k - 1);
    }
  }

  lemma WalkTail(components: seq<Component>, walk: seq<string>)
    requires Walk(components, walk) && |walk| > 1
    ensures Walk(components, walk[1..])
  {
    var tail := walk[1..];
    forall i | 0 <= i < |tail| - 1 ensures Refers(components, tail[i], tail[i + 1]) {
      assert Refers(components, walk[i + 1], walk[i + 2]);
    }
  }

  lemma WalkCons(components: seq<Component>, id: string, walk: seq<string>)
    requires Walk(components, walk) && Refers(components, id, walk[0])
    ensures Walk(components, [id] + walk)
  {
    var longer := [id] + walk;
    forall i | 0 <= i < |longer| - 1 ensures Refers(components, longer[i], longer[i + 1]) {
      if i > 0 { assert Refers(components, walk[i - 1], walk[i]); }
    }
  }

  /** Where not every walk is short, there is a walk one longer. */
  lemma {:induction false} LongWalk(components: seq<Component>, id: string, k: nat) returns (walk: seq<string>)
    requires UniqueIds(components) && !ShortFrom(components, id, k)
    ensures Walk(components, walk) && walk[0] == id && |walk| == k + 1
    decreases k
  {
    if k == 0 {
      walk := [id];
    } else {
      var link :| link in Links(components, id) && !ShortFrom(components, link, k - 1);
      var rest := LongWalk(components, link, k - 1);
      RefersIsLink(components, id, link);
      WalkCons(components, id, rest);
      walk := [id] + rest;
    }
  }

  /** A component that walks are short from is on no cycle. */
  lemma {:induction false} NoReturn(components: seq<Component>, walk: seq<string>, k: nat)
    requires UniqueIds(components) && Walk(components, walk) && |walk| > 1 && ShortFrom(components, walk[0], k)
    ensures walk[|walk| - 1] != walk[0]
    decreases k
  {
    WalksAreShort(components, walk, k);
    if walk[|walk| - 1] == walk[0] {
      NoReturn(components, walk, k + 1 - |walk|);
    }
  }

  // ---------------------------------------------------------------------------------------------
  // What the check accepts
  // ---------------------------------------------------------------------------------------------

  /** No walk from the id meets one of the ids above. */
  ghost predicate Avoids(components: seq<Component>, id: string, above: set<string>) {
    forall walk | Walk(components, walk) && walk[0] == id :: walk[|walk| - 1] !in above
  }

  lemma LinkHasId(components: seq<Component>, id: string, link: string)
    requires Resolved(components) && link in Links(components, id)
    ensures HasId(components, link)
  {}

  /** A walk that goes on from a link meets neither the ids above nor the id itself. */
  lemma LongerAvoids(
    components: seq<Component>, id: string, walk: seq<string>, k: nat, above: set<string>)
    requires UniqueIds(components) && Walk(components, walk) && Refers(components, id, walk[0])
    requires ShortFrom(components, id, k) && Avoids(components, id, above)
    ensures walk[|walk| - 1] !in above + {id}
  {
    var longer := [id] + walk;
    WalkCons(components, id, walk);
    assert longer[0] == id && longer[|longer| - 1] == walk[|walk| - 1];
    NoReturn(components, longer, k);
  }

  lemma LinkAvoids(components: seq<Component>, id: string, link: string, k: nat, above: set<string>)
    requires UniqueIds(components) && link in Links(components, id)
    requires ShortFrom(components, id, k) && Avoids(components, id, above)
    ensures Avoids(components, link, above + {id})
  {
    RefersIsLink(components, id, link);
    forall walk | Walk(components, walk) && walk[0] == link ensures walk[|walk| - 1] !in above + {id} {
      LongerAvoids(components, id, walk, k, above);
    }
  }

  /** What makes the check pass at an id. */
  ghost predicate Ready(components: seq<Component>, id: string, depth: nat, above: set<string>) {
    && HasId(components, id) && depth <= MAX_COMPONENT_DEPTH
    && ShortFrom(components, id, Room(depth)) && Avoids(components, id, above)
  }

  lemma ReadyIsNew(components: seq<Component>, id: string, depth: nat, above: set<string>)
    requires Ready(components, id, depth, above)
    ensures depth <= MAX_COMPONENT_DEPTH && id !in above && Find(components, id).Some?
  {
    var walk := [id];
    assert Walk(components, walk) && walk[0] == id;
  }

  lemma LinkReady(components: seq<Component>, id: string, link: string, depth: nat, above: set<string>)
    requires UniqueIds(components) && Resolved(components) && link in Links(components, id)
    requires Ready(components, id, depth, above)
    ensures Ready(components, link, depth + 1, above + {id})
  {
    LinkHasId(components, id, link);
    LinkAvoids(components, id, link, Room(depth), above);
    assert ShortFrom(components, link, Room(depth) - 1);
  }

  lemma {:induction false} ReadyPasses(components: seq<Component>, id: string, depth: nat, above: set<string>)
    requires UniqueIds(components) && Resolved(components) && Ready(components, id, depth, above)
    ensures Passes(components, id, depth, above)
    decreases Room(depth)
  {
    ReadyIsNew(components, id, depth, above);
    forall link | link in Links(components, id) ensures Passes(components, link, depth + 1, above + {id}) {
      LinkReady(components, id, link, depth, above);
      ReadyPasses(components, link, depth + 1, above + {id});
    }
  }

  lemma {:induction false} PassesShort(components: seq<Component>, id: string, depth: nat, above: set<string>)
    requires UniqueIds(components) && Passes(components, id, depth, above)
    ensures ShortFrom(components, id, Room(depth))
    decreases Room(depth)
  {
    forall link | link in Links(components, id) ensures ShortFrom(components, link, Room(depth) - 1) {
      PassesShort(components, link, depth + 1, above + {id});
    }
  }

  ghost predicate EveryWalkAtMost(components: seq<Component>, root: string, most: nat) {
    forall walk | Walk(components, walk) && walk[0] == root :: |walk| <= most
  }

  /** With unique ids and resolved references, the check from the root succeeds if and only if every walk
      from the root has at most twelve components. */
  lemma DepthCheckIsExact(components: seq<Component>, root: string)
    requires UniqueIds(components) && Resolved(components) && HasId(components, root)
    ensures Passes(components, root, 1, {}) <==> EveryWalkAtMost(components, root, MAX_COMPONENT_DEPTH)
  {
    var depth := 1;
    if Passes(components, root, depth, {}) {
      PassesShort(components, root, depth, {});
      forall walk | Walk(components, walk) && walk[0] == root ensures |walk| <= MAX_COMPONENT_DEPTH {
        WalksAreShort(components, walk, Room(depth));
      }
    }
    if EveryWalkAtMost(components, root, MAX_COMPONENT_DEPTH) {
      if !ShortFrom(components, root, Room(depth)) {
        var walk := LongWalk(components, root, Room(depth));
        assert false;
      }
      ReadyPasses(components, root, depth, {});
    }
  }

  /** So no component that can be reached from the root can reach itself. */
  lemma AcceptedIsAcyclic(components: seq<Component>, root: string, to: seq<string>, cycle: seq<string>)
    requires UniqueIds(components) && Resolved(components) && HasId(components, root) && Passes(components, root, 1, {})
    requires Walk(components, to) && to[0] == root
    requires Walk(components, cycle) && cycle[0] == to[|to| - 1] && |cycle| > 1
    ensures cycle[|cycle| - 1] != cycle[0]
  {
    var depth := 1;
    PassesShort(components, root, depth, {});
    WalksAreShort(components, to, Room(depth));
    NoReturn(components, cycle, Room(depth) + 1 - |to|);
  }

  // ---------------------------------------------------------------------------------------------
  // The checks of each component
  // ---------------------------------------------------------------------------------------------

  /** The pieces between the slashes, as `split` gives them. */
  function SplitSlash(s: string): (parts: seq<string>)
    ensures parts != []
  {
    if s == "" then [""]
    else
      var parts := SplitSlash(s[1..]);
      if s[0] == '/' then [""] + parts else [[s[0]] + parts[0]] + parts[1..]
  }

  /** What `validate_binding` accepts. */
  predicate Binding(path: string) {
    && ByteLength(path) <= MAX_IDENTIFIER_BYTES && path != "" && path[0] == '/' && '.' !in path
    && (forall i | 0 <= i < |path| - 1 :: !(path[i] == '/' && path[i + 1] == '/'))
    && forall part | part in SplitSlash(path)[1..] :: part != ""
  }

  ghost predicate Segment(part: string) {
    part != "" && '/' !in part && '.' !in part
  }

  ghost predicate Segments(parts: seq<string>) {
    parts != [] && forall i | 0 <= i < |parts| :: Segment(parts[i])
  }

  function SlashJoined(parts: seq<string>): string {
    if parts == [] then "" else "/" + parts[0] + SlashJoined(parts[1..])
  }

  lemma {:induction false} SplitJoins(s: string)
    ensures "/" + s == SlashJoined(SplitSlash(s))
  {
    if s != "" {
      SplitJoins(s[1..]);
      var rest := SplitSlash(s[1..]);
      assert "/" + s[1..] == "/" + rest[0] + SlashJoined(rest[1..]);
      assert s[1..] == ("/" + s[1..])[1..] == rest[0] + SlashJoined(rest[1..]);
      assert s == [s[0]] + s[1..];
      assert SplitSlash(s)[1..] == if s[0] == '/' then rest else rest[1..];
    }
  }

  lemma {:induction false} PieceOf(s: string, i: nat)
    requires i < |SplitSlash(s)|
    ensures '/' !in SplitSlash(s)[i] && forall c | c in SplitSlash(s)[i] :: c in s
  {
    if s != "" {
      if s[0] == '/' {
        if i > 0 { PieceOf(s[1..], i - 1); }
      } else {
        PieceOf(s[1..], i);
      }
    }
  }

  lemma {:induction false} SplitWord(word: string, s: string)
    requires '/' !in word
    ensures SplitSlash(word + s) == [word + SplitSlash(s)[0]] + SplitSlash(s)[1..]
  {
    if word == "" {
      assert word + s == s && word + SplitSlash(s)[0] == SplitSlash(s)[0];
    } else {
      SplitWord(word[1..], s);
      assert (word + s)[1..] == word[1..] + s && (word + s)[0] == word[0];
      assert [word[0]] + (word[1..] + SplitSlash(s)[0]) == word + SplitSlash(s)[0];
    }
  }

  lemma SplitSlashed(s: string)
    ensures SplitSlash("/" + s) == [""] + SplitSlash(s)
  {
    assert ("/" + s)[1..] == s;
  }

  lemma {:induction false} JoinedSplits(first: string, more: seq<string>)
    requires Segment(first) && forall i | 0 <= i < |more| :: Segment(more[i])
    ensures SplitSlash(first + SlashJoined(more)) == [first] + more
    ensures '.' !in first + SlashJoined(more)
    decreases |more|
  {
    SplitWord(first, SlashJoined(more));
    if more == [] {
      assert first + "" == first;
    } else {
      var rest := more[0] + SlashJoined(more[1..]);
      JoinedSplits(more[0], more[1..]);
      SplitSlashed(rest);
      assert SlashJoined(more) == "/" + rest;
      assert [more[0]] + more[1..] == more && first + "" == first;
    }
  }

  lemma {:induction false} DoubleSlashSplits(s: string, i: nat)
    requires i + 1 < |s| && s[i] == '/' && s[i + 1] == '/'
    ensures "" in SplitSlash(s)[1..]
  {
    var parts := SplitSlash(s[1..]);
    if i == 0 {
      assert parts[0] == "" && SplitSlash(s)[1..] == parts;
    } else {
      DoubleSlashSplits(s[1..], i - 1);
    }
  }

  lemma BindingHasSegments(path: string)
    requires Binding(path)
    ensures Segments(SplitSlash(path[1..])) && path == SlashJoined(SplitSlash(path[1..]))
  {
    var parts := SplitSlash(path[1..]);
    assert path == "/" + path[1..];
    SplitSlashed(path[1..]);
    SplitJoins(path[1..]);
    assert SplitSlash(path)[1..] == parts;
    forall i | 0 <= i < |parts| ensures Segment(parts[i]) {
      PieceOf(path[1..], i);
      assert parts[i] in parts;
    }
  }

  lemma SegmentsAreBinding(parts: seq<string>)
    requires Segments(parts) && ByteLength(SlashJoined(parts)) <= MAX_IDENTIFIER_BYTES
    ensures Binding(SlashJoined(parts))
  {
    var path, rest := SlashJoined(parts), parts[0] + SlashJoined(parts[1..]);
    JoinedSplits(parts[0], parts[1..]);
    SplitSlashed(rest);
    assert path == "/" + rest && SplitSlash(path)[1..] == parts;
    forall i | 0 <= i < |path| - 1 ensures !(path[i] == '/' && path[i + 1] == '/') {
      if path[i] == '/' && path[i + 1] == '/' { DoubleSlashSplits(path, i); }
    }
  }

  /** A binding is accepted if and only if it is short enough and is a list of one or more segments, each
      after a slash, each non-empty and without slashes or dots. */
  lemma BindingIsSegments(path: string)
    ensures Binding(path) <==>
            ByteLength(path) <= MAX_IDENTIFIER_BYTES && exists parts :: Segments(parts) && path == SlashJoined(parts)
  {
    if Binding(path) { BindingHasSegments(path); }
    if parts :| Segments(parts) && path == SlashJoined(parts) && ByteLength(path) <= MAX_IDENTIFIER_BYTES {
      SegmentsAreBinding(parts);
    }
  }

  /** Why the loop refuses a component; repeated when an earlier one has its id. */
  function ComponentError(c: Component, repeated: bool, commitment: string): Option<InterfaceError> {
    if !Identifier(c.id) then Some(InvalidIdentifier)
    else if repeated || c.kind !in ALLOWED_COMPONENTS || |c.children| > MAX_COMPONENT_CHILDREN
      then Some(InvalidComponent)
    else if c.text.Some? && !Binding(c.text.value) then Some(InvalidBinding)
    else if c.action.Some? && !AllowedAction(c.action.value, c.kind, commitment) then Some(InvalidAction)
    else None
  }

  /** Only a button acts, and only on the surface's own intent. */
  predicate AllowedAction(action: Action, kind: string, commitment: string) {
    && kind == "Button" && action.name in ALLOWED_ACTIONS
    && "intent_commitment" in action.context && action.context["intent_commitment"] == commitment
  }

  /** One of the twelve kinds, with at most 32 children. */
  predicate Drawable(c: Component) {
    && c.kind in {"Button", "Card", "CheckBox", "Column", "Divider", "Icon", "List", "Modal", "RichText", "Row",
                  "Table", "Text"}
    && |c.children| <= 32
  }

  /** The text, if there is one, is bound to a list of segments. */
  ghost predicate Reads(c: Component) {
    c.text.Some? ==>
      && ByteLength(c.text.value) <= 128
      && exists parts :: Segments(parts) && c.text.value == SlashJoined(parts)
  }

  /** The action, if there is one, is a button's, one of three, and on the given intent. */
  predicate Acts(c: Component, commitment: string) {
    c.action.Some? ==>
      && c.kind == "Button"
      && c.action.value.name in {"activechain.approve", "activechain.reject", "activechain.open_details"}
      && ("intent_commitment", commitment) in c.action.value.context.Items
  }

  /** The conditions of each error of a component, and of none. */
  lemma ComponentErrorsExact(c: Component, repeated: bool, commitment: string)
    ensures var e, shaped := ComponentError(c, repeated, commitment), Identifier(c.id) && !repeated && Drawable(c);
            && (e == Some(InvalidIdentifier) <==> !Identifier(c.id))
            && (e == Some(InvalidComponent) <==> Identifier(c.id) && (repeated || !Drawable(c)))
            && (e == Some(InvalidBinding) <==> shaped && !Reads(c))
            && (e == Some(InvalidAction) <==> shaped && Reads(c) && !Acts(c, commitment))
            && (e == None <==> shaped && Reads(c) && Acts(c, commitment))
  {
    if c.text.Some? { BindingIsSegments(c.text.value); }
  }

  // ---------------------------------------------------------------------------------------------
  // The whole check
  // ---------------------------------------------------------------------------------------------

  ghost predicate Repeated(components: seq<Component>, i: nat)
    requires i < |components|
  {
    HasId(components[..i], components[i].id)
  }

  ghost function ErrorAt(components: seq<Component>, i: nat, commitment: string): Option<InterfaceError>
    requires i < |components|
  {
    ComponentError(components[i], Repeated(components, i), commitment)
  }

  ghost predicate EachAllowed(components: seq<Component>, commitment: string) {
    forall i | 0 <= i < |components| :: ErrorAt(components, i, commitment).None?
  }

  /** The error is that of the first component that has one. */
  ghost predicate FirstRefused(components: seq<Component>, commitment: string, error: InterfaceError) {
    exists i :: 0 <= i < |components| && ErrorAt(components, i, commitment) == Some(error)
             && forall j | 0 <= j < i :: ErrorAt(components, j, commitment).None?
  }

  lemma AllowedAreUnique(components: seq<Component>, commitment: string)
    requires EachAllowed(components, commitment)
    ensures UniqueIds(components)
  {
    forall i, j | 0 <= i < j < |components| ensures components[i].id != components[j].id {
      assert ErrorAt(components, j, commitment).None?;
      assert components[i] in components[..j];
    }
  }

  /** Every action of an accepted list of components is on the intent that was reviewed, whichever component
      it is in, and no component has the id of another. */
  lemma AllowedActOnIntent(components: seq<Component>, commitment: string, i: nat)
    requires EachAllowed(components, commitment) && i < |components|
    ensures Identifier(components[i].id) && Drawable(components[i]) && Reads(components[i])
    ensures Acts(components[i], commitment)
    ensures forall j | 0 <= j < |components| && components[j].id == components[i].id :: j == i
  {
    assert ErrorAt(components, i, commitment).None?;
    ComponentErrorsExact(components[i], Repeated(components, i), commitment);
    AllowedAreUnique(components, commitment);
  }

  method CollectIds(components: seq<Component>, commitment: string) returns (r: Result, ids: set<string>)
    ensures r.Ok? <==> EachAllowed(components, commitment)
    ensures r.Ok? ==> forall id :: id in ids <==> HasId(components, id)
    ensures r.Err? ==> FirstRefused(components, commitment, r.error)
  {
    ids := {};
    for i := 0 to |components|
      invariant forall j | 0 <= j < i :: ErrorAt(components, j, commitment).None?
      invariant forall id :: id in ids <==> HasId(components[..i], id)
    {
      var c := components[i];
      assert components[..i + 1] == components[..i] + [c];
      var refused := ComponentError(c, c.id in ids, commitment);
      assert refused == ErrorAt(components, i, commitment);
      if refused.Some? {
        return Err(refused.value), ids;
      }
      ids := ids + {c.id};
    }
    assert components[..|components|] == components;
    r := Ok;
  }

  method CheckReferences(components: seq<Component>, ids: set<string>) returns (r: Result)
    requires forall id :: id in ids <==> HasId(components, id)
    ensures r.Ok? <==> Resolved(components)
    ensures r.Err? ==> r.error == InvalidComponent
  {
    for i := 0 to |components|
      invariant forall c | c in components[..i] :: forall link | link in References(c) :: HasId(components, link)
    {
      var links := References(components[i]);
      for j := 0 to |links|
        invariant forall link | link in links[..j] :: HasId(components, link)
      {
        if links[j] !in ids {
          assert components[i] in components && links[j] in References(components[i]);
          return Err(InvalidComponent);
        }
      }
    }
    r := Ok;
  }

  /** What the checks on the components accept. */
  ghost predicate ComponentsAccepted(root: string, components: seq<Component>, commitment: string) {
    && EachAllowed(components, commitment) && HasId(components, root) && Resolved(components)
    && EveryWalkAtMost(components, root, MAX_COMPONENT_DEPTH)
  }

  /** Why they refuse: the first of the conditions to fail gives the error. */
  ghost predicate ComponentsRefused(
    root: string, components: seq<Component>, commitment: string, error: InterfaceError)
  {
    if !EachAllowed(components, commitment) then FirstRefused(components, commitment, error)
    else if !HasId(components, root) then error == InvalidSurface
    else if !Resolved(components) then error == InvalidComponent
    else error == LimitExceeded
  }

  /** The components are accepted if and only if each is allowed, root and references resolve, and every walk
      from the root has at most twelve components. */
  method ValidateComponents(root: string, components: seq<Component>, commitment: string) returns (r: Result)
    ensures r.Ok? <==> ComponentsAccepted(root, components, commitment)
    ensures r.Err? ==> ComponentsRefused(root, components, commitment, r.error)
  {
    var ids;
    r, ids := CollectIds(components, commitment);
    if r.Err? {
      return;
    }
    if root !in ids {
      return Err(InvalidSurface);
    }
    r := CheckReferences(components, ids);
    if r.Err? {
      return;
    }
    AllowedAreUnique(components, commitment);
    DepthCheckIsExact(components, root);
    var active := new Active();
    r := ValidateDepth(root, components, active, 1);
  }

  // ---------------------------------------------------------------------------------------------
  // The surface
  // ---------------------------------------------------------------------------------------------

  /** The length in bytes of a value's JSON text, if the serializer gives one. */
  type Serializer = Json -> Option<nat>

  /** What the checks before the components accept. */
  ghost predicate HeadAccepted(encoded: Serializer, s: Surface) {
    && s.version == A2UI_VERSION && s.interfaceVersion == INTERFACE_VERSION
    && Identifier(s.surfaceId) && Commitment(s.intentCommitment) && 0 < |s.components| <= MAX_COMPONENTS
    && s.dataModel.Object? && encoded(s.dataModel).Some? && encoded(s.dataModel).value <= MAX_DATA_MODEL_BYTES
    && BoundedThroughout(s.dataModel, 1)
  }

  /** Their answer, with the error of the first that fails. */
  function HeadVerdict(encoded: Serializer, s: Surface): Result {
    if s.version != A2UI_VERSION || s.interfaceVersion != INTERFACE_VERSION then Err(UnsupportedVersion)
    else if !Identifier(s.surfaceId) then Err(InvalidIdentifier)
    else if !Commitment(s.intentCommitment) then Err(InvalidAuthority)
    else if !(0 < |s.components| <= MAX_COMPONENTS) || !s.dataModel.Object? then Err(LimitExceeded)
    else if encoded(s.dataModel).None? then Err(InvalidSurface)
    else if encoded(s.dataModel).value > MAX_DATA_MODEL_BYTES then Err(LimitExceeded)
    else JsonVerdict(s.dataModel, 1)
  }

  /** The condition of each error of the head; inside the data model it is the first of its faults. */
  lemma HeadErrorsExact(encoded: Serializer, s: Surface)
    ensures var r := HeadVerdict(encoded, s);
            var known := s.version == "v0.9" && s.interfaceVersion == "activechain.agent-interfaces.v1";
            var named := known && Identifier(s.surfaceId);
            var bound := named && Commitment(s.intentCommitment);
            var sized := bound && 1 <= |s.components| <= 64 && s.dataModel.Object?;
            var short := sized && encoded(s.dataModel).Some? && encoded(s.dataModel).value <= 65_536;
            && (r == Err(UnsupportedVersion) <==> !known)
            && (known && !named ==> r == Err(InvalidIdentifier))
            && (r == Err(InvalidAuthority) <==> named && !bound)
            && (bound && !sized ==> r == Err(LimitExceeded))
            && (r == Err(InvalidSurface) <==> sized && encoded(s.dataModel).None?)
            && (sized && encoded(s.dataModel).Some? && !short ==> r == Err(LimitExceeded))
            && (short ==> r == FirstOf(Faults(s.dataModel, 1)))
  {
    var faults := Faults(s.dataModel, 1);
    JsonErrorIsFirst(s.dataModel, 1);
    FaultKinds(s.dataModel, 1);
    assert faults != [] ==> faults[0] in faults;
  }

  method ValidateHead(encoded: Serializer, s: Surface) returns (r: Result)
    ensures r == HeadVerdict(encoded, s)
    ensures r.Ok? <==> HeadAccepted(encoded, s)
  {
    JsonCheckIsExact(s.dataModel, 1);
    if s.version != A2UI_VERSION {
      return Err(UnsupportedVersion);
    }
    if s.interfaceVersion != INTERFACE_VERSION {
      return Err(UnsupportedVersion);
    }
    if !Identifier(s.surfaceId) {
      return Err(InvalidIdentifier);
    }
    if !Commitment(s.intentCommitment) {
      return Err(InvalidAuthority);
    }
    if |s.components| == 0 || |s.components| > MAX_COMPONENTS || !s.dataModel.Object? {
      return Err(LimitExceeded);
    }
    var length := encoded(s.dataModel);
    if length.None? {
      return Err(InvalidSurface);
    }
    if length.value > MAX_DATA_MODEL_BYTES {
      return Err(LimitExceeded);
    }
    r := ValidateJson(s.dataModel, 1);
  }

  /** A surface is accepted if and only if its head is (versions, identifier, commitment, number of components,
      and a data model that is an object, short enough and bounded throughout) and its components are; an error
      is that of the first check to fail. */
  method Validate(encoded: Serializer, s: Surface) returns (r: Result)
    ensures r.Ok? <==> HeadAccepted(encoded, s) && ComponentsAccepted(s.root, s.components, s.intentCommitment)
    ensures !HeadAccepted(encoded, s) ==> r == HeadVerdict(encoded, s)
    ensures HeadAccepted(encoded, s) && r.Err? ==>
              ComponentsRefused(s.root, s.components, s.intentCommitment, r.error)
  {
    r := ValidateHead(encoded, s);
    if r.Ok? {
      r := ValidateComponents(s.root, s.components, s.intentCommitment);
    }
  }
}
