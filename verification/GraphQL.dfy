/** GraphQL root fields: what a document may execute at its root, found without executing it. */
module GraphQL {
  import opened Octets

  /** `when` is the text of the directives and type condition, which only execution looks at. */
  datatype Selection =
    | Field(when: string, alias: string, name: string)
    | Inline(when: string, selections: seq<Selection>)
    | Spread(when: string, name: string)

  datatype Operation = Operation(kind: string, name: string, selections: seq<Selection>)
  datatype Fragment = Fragment(name: string, selections: seq<Selection>)
  datatype Document = Document(operations: seq<Operation>, fragments: seq<Fragment>)

  type Fragments = map<string, seq<Selection>>

  const MAX_EXPANSION_DEPTH := 128

  /** What an inline fragment or a spread stands for. */
  function Inside(fragments: Fragments, s: Selection): Option<seq<Selection>> {
    match s
    case Field(_, _, _) => None
    case Inline(_, selections) => Some(selections)
    case Spread(_, name) => if name in fragments then Some(fragments[name]) else None
  }

  /** `to` is what `from` becomes after entering `n` fragments, one inside the other. */
  ghost predicate Reaches(fragments: Fragments, from: seq<Selection>, to: seq<Selection>, n: nat)
    decreases n, 1
  {
    if n == 0 then from == to
    else exists i :: ReachesVia(fragments, from, to, n, i)
  }

  ghost predicate ReachesVia(fragments: Fragments, from: seq<Selection>, to: seq<Selection>, n: nat, i: int)
    requires n > 0
    decreases n, 0
  {
    0 <= i < |from| && Inside(fragments, from[i]).Some? && Reaches(fragments, Inside(fragments, from[i]).value, to, n - 1)
  }

  ghost predicate HasField(selections: seq<Selection>, name: string) {
    exists i :: 0 <= i < |selections| && selections[i].Field? && selections[i].name == name
  }

  /** A field of this name stands at the root, at whatever depth of fragments. */
  ghost predicate RootField(fragments: Fragments, selections: seq<Selection>, name: string) {
    exists to, n :: Reaches(fragments, selections, to, n) && HasField(to, name)
  }

  /** Every fragment met is defined, and no more than `n` are entered one inside the other. */
  ghost predicate Expandable(fragments: Fragments, selections: seq<Selection>, n: nat)
    decreases n, 1
  {
    forall i :: 0 <= i < |selections| ==> OneExpandable(fragments, selections[i], n)
  }

  ghost predicate OneExpandable(fragments: Fragments, s: Selection, n: nat)
    decreases n, 0
  {
    s.Field? || (n > 0 && Inside(fragments, s).Some? && Expandable(fragments, Inside(fragments, s).value, n - 1))
  }

  datatype WalkError = TooDeep | Undefined(name: string) | Cyclic(name: string)
  datatype Walked = Fields(names: set<string>) | Failed(error: WalkError)

  /** The walk over a selection set: fields collected, fragments entered, the first error kept. */
  function Walk(fragments: Fragments, selections: seq<Selection>, visiting: set<string>, depth: nat): Walked
    requires depth <= MAX_EXPANSION_DEPTH + 1
    decreases MAX_EXPANSION_DEPTH + 1 - depth, |selections|, 2
  {
    if depth > MAX_EXPANSION_DEPTH then Failed(TooDeep) else WalkFrom(fragments, selections, visiting, depth)
  }

  function WalkFrom(fragments: Fragments, selections: seq<Selection>, visiting: set<string>, depth: nat): Walked
    requires depth <= MAX_EXPANSION_DEPTH
    decreases MAX_EXPANSION_DEPTH + 1 - depth, |selections|, 1
  {
    if selections == [] then Fields({})
    else
      var first := WalkOne(fragments, selections[0], visiting, depth);
      if first.Failed? then first
      else
        var rest := WalkFrom(fragments, selections[1..], visiting, depth);
        if rest.Failed? then rest else Fields(first.names + rest.names)
  }

  function WalkOne(fragments: Fragments, s: Selection, visiting: set<string>, depth: nat): Walked
    requires depth <= MAX_EXPANSION_DEPTH
    decreases MAX_EXPANSION_DEPTH + 1 - depth, 0, 0
  {
    match s
    case Field(_, _, name) => Fields({name})
    case Inline(_, selections) => Walk(fragments, selections, visiting, depth + 1)
    case Spread(_, name) =>
      if name !in fragments then Failed(Undefined(name))
      else if name in visiting then Failed(Cyclic(name))
      else Walk(fragments, fragments[name], visiting + {name}, depth + 1)
  }

  /** The walk's state while it runs: the fields found and the fragments being entered. */
  class Expansion {
    const fragments: Fragments
    var fields: set<string>
    var visiting: set<string>

    constructor (fragments: Fragments)
      ensures this.fragments == fragments && fields == {} && visiting == {}
    {
      this.fragments := fragments;
      fields, visiting := {}, {};
    }

    method Visit(selections: seq<Selection>, depth: nat) returns (error: Option<WalkError>)
      requires depth <= MAX_EXPANSION_DEPTH + 1
      modifies this
      ensures error.None? ==> old(Walk(fragments, selections, visiting, depth)).Fields?
      ensures error.None? ==> visiting == old(visiting)
      ensures error.None? ==> fields == old(fields) + old(Walk(fragments, selections, visiting, depth)).names
      ensures error.Some? ==> old(Walk(fragments, selections, visiting, depth)) == Failed(error.value)
      decreases MAX_EXPANSION_DEPTH + 1 - depth
    {
      if depth > MAX_EXPANSION_DEPTH {
        return Some(TooDeep);
      }
      ghost var before, entered := fields, visiting;
      ghost var found: set<string> := {};
      var i := 0;
      assert selections[0..] == selections;
      while i < |selections|
        invariant 0 <= i <= |selections|
        invariant visiting == entered && fields == before + found
        invariant WalkFrom(fragments, selections, entered, depth)
               == Added(found, WalkFrom(fragments, selections[i..], entered, depth))
      {
        assert selections[i..][1..] == selections[i + 1..];
        ghost var one := WalkOne(fragments, selections[i], entered, depth);
        AddedTwice(found, one, WalkFrom(fragments, selections[i + 1..], entered, depth));
        match selections[i] {
          case Field(_, _, name) =>
            fields := fields + {name};
          case Inline(_, inner) =>
            error := Visit(inner, depth + 1);
            if error.Some? {
              return;
            }
          case Spread(_, name) =>
            if name !in fragments {
              return Some(Undefined(name));
            }
            if name in visiting {
              return Some(Cyclic(name));
            }
            visiting := visiting + {name};
            error := Visit(fragments[name], depth + 1);
            if error.Some? {
              return;
            }
            visiting := visiting - {name};
        }
        found := found + one.names;
        i := i + 1;
      }
      return None;
    }
  }

  ghost function Added(found: set<string>, rest: Walked): Walked {
    if rest.Failed? then rest else Fields(found + rest.names)
  }

  lemma AddedTwice(found: set<string>, one: Walked, rest: Walked)
    ensures one.Fields? ==> Added(found, Added(one.names, rest)) == Added(found + one.names, rest)
  {
    if one.Fields? && rest.Fields? {
      assert found + (one.names + rest.names) == found + one.names + rest.names;
    }
  }

  // ---- what the walk collects ----

  lemma ReachesFirst(fragments: Fragments, from: seq<Selection>, i: nat, to: seq<Selection>, n: nat)
    requires i < |from| && Inside(fragments, from[i]).Some? && Reaches(fragments, Inside(fragments, from[i]).value, to, n)
    ensures Reaches(fragments, from, to, n + 1)
  {
    assert ReachesVia(fragments, from, to, n + 1, i);
  }

  lemma RootFieldInside(fragments: Fragments, from: seq<Selection>, i: nat, name: string)
    requires i < |from| && Inside(fragments, from[i]).Some?
    requires RootField(fragments, Inside(fragments, from[i]).value, name)
    ensures RootField(fragments, from, name)
  {
    var to: seq<Selection>, n: nat :| Reaches(fragments, Inside(fragments, from[i]).value, to, n) && HasField(to, name);
    ReachesFirst(fragments, from, i, to, n);
  }

  lemma RootFieldHere(fragments: Fragments, from: seq<Selection>, name: string)
    requires HasField(from, name)
    ensures RootField(fragments, from, name)
  {
    assert Reaches(fragments, from, from, 0);
  }

  /** A root field stands in the selection set itself or inside one of its fragments. */
  lemma RootFieldCases(fragments: Fragments, from: seq<Selection>, name: string) returns (i: nat)
    requires RootField(fragments, from, name)
    ensures i < |from|
    ensures from[i].Field? ==> from[i].name == name
    ensures !from[i].Field? ==> Inside(fragments, from[i]).Some? && RootField(fragments, Inside(fragments, from[i]).value, name)
  {
    var to: seq<Selection>, n: nat :| Reaches(fragments, from, to, n) && HasField(to, name);
    assert Reaches(fragments, from, to, n);
    if n == 0 {
      i :| 0 <= i < |to| && to[i].Field? && to[i].name == name;
    } else {
      var k :| ReachesVia(fragments, from, to, n, k);
      i := k;
      assert Reaches(fragments, Inside(fragments, from[i]).value, to, n - 1);
    }
  }

  ghost predicate RootOfOne(fragments: Fragments, s: Selection, name: string) {
    if s.Field? then s.name == name
    else Inside(fragments, s).Some? && RootField(fragments, Inside(fragments, s).value, name)
  }

  lemma RootFieldOf(fragments: Fragments, from: seq<Selection>, i: nat, name: string)
    requires i < |from| && RootOfOne(fragments, from[i], name)
    ensures RootField(fragments, from, name)
  {
    if from[i].Field? {
      RootFieldHere(fragments, from, name);
    } else {
      RootFieldInside(fragments, from, i, name);
    }
  }

  /** The root fields of a selection set are those of its first selection and those of the others. */
  lemma RootFieldCons(fragments: Fragments, from: seq<Selection>, name: string)
    requires from != []
    ensures RootField(fragments, from, name)
            <==> RootOfOne(fragments, from[0], name) || RootField(fragments, from[1..], name)
  {
    if RootField(fragments, from, name) {
      var i := RootFieldCases(fragments, from, name);
      if i > 0 {
        assert from[1..][i - 1] == from[i];
        RootFieldOf(fragments, from[1..], i - 1, name);
      }
    }
    if RootOfOne(fragments, from[0], name) {
      RootFieldOf(fragments, from, 0, name);
    }
    if RootField(fragments, from[1..], name) {
      var i := RootFieldCases(fragments, from[1..], name);
      assert from[1..][i] == from[i + 1];
      RootFieldOf(fragments, from, i + 1, name);
    }
  }

  ghost predicate Exact(fragments: Fragments, selections: seq<Selection>, names: set<string>) {
    forall name :: name in names <==> RootField(fragments, selections, name)
  }

  ghost predicate ExactOne(fragments: Fragments, s: Selection, names: set<string>) {
    forall name :: name in names <==> RootOfOne(fragments, s, name)
  }

  lemma ExactCons(fragments: Fragments, selections: seq<Selection>, first: set<string>, rest: set<string>)
    requires selections != []
    requires ExactOne(fragments, selections[0], first) && Exact(fragments, selections[1..], rest)
    ensures Exact(fragments, selections, first + rest)
  {
    forall name: string ensures name in first + rest <==> RootField(fragments, selections, name) {
      RootFieldCons(fragments, selections, name);
    }
  }

  lemma NoRootFields(fragments: Fragments)
    ensures Exact(fragments, [], {})
  {
    forall name: string | RootField(fragments, [], name) ensures false {
      var i := RootFieldCases(fragments, [], name);
    }
  }

  /** A walk that succeeds collects exactly the root fields. */
  lemma {:induction false} WalkIsExact(fragments: Fragments, selections: seq<Selection>, visiting: set<string>, depth: nat)
    requires depth <= MAX_EXPANSION_DEPTH && WalkFrom(fragments, selections, visiting, depth).Fields?
    ensures Exact(fragments, selections, WalkFrom(fragments, selections, visiting, depth).names)
    decreases MAX_EXPANSION_DEPTH + 1 - depth, |selections|, 1
  {
    hide Exact;
    hide ExactOne;
    if selections == [] {
      NoRootFields(fragments);
    } else {
      var one := WalkOne(fragments, selections[0], visiting, depth);
      WalkOneIsExact(fragments, selections[0], visiting, depth);
      WalkIsExact(fragments, selections[1..], visiting, depth);
      ExactCons(fragments, selections, one.names, WalkFrom(fragments, selections[1..], visiting, depth).names);
    }
  }

  lemma {:induction false} WalkOneIsExact(fragments: Fragments, s: Selection, visiting: set<string>, depth: nat)
    requires depth <= MAX_EXPANSION_DEPTH && WalkOne(fragments, s, visiting, depth).Fields?
    ensures ExactOne(fragments, s, WalkOne(fragments, s, visiting, depth).names)
    decreases MAX_EXPANSION_DEPTH + 1 - depth, 0, 0
  {
    hide RootField;
    match s
    case Field(_, _, name) =>
    case Inline(_, selections) =>
      WalkIsExact(fragments, selections, visiting, depth + 1);
    case Spread(_, name) =>
      WalkIsExact(fragments, fragments[name], visiting + {name}, depth + 1);
  }

  // ---- when the walk succeeds ----

  /** How many fragments are entered one inside the other. */
  ghost function Height(fragments: Fragments, selections: seq<Selection>, n: nat): nat
    requires Expandable(fragments, selections, n)
    decreases n, |selections|, 1
  {
    if selections == [] then 0
    else
      var first := OneHeight(fragments, selections[0], n);
      assert forall i :: 0 <= i < |selections[1..]| ==> selections[1..][i] == selections[i + 1];
      var rest := Height(fragments, selections[1..], n);
      if first > rest then first else rest
  }

  ghost function OneHeight(fragments: Fragments, s: Selection, n: nat): nat
    requires OneExpandable(fragments, s, n)
    decreases n, 0, 0
  {
    if s.Field? then 0 else 1 + Height(fragments, Inside(fragments, s).value, n - 1)
  }

  /** The height does not depend on the bound it is measured under. */
  lemma {:induction false} HeightStable(fragments: Fragments, selections: seq<Selection>, n: nat, m: nat)
    requires Expandable(fragments, selections, n) && Expandable(fragments, selections, m)
    ensures Height(fragments, selections, n) == Height(fragments, selections, m)
    decreases n, |selections|, 1
  {
    if selections != [] {
      OneHeightStable(fragments, selections[0], n, m);
      HeightStable(fragments, selections[1..], n, m);
    }
  }

  lemma {:induction false} OneHeightStable(fragments: Fragments, s: Selection, n: nat, m: nat)
    requires OneExpandable(fragments, s, n) && OneExpandable(fragments, s, m)
    ensures OneHeight(fragments, s, n) == OneHeight(fragments, s, m)
    decreases n, 0, 0
  {
    if !s.Field? {
      HeightStable(fragments, Inside(fragments, s).value, n - 1, m - 1);
    }
  }

  lemma {:induction false} HeightAbove(fragments: Fragments, selections: seq<Selection>, n: nat, i: nat)
    requires Expandable(fragments, selections, n) && i < |selections|
    ensures OneHeight(fragments, selections[i], n) <= Height(fragments, selections, n)
    decreases |selections|
  {
    if i > 0 {
      assert selections[1..][i - 1] == selections[i];
      HeightAbove(fragments, selections[1..], n, i - 1);
    }
  }

  /** The fragments being entered are all higher than the selections at hand, measured under some bound. */
  ghost predicate Above(fragments: Fragments, visiting: set<string>, height: nat) {
    forall v :: v in visiting && v in fragments ==>
                  exists m :: Higher(fragments, fragments[v], m, height)
  }

  ghost predicate Higher(fragments: Fragments, selections: seq<Selection>, m: int, height: nat) {
    m >= 0 && Expandable(fragments, selections, m) && Height(fragments, selections, m) >= height
  }

  lemma AboveLower(fragments: Fragments, visiting: set<string>, height: nat, lower: nat)
    requires Above(fragments, visiting, height) && lower <= height
    ensures Above(fragments, visiting, lower)
  {
    forall v | v in visiting && v in fragments ensures exists m :: Higher(fragments, fragments[v], m, lower) {
      var m :| Higher(fragments, fragments[v], m, height);
      assert Higher(fragments, fragments[v], m, lower);
    }
  }

  lemma AboveAlso(fragments: Fragments, visiting: set<string>, name: string, n: nat)
    requires name in fragments && Expandable(fragments, fragments[name], n)
    requires Above(fragments, visiting, Height(fragments, fragments[name], n))
    ensures Above(fragments, visiting + {name}, Height(fragments, fragments[name], n))
  {
    assert Higher(fragments, fragments[name], n, Height(fragments, fragments[name], n));
  }

  /** Fragments that can be expanded within the bound are walked to the end: no one is met inside itself. */
  lemma {:induction false} ExpandableWalks(fragments: Fragments, selections: seq<Selection>, visiting: set<string>, depth: nat)
    requires depth <= MAX_EXPANSION_DEPTH && Expandable(fragments, selections, MAX_EXPANSION_DEPTH - depth)
    requires Above(fragments, visiting, Height(fragments, selections, MAX_EXPANSION_DEPTH - depth))
    ensures WalkFrom(fragments, selections, visiting, depth).Fields?
    decreases MAX_EXPANSION_DEPTH + 1 - depth, |selections|, 1
  {
    hide Above;
    if selections != [] {
      var n := MAX_EXPANSION_DEPTH - depth;
      var height := Height(fragments, selections, n);
      assert forall i :: 0 <= i < |selections[1..]| ==> selections[1..][i] == selections[i + 1];
      AboveLower(fragments, visiting, height, OneHeight(fragments, selections[0], n));
      AboveLower(fragments, visiting, height, Height(fragments, selections[1..], n));
      ExpandableWalksOne(fragments, selections[0], visiting, depth);
      ExpandableWalks(fragments, selections[1..], visiting, depth);
    }
  }

  lemma {:induction false} ExpandableWalksOne(fragments: Fragments, s: Selection, visiting: set<string>, depth: nat)
    requires depth <= MAX_EXPANSION_DEPTH && OneExpandable(fragments, s, MAX_EXPANSION_DEPTH - depth)
    requires Above(fragments, visiting, OneHeight(fragments, s, MAX_EXPANSION_DEPTH - depth))
    ensures WalkOne(fragments, s, visiting, depth).Fields?
    decreases MAX_EXPANSION_DEPTH + 1 - depth, 0, 0
  {
    hide Above;
    var n := MAX_EXPANSION_DEPTH - depth;
    match s
    case Field(_, _, name) =>
    case Inline(_, selections) =>
      AboveLower(fragments, visiting, OneHeight(fragments, s, n), Height(fragments, selections, n - 1));
      ExpandableWalks(fragments, selections, visiting, depth + 1);
    case Spread(_, name) =>
      NotEntered(fragments, visiting, name, n - 1);
      AboveLower(fragments, visiting, OneHeight(fragments, s, n), Height(fragments, fragments[name], n - 1));
      AboveAlso(fragments, visiting, name, n - 1);
      ExpandableWalks(fragments, fragments[name], visiting + {name}, depth + 1);
  }

  lemma NotEntered(fragments: Fragments, visiting: set<string>, name: string, n: nat)
    requires name in fragments && Expandable(fragments, fragments[name], n)
    requires Above(fragments, visiting, 1 + Height(fragments, fragments[name], n))
    ensures name !in visiting
  {
    if name in visiting {
      var m :| Higher(fragments, fragments[name], m, 1 + Height(fragments, fragments[name], n));
      HeightStable(fragments, fragments[name], n, m);
    }
  }

  lemma {:induction false} WalkedIsExpandable(fragments: Fragments, selections: seq<Selection>, visiting: set<string>, depth: nat)
    requires depth <= MAX_EXPANSION_DEPTH && WalkFrom(fragments, selections, visiting, depth).Fields?
    ensures Expandable(fragments, selections, MAX_EXPANSION_DEPTH - depth)
    decreases MAX_EXPANSION_DEPTH + 1 - depth, |selections|, 1
  {
    if selections != [] {
      WalkedOneIsExpandable(fragments, selections[0], visiting, depth);
      WalkedIsExpandable(fragments, selections[1..], visiting, depth);
      assert selections == [selections[0]] + selections[1..];
    }
  }

  lemma {:induction false} WalkedOneIsExpandable(fragments: Fragments, s: Selection, visiting: set<string>, depth: nat)
    requires depth <= MAX_EXPANSION_DEPTH && WalkOne(fragments, s, visiting, depth).Fields?
    ensures OneExpandable(fragments, s, MAX_EXPANSION_DEPTH - depth)
    decreases MAX_EXPANSION_DEPTH + 1 - depth, 0, 0
  {
    match s
    case Field(_, _, name) =>
    case Inline(_, selections) =>
      WalkedIsExpandable(fragments, selections, visiting, depth + 1);
    case Spread(_, name) =>
      WalkedIsExpandable(fragments, fragments[name], visiting + {name}, depth + 1);
  }

  /** The walk succeeds exactly when every fragment met is defined and at most 128 are nested. */
  lemma WalkSucceedsIff(fragments: Fragments, selections: seq<Selection>)
    ensures Walk(fragments, selections, {}, 0).Fields? <==> Expandable(fragments, selections, MAX_EXPANSION_DEPTH)
  {
    if Walk(fragments, selections, {}, 0).Fields? {
      WalkedIsExpandable(fragments, selections, {}, 0);
    }
    if Expandable(fragments, selections, MAX_EXPANSION_DEPTH) {
      ExpandableWalks(fragments, selections, {}, 0);
    }
  }

  /** Entering fragments goes strictly down. */
  lemma {:induction false} ReachedIsLower(fragments: Fragments, from: seq<Selection>, to: seq<Selection>, k: nat, n: nat)
    requires Expandable(fragments, from, n) && Reaches(fragments, from, to, k)
    ensures k <= n && Expandable(fragments, to, n - k)
    ensures Height(fragments, to, n - k) + k <= Height(fragments, from, n)
    decreases k
  {
    if k > 0 {
      var i :| ReachesVia(fragments, from, to, k, i);
      assert OneExpandable(fragments, from[i], n);
      HeightAbove(fragments, from, n, i);
      ReachedIsLower(fragments, Inside(fragments, from[i]).value, to, k - 1, n - 1);
    }
  }

  /** A document whose fragments lead back to themselves is always refused. */
  lemma CyclesFail(fragments: Fragments, selections: seq<Selection>, loop: seq<Selection>, before: nat, around: nat)
    requires Reaches(fragments, selections, loop, before) && Reaches(fragments, loop, loop, around) && around > 0
    ensures Walk(fragments, selections, {}, 0).Failed?
  {
    WalkSucceedsIff(fragments, selections);
    if Expandable(fragments, selections, MAX_EXPANSION_DEPTH) {
      ReachedIsLower(fragments, selections, loop, before, MAX_EXPANSION_DEPTH);
      var n := MAX_EXPANSION_DEPTH - before;
      ReachedIsLower(fragments, loop, loop, around, n);
      HeightStable(fragments, loop, n, n - around);
    }
  }

  /** So is one that comes to spread a fragment it does not define. */
  lemma UndefinedFails(fragments: Fragments, selections: seq<Selection>, to: seq<Selection>, n: nat, i: nat)
    requires Reaches(fragments, selections, to, n) && i < |to| && to[i].Spread? && to[i].name !in fragments
    ensures Walk(fragments, selections, {}, 0).Failed?
  {
    WalkSucceedsIff(fragments, selections);
    if Expandable(fragments, selections, MAX_EXPANSION_DEPTH) {
      ReachedIsLower(fragments, selections, to, n, MAX_EXPANSION_DEPTH);
    }
  }
}
