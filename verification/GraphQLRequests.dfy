/** From a document to the policy decision: operation selection, root fields, allowlists, and what execution collects. */
module GraphQLRequests {
  import opened Octets
  import opened GraphQL

  // ---- execution ----

  function Size(selections: seq<Selection>): nat {
    if selections == [] then 0 else SizeOne(selections[0]) + Size(selections[1..])
  }

  function SizeOne(s: Selection): (size: nat)
    ensures size > 0
  {
    if s.Inline? then 1 + Size(s.selections) else 1
  }

  /** What holds while a request executes: which directives let a selection through, which type conditions apply. */
  datatype Circumstances = Circumstances(taken: Selection -> bool, applies: Selection -> bool)

  datatype Collected = Collected(names: set<string>, visited: set<string>)

  /** How many fragments have not been visited. */
  ghost function Left(fragments: Fragments, visited: set<string>): nat {
    |fragments.Keys - visited|
  }

  lemma FewerLeft(fragments: Fragments, fewer: set<string>, more: set<string>)
    requires fewer <= more
    ensures Left(fragments, more) <= Left(fragments, fewer)
  {
    var a, b := fragments.Keys - more, fragments.Keys - fewer;
    assert b == a + (b - a);
    assert |b| == |a| + |b - a|;
  }

  lemma OneFewerLeft(fragments: Fragments, visited: set<string>, name: string)
    requires name in fragments && name !in visited
    ensures Left(fragments, visited + {name}) < Left(fragments, visited)
  {
    assert fragments.Keys - visited == fragments.Keys - (visited + {name}) + {name};
  }

  /** CollectFields, section 6.3.2 of the GraphQL Specification, October 2021, keeping the names of the fields. */
  ghost function Collect(fragments: Fragments, selections: seq<Selection>, visited: set<string>, now: Circumstances)
    : (c: Collected)
    ensures visited <= c.visited
    decreases Left(fragments, visited), Size(selections), 1
  {
    if selections == [] then Collected({}, visited)
    else
      var first := CollectOne(fragments, selections[0], visited, now);
      FewerLeft(fragments, visited, first.visited);
      var rest := Collect(fragments, selections[1..], first.visited, now);
      Collected(first.names + rest.names, rest.visited)
  }

  ghost function CollectOne(fragments: Fragments, s: Selection, visited: set<string>, now: Circumstances)
    : (c: Collected)
    ensures visited <= c.visited
    decreases Left(fragments, visited), SizeOne(s), 0
  {
    if !now.taken(s) then Collected({}, visited)
    else
      match s
      case Field(_, _, name) => Collected({name}, visited)
      case Inline(_, selections) =>
        if now.applies(s) then Collect(fragments, selections, visited, now) else Collected({}, visited)
      case Spread(_, name) =>
        if name in visited then Collected({}, visited)
        else if name !in fragments || !now.applies(s) then Collected({}, visited + {name})
        else
          OneFewerLeft(fragments, visited, name);
          Collect(fragments, fragments[name], visited + {name}, now)
  }

  /** Whatever the circumstances, only root fields are collected. */
  lemma {:induction false} CollectedAreRoots(
    fragments: Fragments, selections: seq<Selection>, visited: set<string>, now: Circumstances, name: string)
    requires name in Collect(fragments, selections, visited, now).names
    ensures RootField(fragments, selections, name)
    decreases Left(fragments, visited), Size(selections), 1
  {
    hide RootField;
    hide RootOfOne;
    hide CollectOne;
    hide Left;
    var first := CollectOne(fragments, selections[0], visited, now);
    FewerLeft(fragments, visited, first.visited);
    RootFieldCons(fragments, selections, name);
    if name in first.names {
      CollectedOneIsRoot(fragments, selections[0], visited, now, name);
    } else {
      CollectedAreRoots(fragments, selections[1..], first.visited, now, name);
    }
  }

  lemma {:induction false} CollectedOneIsRoot(
    fragments: Fragments, s: Selection, visited: set<string>, now: Circumstances, name: string)
    requires name in CollectOne(fragments, s, visited, now).names
    ensures RootOfOne(fragments, s, name)
    decreases Left(fragments, visited), SizeOne(s), 0
  {
    hide RootField;
    hide Size;
    hide Left;
    match s
    case Field(_, _, _) =>
    case Inline(_, selections) =>
      CollectedAreRoots(fragments, selections, visited, now, name);
    case Spread(_, fragment) =>
      OneFewerLeft(fragments, visited, fragment);
      CollectedAreRoots(fragments, fragments[fragment], visited + {fragment}, now, name);
  }

  // ---- the request seen by policy ----

  ghost predicate DistinctFragments(fragments: seq<Fragment>) {
    forall i, j :: 0 <= i < j < |fragments| ==> fragments[i].name != fragments[j].name
  }

  /** The fragments by name. */
  function ByName(fragments: seq<Fragment>): (named: Fragments)
    ensures forall name :: name in named <==> exists i :: 0 <= i < |fragments| && fragments[i].name == name
  {
    if fragments == [] then map[]
    else
      var last := |fragments| - 1;
      assert forall i :: 0 <= i < last ==> fragments[..last][i] == fragments[i];
      ByName(fragments[..last])[fragments[last].name := fragments[last].selections]
  }

  /** The root fields of a selection set, or a refusal. */
  method GraphqlRootFields(document: Document, selections: seq<Selection>) returns (fields: Option<set<string>>)
    ensures fields.Some? <==>
            && DistinctFragments(document.fragments)
            && Expandable(ByName(document.fragments), selections, MAX_EXPANSION_DEPTH)
    ensures fields.Some? ==> Exact(ByName(document.fragments), selections, fields.value)
  {
    hide Expandable;
    hide Exact;
    var named: Fragments := map[];
    var i := 0;
    while i < |document.fragments|
      invariant 0 <= i <= |document.fragments|
      invariant DistinctFragments(document.fragments[..i])
      invariant named == ByName(document.fragments[..i])
    {
      var fragment := document.fragments[i];
      if fragment.name in named {
        return None;
      }
      assert document.fragments[..i + 1][..i] == document.fragments[..i];
      named := named[fragment.name := fragment.selections];
      i := i + 1;
    }
    assert document.fragments[..i] == document.fragments;
    var expansion := new Expansion(named);
    var error := expansion.Visit(selections, 0);
    WalkSucceedsIff(named, selections);
    if error.Some? {
      return None;
    }
    WalkIsExact(named, selections, {}, 0);
    assert expansion.fields == Walk(named, selections, {}, 0).names;
    return Some(expansion.fields);
  }

  ghost predicate DistinctOperations(operations: seq<Operation>) {
    forall i, j :: 0 <= i < j < |operations| && operations[i].name != "" ==> operations[i].name != operations[j].name
  }

  /** The operation to execute: the one asked for by name, or the only one (section 6.1 of the GraphQL Specification, October 2021). */
  ghost predicate Selects(document: Document, name: string, operation: Operation) {
    && DistinctOperations(document.operations)
    && operation in document.operations
    && (if name == "" then |document.operations| == 1 else operation.name == name)
  }

  lemma SelectionIsUnique(document: Document, name: string, a: Operation, b: Operation)
    requires Selects(document, name, a) && Selects(document, name, b)
    ensures a == b
  {
    var i :| 0 <= i < |document.operations| && document.operations[i] == a;
    var j :| 0 <= j < |document.operations| && document.operations[j] == b;
    assert i == j;
  }

  method SelectGraphQLOperation(document: Document, name: string) returns (operation: Option<Operation>)
    ensures operation.Some? ==> Selects(document, name, operation.value)
    ensures operation.None? ==> forall other :: !Selects(document, name, other)
  {
    var operations := document.operations;
    var seen: set<string> := {};
    var i := 0;
    while i < |operations|
      invariant 0 <= i <= |operations|
      invariant seen == set k | 0 <= k < i && operations[k].name != "" :: operations[k].name
      invariant DistinctOperations(operations[..i])
    {
      var current := operations[i].name;
      if current != "" {
        if current in seen {
          return None;
        }
        seen := seen + {current};
      }
      i := i + 1;
    }
    assert operations[..i] == operations;
    if name != "" {
      for k := 0 to |operations|
        invariant forall j :: 0 <= j < k ==> operations[j].name != name
      {
        if operations[k].name == name {
          return Some(operations[k]);
        }
      }
      return None;
    }
    if |operations| != 1 {
      return None;
    }
    return Some(operations[0]);
  }

  datatype Request = Request(operationType: string, operationName: string, rootFields: set<string>)

  /** A rule's constraints; an empty text or a missing list constrains nothing. */
  datatype Matcher = Matcher(operationType: string, operationName: string, rootFields: Option<set<string>>)

  predicate Accepts(matcher: Matcher, request: Request) {
    && matcher.operationType in ["", request.operationType]
    && matcher.operationName in ["", request.operationName]
    && (matcher.rootFields.Some? ==> request.rootFields != {} && request.rootFields <= matcher.rootFields.value)
  }

  method MatchesRequest(matcher: Matcher, request: Request) returns (matched: bool)
    ensures matched <==> Accepts(matcher, request)
  {
    if matcher.operationType != "" && request.operationType != matcher.operationType {
      return false;
    }
    if matcher.operationName != "" && request.operationName != matcher.operationName {
      return false;
    }
    if matcher.rootFields.Some? {
      if request.rootFields == {} {
        return false;
      }
      var left := request.rootFields;
      while left != {}
        invariant left <= request.rootFields
        invariant request.rootFields - left <= matcher.rootFields.value
      {
        var field :| field in left;
        if field !in matcher.rootFields.value {
          return false;
        }
        left := left - {field};
      }
    }
    return true;
  }

  ghost predicate Expands(document: Document, operation: Operation) {
    && DistinctFragments(document.fragments)
    && Expandable(ByName(document.fragments), operation.selections, MAX_EXPANSION_DEPTH)
  }

  /** Selection and expansion together: the request that rules see, or a refusal. */
  method ParseGraphQL(document: Document, name: string) returns (request: Option<Request>)
    ensures request.Some? <==> exists operation :: Selects(document, name, operation) && Expands(document, operation)
    ensures request.Some? ==>
              exists operation :: Selects(document, name, operation) && Describes(request.value, document, operation)
  {
    hide Selects;
    hide Expandable;
    hide Exact;
    hide ByName;
    var selected := SelectGraphQLOperation(document, name);
    if selected.None? {
      return None;
    }
    forall other | Selects(document, name, other) ensures other == selected.value {
      SelectionIsUnique(document, name, other, selected.value);
    }
    var fields := GraphqlRootFields(document, selected.value.selections);
    if fields.None? {
      return None;
    }
    request := Some(Request(selected.value.kind, selected.value.name, fields.value));
    assert Describes(request.value, document, selected.value);
  }

  /** The request names the operation's type and name and exactly its root fields. */
  ghost predicate Describes(request: Request, document: Document, operation: Operation) {
    && request.operationType == operation.kind && request.operationName == operation.name
    && Exact(ByName(document.fragments), operation.selections, request.rootFields)
  }

  /** An accepted request executes only allowed root fields, whatever its variables and the types of its objects. */
  lemma AllowlistHolds(
    document: Document, operation: Operation, request: Request, matcher: Matcher, now: Circumstances)
    requires Describes(request, document, operation) && Accepts(matcher, request)
    ensures matcher.operationType in ["", operation.kind] && matcher.operationName in ["", operation.name]
    ensures matcher.rootFields.Some? ==>
              Collect(ByName(document.fragments), operation.selections, {}, now).names <= matcher.rootFields.value
  {
    hide RootField;
    hide ByName;
    hide Collect;
    var named := ByName(document.fragments);
    forall name | name in Collect(named, operation.selections, {}, now).names ensures name in request.rootFields {
      CollectedAreRoots(named, operation.selections, {}, now, name);
    }
  }
}
