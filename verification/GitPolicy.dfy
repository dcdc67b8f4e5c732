/**
 The deny-wins Git policy over classified requests, and the weaker question that discovery
 asks before a request's refs are known.
 */
module GitPolicy {
  import opened Octets
  import opened Text
  import opened PktLine
  import opened ReceiveLines
  import opened ReceivePack

  datatype Service = UploadPackService | ReceivePackService

  datatype Operation = DiscoverOp | FetchOp | PushOp | ProbeOp | NoopOp

  datatype Effect = Allow | Deny

  /** Exactly one of the two is set; a prefix is compared byte for byte. */
  datatype StringMatcher = StringMatcher(exact: string, prefix: string)

  datatype Rule = Rule(
    id: string,
    effect: Effect,
    repositories: seq<StringMatcher>,
    services: seq<Service>,
    operations: seq<Operation>,
    protocolVersions: seq<int>,
    objectFormats: seq<ObjectFormat>,
    refs: seq<StringMatcher>,
    updateKinds: seq<UpdateKind>,
    signed: Option<bool>,
    atomic: Option<bool>,
    hasPushOptions: Option<bool>)

  datatype PolicyRequest = PolicyRequest(
    repository: string, service: Service, operation: Operation, protocolVersion: int,
    receivePack: Option<Request>)

  datatype AccessRequest = AccessRequest(
    repository: string, service: Service, operation: Operation, protocolVersion: int)

  datatype Reason = Allowed | ExplicitDeny | NoMatch | InvalidInput

  /** `matched` is the set of matching rules' ids; the program lists it sorted. */
  datatype Decision = Decision(allowed: bool, reason: Reason, matched: set<string>, deniedUpdate: int)

  // ----- matching -----

  predicate MatcherMatches(m: StringMatcher, value: string) {
    if m.exact != "" then value == m.exact else HasPrefix(value, m.prefix)
  }

  /** An empty selector matches everything. */
  predicate MatchStrings(matchers: seq<StringMatcher>, value: string) {
    matchers == [] || exists i :: 0 <= i < |matchers| && MatcherMatches(matchers[i], value)
  }

  predicate Selects<T(==)>(values: seq<T>, target: T) {
    values == [] || target in values
  }

  predicate FlagMatches(wanted: Option<bool>, actual: bool) {
    wanted.None? || wanted.value == actual
  }

  /** The part of a rule that a repository access question can decide. */
  predicate MatchesAccess(rule: Rule, req: AccessRequest) {
    && MatchStrings(rule.repositories, req.repository) && Selects(rule.services, req.service)
    && Selects(rule.operations, req.operation) && Selects(rule.protocolVersions, req.protocolVersion)
  }

  predicate RequestWide(rule: Rule) {
    && rule.refs == [] && rule.updateKinds == [] && rule.objectFormats == []
    && rule.signed.None? && rule.atomic.None? && rule.hasPushOptions.None?
  }

  function AccessOf(req: PolicyRequest): AccessRequest {
    AccessRequest(req.repository, req.service, req.operation, req.protocolVersion)
  }

  predicate Matches(rule: Rule, req: PolicyRequest, update: Option<Update>) {
    && MatchesAccess(rule, AccessOf(req))
    && (rule.refs != [] || rule.updateKinds != [] ==>
          update.Some? && MatchStrings(rule.refs, update.value.ref) && Selects(rule.updateKinds, update.value.kind))
    && (rule.objectFormats != [] || rule.signed.Some? || rule.atomic.Some? || rule.hasPushOptions.Some? ==>
          && req.receivePack.Some?
          && Selects(rule.objectFormats, req.receivePack.value.objectFormat)
          && FlagMatches(rule.signed, req.receivePack.value.signed)
          && FlagMatches(rule.atomic, req.receivePack.value.atomic)
          && FlagMatches(rule.hasPushOptions, req.receivePack.value.pushOptionsNegotiated))
  }

  // ----- which requests make sense -----

  predicate ReceiveOk(req: Request) {
    && req.pushOptionsNegotiated == HasCapability(req.capabilities, "push-options")
    && (req.pushOptions != [] ==> req.pushOptionsNegotiated)
    && (forall u :: u in req.updates ==> IsUpdate(u, req.objectFormat))
    && DistinctRefs(req.updates)
  }

  predicate RequestOk(req: PolicyRequest) {
    && req.repository != "" && 0 <= req.protocolVersion <= 2
    && match req.operation
       case DiscoverOp => req.receivePack.None?
       case FetchOp => req.service.UploadPackService? && req.receivePack.None?
       case PushOp =>
         && req.service.ReceivePackService? && req.receivePack.Some? && req.receivePack.value.kind == Push
         && req.receivePack.value.updates != [] && req.protocolVersion != 2 && ReceiveOk(req.receivePack.value)
       case ProbeOp => IsIdle(req, Probe)
       case NoopOp => IsIdle(req, Noop)
  }

  predicate IsIdle(req: PolicyRequest, kind: Kind) {
    && req.service.ReceivePackService? && req.receivePack.Some? && req.receivePack.value.updates == []
    && req.receivePack.value.kind == kind
  }

  predicate AccessOk(req: AccessRequest) {
    && req.repository != "" && 0 <= req.protocolVersion <= 2
    && match req.operation
       case FetchOp => req.service.UploadPackService?
       case PushOp => req.service.ReceivePackService? && req.protocolVersion != 2
       case _ => false
  }

  /** One update is canonical: parsing its ids again changes nothing, and its kind is the one they imply. */
  method CheckUpdate(u: Update, format: ObjectFormat) returns (ok: bool)
    ensures ok <==> IsUpdate(u, format)
  {
    hide IsRefName;
    var oldOid := ParseOidBytes(u.oldOid, format);
    var newOid := ParseOidBytes(u.newOid, format);
    return IsRefName(u.ref) && oldOid == Ok(u.oldOid) && newOid == Ok(u.newOid) && KindOf(u.oldOid, u.newOid) == Some(u.kind);
  }

  method ValidateReceiveForPolicy(req: Request) returns (ok: bool)
    ensures ok <==> ReceiveOk(req)
  {
    hide IsUpdate;
    hide HasCapability;
    if req.pushOptionsNegotiated != HasCapability(req.capabilities, "push-options")
       || (req.pushOptions != [] && !req.pushOptionsNegotiated) {
      return false;
    }
    var seen: set<string> := {};
    for i := 0 to |req.updates|
      invariant forall k :: 0 <= k < i ==> IsUpdate(req.updates[k], req.objectFormat)
      invariant forall k, l :: 0 <= k < l < i ==> req.updates[k].ref != req.updates[l].ref
      invariant seen == (set k | 0 <= k < i :: req.updates[k].ref)
    {
      var u := req.updates[i];
      var ok := CheckUpdate(u, req.objectFormat);
      if !ok {
        return false;
      }
      if u.ref in seen {
        var k :| 0 <= k < i && req.updates[k].ref == u.ref;
        return false;
      }
      seen := seen + {u.ref};
    }
    return true;
  }

  /** Every push the parser accepts is valid input to the policy under protocol versions 0 and 1. */
  lemma ParsedPushIsValidInput(b: Body, opts: Options, repository: string, version: int)
    requires Parse(b, opts).Ok? && Parse(b, opts).value.request.kind == Push
    requires repository != "" && 0 <= version <= 1
    ensures RequestOk(PolicyRequest(repository, ReceivePackService, PushOp, version, Some(Parse(b, opts).value.request)))
  {
    hide Parse;
    hide IsUpdate;
    hide DistinctRefs;
    hide HasCapability;
    AcceptedIsGood(b, opts);
  }

  // ----- deciding -----

  ghost predicate AnyMatch(rules: seq<Rule>, effect: Effect, req: PolicyRequest, update: Option<Update>) {
    exists r :: r in rules && r.effect == effect && Matches(r, req, update)
  }

  /** What the decision is about: each update of a push, or the request as a whole. */
  function Subjects(req: PolicyRequest): seq<Option<Update>> {
    if req.operation == PushOp && req.receivePack.Some? then
      seq(|req.receivePack.value.updates|, i requires 0 <= i < |req.receivePack.value.updates| => Some(req.receivePack.value.updates[i]))
    else [None]
  }

  ghost predicate DeniedAt(rules: seq<Rule>, req: PolicyRequest, i: int) {
    0 <= i < |Subjects(req)| && AnyMatch(rules, Deny, req, Subjects(req)[i])
  }

  ghost predicate UnmatchedAt(rules: seq<Rule>, req: PolicyRequest, i: int) {
    0 <= i < |Subjects(req)| && !AnyMatch(rules, Allow, req, Subjects(req)[i])
  }

  /** Every subject has a matching allow and none a matching deny. */
  ghost predicate Permitted(rules: seq<Rule>, req: PolicyRequest) {
    forall i :: 0 <= i < |Subjects(req)| ==>
      AnyMatch(rules, Allow, req, Subjects(req)[i]) && !AnyMatch(rules, Deny, req, Subjects(req)[i])
  }

  ghost predicate MatchedSomewhere(rules: seq<Rule>, req: PolicyRequest, id: string) {
    exists r, i :: r in rules && r.id == id && 0 <= i < |Subjects(req)| && Matches(r, req, Subjects(req)[i])
  }

  /** The whole decision, said without an order of rules. */
  ghost predicate Decides(d: Decision, rules: seq<Rule>, req: PolicyRequest) {
    if !RequestOk(req) then d == Decision(false, InvalidInput, {}, -1)
    else
      && (d.allowed <==> Permitted(rules, req))
      && (d.reason == Allowed <==> d.allowed)
      && (d.reason == ExplicitDeny <==> exists i :: DeniedAt(rules, req, i))
      && d.reason != InvalidInput
      && (forall id :: id in d.matched <==> MatchedSomewhere(rules, req, id))
      && (req.operation == PushOp && d.reason == ExplicitDeny ==>
            DeniedAt(rules, req, d.deniedUpdate) && forall k :: 0 <= k < d.deniedUpdate ==> !DeniedAt(rules, req, k))
      && (req.operation == PushOp && d.reason == NoMatch ==>
            UnmatchedAt(rules, req, d.deniedUpdate) && forall k :: 0 <= k < d.deniedUpdate ==> !UnmatchedAt(rules, req, k))
      && (req.operation != PushOp || d.allowed ==> d.deniedUpdate == -1)
  }

  /** Scans all rules for one subject. */
  method ScanRules(rules: seq<Rule>, req: PolicyRequest, update: Option<Update>)
    returns (allowed: bool, denied: bool, matched: set<string>)
    ensures allowed <==> AnyMatch(rules, Allow, req, update)
    ensures denied <==> AnyMatch(rules, Deny, req, update)
    ensures forall id :: id in matched <==> exists r :: r in rules && r.id == id && Matches(r, req, update)
  {
    hide Matches;
    allowed, denied, matched := false, false, {};
    for i := 0 to |rules|
      invariant allowed <==> AnyMatch(rules[..i], Allow, req, update)
      invariant denied <==> AnyMatch(rules[..i], Deny, req, update)
      invariant forall id :: id in matched <==> exists r :: r in rules[..i] && r.id == id && Matches(r, req, update)
    {
      var rule := rules[i];
      assert rules[..i + 1] == rules[..i] + [rule];
      assert forall r :: r in rules[..i + 1] <==> r in rules[..i] || r == rule;
      if Matches(rule, req, update) {
        matched := matched + {rule.id};
        if rule.effect == Deny {
          denied := true;
        } else {
          allowed := true;
        }
      }
    }
    assert rules[..|rules|] == rules;
  }

  method Evaluate(rules: seq<Rule>, req: PolicyRequest) returns (d: Decision)
    ensures Decides(d, rules, req)
  {
    hide Matches;
    hide RequestOk;
    hide AnyMatch;
    if !RequestOk(req) {
      return Decision(false, InvalidInput, {}, -1);
    }
    var subjects := Subjects(req);
    var deniedAt, unmatchedAt := -1, -1;
    var matched: set<string> := {};
    for i := 0 to |subjects|
      invariant deniedAt == -1 ==> forall k :: 0 <= k < i ==> !DeniedAt(rules, req, k)
      invariant deniedAt != -1 ==> DeniedAt(rules, req, deniedAt) && forall k :: 0 <= k < deniedAt ==> !DeniedAt(rules, req, k)
      invariant unmatchedAt == -1 ==> forall k :: 0 <= k < i ==> !UnmatchedAt(rules, req, k)
      invariant unmatchedAt != -1 ==> UnmatchedAt(rules, req, unmatchedAt) && forall k :: 0 <= k < unmatchedAt ==> !UnmatchedAt(rules, req, k)
      invariant forall id :: id in matched <==>
                  exists r, k :: r in rules && r.id == id && 0 <= k < i && Matches(r, req, subjects[k])
      invariant -1 <= deniedAt < i && -1 <= unmatchedAt < i
    {
      var allowed, denied, ids := ScanRules(rules, req, subjects[i]);
      matched := matched + ids;
      if denied && deniedAt < 0 {
        deniedAt := i;
      }
      if !allowed && unmatchedAt < 0 {
        unmatchedAt := i;
      }
    }
    PermittedByIndex(rules, req);
    var push := req.operation == PushOp;
    if deniedAt >= 0 {
      return Decision(false, ExplicitDeny, matched, if push then deniedAt else -1);
    }
    if unmatchedAt >= 0 {
      return Decision(false, NoMatch, matched, if push then unmatchedAt else -1);
    }
    return Decision(true, Allowed, matched, -1);
  }

  lemma PermittedByIndex(rules: seq<Rule>, req: PolicyRequest)
    ensures Permitted(rules, req) <==> forall i :: 0 <= i < |Subjects(req)| ==> !DeniedAt(rules, req, i) && !UnmatchedAt(rules, req, i)
  {
    hide AnyMatch;
    forall i | 0 <= i < |Subjects(req)|
      ensures AnyMatch(rules, Allow, req, Subjects(req)[i]) && !AnyMatch(rules, Deny, req, Subjects(req)[i])
          <==> !DeniedAt(rules, req, i) && !UnmatchedAt(rules, req, i)
    {
    }
  }

  /** The order of the rules, and how often one is repeated, decide nothing. */
  lemma OrderIndependent(rules: seq<Rule>, others: seq<Rule>, req: PolicyRequest, d: Decision)
    requires forall r :: r in rules <==> r in others
    requires Decides(d, rules, req)
    ensures Decides(d, others, req)
  {
    hide Matches;
    hide RequestOk;
    forall effect, update ensures AnyMatch(rules, effect, req, update) <==> AnyMatch(others, effect, req, update) {
    }
    assert forall i :: DeniedAt(rules, req, i) <==> DeniedAt(others, req, i);
    assert forall i :: UnmatchedAt(rules, req, i) <==> UnmatchedAt(others, req, i);
    assert forall id :: MatchedSomewhere(rules, req, id) <==> MatchedSomewhere(others, req, id);
  }

  /** Two decisions on the same question are the same decision. */
  lemma DecisionIsUnique(rules: seq<Rule>, req: PolicyRequest, d: Decision, e: Decision)
    requires Decides(d, rules, req) && Decides(e, rules, req)
    ensures d == e
  {
    hide Matches;
    hide RequestOk;
    hide AnyMatch;
    assert d.matched == e.matched;
  }

  // ----- discovery -----

  ghost predicate Accessible(rules: seq<Rule>, req: AccessRequest) {
    && (exists r :: r in rules && r.effect == Allow && MatchesAccess(r, req))
    && !exists r :: r in rules && Vetoes(r, req)
  }

  /** Only a request-wide deny can refuse before the refs are known. */
  predicate Vetoes(rule: Rule, req: AccessRequest) {
    rule.effect == Deny && RequestWide(rule) && MatchesAccess(rule, req)
  }

  /** A matching allow, or a matching deny that counts at this stage, has that id. */
  ghost predicate Listed(rules: seq<Rule>, req: AccessRequest, id: string) {
    exists r :: r in rules && r.id == id && MatchesAccess(r, req) && (r.effect == Allow || RequestWide(r))
  }

  lemma NoneListed(req: AccessRequest)
    ensures forall id :: !Listed([], req, id)
  {
  }

  lemma ListedSnoc(rules: seq<Rule>, rule: Rule, req: AccessRequest, id: string)
    ensures Listed(rules + [rule], req, id)
       <==> Listed(rules, req, id) || (rule.id == id && MatchesAccess(rule, req) && (rule.effect == Allow || RequestWide(rule)))
  {
    hide MatchesAccess;
    assert forall r :: r in rules + [rule] <==> r in rules || r == rule;
  }

  method CanAccessRepository(rules: seq<Rule>, req: AccessRequest) returns (d: Decision)
    ensures !AccessOk(req) ==> d == Decision(false, InvalidInput, {}, -1)
    ensures AccessOk(req) ==> (d.allowed <==> Accessible(rules, req)) && d.deniedUpdate == -1 && d.reason != InvalidInput
    ensures AccessOk(req) ==> (d.reason == ExplicitDeny <==> exists r :: r in rules && Vetoes(r, req))
    ensures AccessOk(req) ==> forall id :: id in d.matched <==> Listed(rules, req, id)
    ensures d.allowed <==> d.reason == Allowed
  {
    hide MatchesAccess;
    hide AccessOk;
    hide Listed;
    hide RequestWide;
    if !AccessOk(req) {
      return Decision(false, InvalidInput, {}, -1);
    }
    var allowed, denied := false, false;
    var matched: set<string> := {};
    NoneListed(req);
    for i := 0 to |rules|
      invariant allowed <==> exists r :: r in rules[..i] && r.effect == Allow && MatchesAccess(r, req)
      invariant denied <==> exists r :: r in rules[..i] && Vetoes(r, req)
      invariant forall id :: id in matched <==> Listed(rules[..i], req, id)
    {
      var rule := rules[i];
      assert rules[..i + 1] == rules[..i] + [rule];
      assert forall r :: r in rules[..i + 1] <==> r in rules[..i] || r == rule;
      forall id ensures Listed(rules[..i + 1], req, id)
           <==> Listed(rules[..i], req, id) || (rule.id == id && MatchesAccess(rule, req) && (rule.effect == Allow || RequestWide(rule))) {
        ListedSnoc(rules[..i], rule, req, id);
      }
      assert Vetoes(rule, req) ==> rule.effect == Deny && RequestWide(rule);
      if MatchesAccess(rule, req) {
        if rule.effect == Allow {
          allowed, matched := true, matched + {rule.id};
        } else if RequestWide(rule) {
          assert rule in rules[..i + 1] && Vetoes(rule, req);
          denied, matched := true, matched + {rule.id};
        }
      }
    }
    assert rules[..|rules|] == rules;
    if denied {
      return Decision(false, ExplicitDeny, matched, -1);
    }
    return if allowed then Decision(true, Allowed, matched, -1) else Decision(false, NoMatch, matched, -1);
  }

  /** A request-wide rule matches whatever the access question matches. */
  lemma RequestWideMatches(rule: Rule, req: PolicyRequest, update: Option<Update>)
    requires RequestWide(rule) && MatchesAccess(rule, AccessOf(req))
    ensures Matches(rule, req, update)
  {
  }

  /** Discovery never blocks what the policy would authorise. */
  lemma AuthorisedIsAccessible(rules: seq<Rule>, req: PolicyRequest)
    requires RequestOk(req) && req.operation in {FetchOp, PushOp} && Permitted(rules, req)
    ensures AccessOk(AccessOf(req)) && Accessible(rules, AccessOf(req))
  {
    hide MatchesAccess;
    var first := Subjects(req)[0];
    assert AnyMatch(rules, Allow, req, first) && !AnyMatch(rules, Deny, req, first);
    forall r | r in rules && RequestWide(r) && MatchesAccess(r, AccessOf(req)) ensures Matches(r, req, first) {
      RequestWideMatches(r, req, first);
    }
  }
}
