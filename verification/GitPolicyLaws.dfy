/** What each selector of a rule means for a decision, and what a decision on a push means for its updates. */
module GitPolicyLaws {
  import opened Octets
  import opened Text
  import opened ReceiveLines
  import opened ReceivePack
  import opened GitPolicy

  /** The value is the exact one, or continues the prefix. */
  ghost predicate Fits(m: StringMatcher, value: string) {
    if m.exact != "" then value == m.exact else exists rest :: value == m.prefix + rest
  }

  ghost predicate Named(matchers: seq<StringMatcher>, value: string) {
    exists m :: m in matchers && Fits(m, value)
  }

  ghost predicate RulesOutAccess(r: Rule, req: AccessRequest) {
    || (r.repositories != [] && !Named(r.repositories, req.repository))
    || (r.services != [] && req.service !in r.services)
    || (r.operations != [] && req.operation !in r.operations)
    || (r.protocolVersions != [] && req.protocolVersion !in r.protocolVersions)
  }

  ghost predicate CoversAccess(r: Rule, req: AccessRequest) {
    && (r.repositories == [] || Named(r.repositories, req.repository))
    && (r.services == [] || req.service in r.services)
    && (r.operations == [] || req.operation in r.operations)
    && (r.protocolVersions == [] || req.protocolVersion in r.protocolVersions)
  }

  /** Some selector of the rule names values, none of them the subject's; a fetch has no update and no push. */
  ghost predicate RulesOut(r: Rule, req: PolicyRequest, update: Option<Update>) {
    var push := req.receivePack;
    || RulesOutAccess(r, AccessOf(req))
    || (r.refs != [] && (update.None? || !Named(r.refs, update.value.ref)))
    || (r.updateKinds != [] && (update.None? || update.value.kind !in r.updateKinds))
    || (r.objectFormats != [] && (push.None? || push.value.objectFormat !in r.objectFormats))
    || (r.signed.Some? && (push.None? || push.value.signed != r.signed.value))
    || (r.atomic.Some? && (push.None? || push.value.atomic != r.atomic.value))
    || (r.hasPushOptions.Some? && (push.None? || push.value.pushOptionsNegotiated != r.hasPushOptions.value))
  }

  /** Every selector of the rule is empty or holds the subject's value. */
  ghost predicate Covers(r: Rule, req: PolicyRequest, update: Option<Update>) {
    var push := req.receivePack;
    && CoversAccess(r, AccessOf(req))
    && (r.refs == [] || (update.Some? && Named(r.refs, update.value.ref)))
    && (r.updateKinds == [] || (update.Some? && update.value.kind in r.updateKinds))
    && (r.objectFormats == [] || (push.Some? && push.value.objectFormat in r.objectFormats))
    && (r.signed.None? || (push.Some? && push.value.signed == r.signed.value))
    && (r.atomic.None? || (push.Some? && push.value.atomic == r.atomic.value))
    && (r.hasPushOptions.None? || (push.Some? && push.value.pushOptionsNegotiated == r.hasPushOptions.value))
  }

  function Bare(id: string, effect: Effect): Rule {
    Rule(id, effect, [], [], [], [], [], [], [], None, None, None)
  }

  lemma FitsIsPrefix(m: StringMatcher, value: string)
    ensures Fits(m, value) <==> MatcherMatches(m, value)
  {
    if HasPrefix(value, m.prefix) {
      assert value == m.prefix + value[|m.prefix|..];
    }
  }

  lemma NamedIsMatched(matchers: seq<StringMatcher>, value: string)
    ensures matchers == [] || Named(matchers, value) <==> MatchStrings(matchers, value)
  {
    hide Fits;
    hide MatcherMatches;
    forall i | 0 <= i < |matchers| ensures Fits(matchers[i], value) <==> MatcherMatches(matchers[i], value) {
      FitsIsPrefix(matchers[i], value);
    }
  }

  lemma AccessSelectors(r: Rule, req: AccessRequest)
    ensures RulesOutAccess(r, req) ==> !MatchesAccess(r, req)
    ensures CoversAccess(r, req) ==> MatchesAccess(r, req)
    ensures RulesOutAccess(r, req) || CoversAccess(r, req)
  {
    hide Named;
    hide MatchStrings;
    NamedIsMatched(r.repositories, req.repository);
  }

  /** A rule is ruled out for a subject or covers it, and matches accordingly. */
  lemma Selectors(r: Rule, req: PolicyRequest, update: Option<Update>)
    ensures RulesOut(r, req, update) ==> !Matches(r, req, update)
    ensures Covers(r, req, update) ==> Matches(r, req, update)
    ensures RulesOut(r, req, update) || Covers(r, req, update)
  {
    hide Named;
    hide MatchStrings;
    hide MatchesAccess;
    hide RulesOutAccess;
    hide CoversAccess;
    AccessSelectors(r, AccessOf(req));
    NamedIsMatched(r.refs, if update.Some? then update.value.ref else "");
  }

  // ----- decisions -----

  /** The two lists have the same matching rules, by effect and by id. */
  ghost predicate MatchAlike(rules: seq<Rule>, others: seq<Rule>, req: PolicyRequest) {
    && (forall effect, i :: 0 <= i < |Subjects(req)| ==>
          (AnyMatch(rules, effect, req, Subjects(req)[i]) <==> AnyMatch(others, effect, req, Subjects(req)[i])))
    && forall id :: MatchedSomewhere(rules, req, id) <==> MatchedSomewhere(others, req, id)
  }

  lemma AlikeDecideAlike(rules: seq<Rule>, others: seq<Rule>, req: PolicyRequest, d: Decision)
    requires MatchAlike(rules, others, req)
    ensures Decides(d, rules, req) <==> Decides(d, others, req)
  {
    hide AnyMatch;
    hide MatchedSomewhere;
    hide RequestOk;
    forall i ensures DeniedAt(rules, req, i) <==> DeniedAt(others, req, i) {
    }
    forall i ensures UnmatchedAt(rules, req, i) <==> UnmatchedAt(others, req, i) {
    }
    assert Permitted(rules, req) <==> Permitted(others, req);
  }

  lemma OneMoreMatch(rules: seq<Rule>, r: Rule, effect: Effect, req: PolicyRequest, update: Option<Update>)
    ensures AnyMatch(rules + [r], effect, req, update)
       <==> AnyMatch(rules, effect, req, update) || (r.effect == effect && Matches(r, req, update))
  {
    hide Matches;
    assert r in rules + [r];
    if x :| x in rules && x.effect == effect && Matches(x, req, update) {
      assert x in rules + [r];
    }
  }

  ghost predicate MatchesSome(r: Rule, req: PolicyRequest) {
    exists i :: 0 <= i < |Subjects(req)| && Matches(r, req, Subjects(req)[i])
  }

  lemma OneMoreMatched(rules: seq<Rule>, r: Rule, req: PolicyRequest, id: string)
    ensures MatchedSomewhere(rules + [r], req, id)
       <==> MatchedSomewhere(rules, req, id) || (r.id == id && MatchesSome(r, req))
  {
    hide Matches;
    assert r in rules + [r];
    if x, i :| x in rules && x.id == id && 0 <= i < |Subjects(req)| && Matches(x, req, Subjects(req)[i]) {
      assert x in rules + [r];
    }
  }

  /** A rule that some selector rules out for every subject is as if absent. */
  lemma RuledOutIsAbsent(rules: seq<Rule>, r: Rule, req: PolicyRequest, d: Decision)
    requires forall i :: 0 <= i < |Subjects(req)| ==> RulesOut(r, req, Subjects(req)[i])
    ensures Decides(d, rules + [r], req) <==> Decides(d, rules, req)
  {
    hide Matches;
    hide RulesOut;
    hide Covers;
    hide AnyMatch;
    hide MatchedSomewhere;
    hide Decides;
    forall i | 0 <= i < |Subjects(req)| ensures !Matches(r, req, Subjects(req)[i]) {
      Selectors(r, req, Subjects(req)[i]);
    }
    forall effect, i | 0 <= i < |Subjects(req)|
      ensures AnyMatch(rules + [r], effect, req, Subjects(req)[i]) <==> AnyMatch(rules, effect, req, Subjects(req)[i])
    {
      OneMoreMatch(rules, r, effect, req, Subjects(req)[i]);
    }
    forall id ensures MatchedSomewhere(rules + [r], req, id) <==> MatchedSomewhere(rules, req, id) {
      OneMoreMatched(rules, r, req, id);
    }
    AlikeDecideAlike(rules + [r], rules, req, d);
  }

  /** A rule whose every selector holds every subject's value decides like the rule without selectors. */
  lemma CoveringIsBare(rules: seq<Rule>, r: Rule, req: PolicyRequest, d: Decision)
    requires forall i :: 0 <= i < |Subjects(req)| ==> Covers(r, req, Subjects(req)[i])
    ensures Decides(d, rules + [r], req) <==> Decides(d, rules + [Bare(r.id, r.effect)], req)
  {
    hide Matches;
    hide RulesOut;
    hide AnyMatch;
    hide MatchedSomewhere;
    hide Decides;
    var bare := Bare(r.id, r.effect);
    forall i | 0 <= i < |Subjects(req)|
      ensures Matches(r, req, Subjects(req)[i]) && Matches(bare, req, Subjects(req)[i])
    {
      Selectors(r, req, Subjects(req)[i]);
      Selectors(bare, req, Subjects(req)[i]);
    }
    forall effect, i | 0 <= i < |Subjects(req)|
      ensures AnyMatch(rules + [r], effect, req, Subjects(req)[i])
         <==> AnyMatch(rules + [bare], effect, req, Subjects(req)[i])
    {
      OneMoreMatch(rules, r, effect, req, Subjects(req)[i]);
      OneMoreMatch(rules, bare, effect, req, Subjects(req)[i]);
    }
    forall id ensures MatchedSomewhere(rules + [r], req, id) <==> MatchedSomewhere(rules + [bare], req, id) {
      OneMoreMatched(rules, r, req, id);
      OneMoreMatched(rules, bare, req, id);
    }
    AlikeDecideAlike(rules + [r], rules + [bare], req, d);
  }

  lemma SubjectsExist(req: PolicyRequest)
    requires RequestOk(req)
    ensures |Subjects(req)| > 0
  {
  }

  /** Without rules nothing is allowed; a bare deny beats all other rules; a bare allow alone allows. */
  lemma BareRulesDecide(rules: seq<Rule>, id: string, req: PolicyRequest, d: Decision)
    requires RequestOk(req)
    ensures Decides(d, [], req) ==> d.reason == NoMatch
    ensures Decides(d, rules + [Bare(id, Deny)], req) ==> d.reason == ExplicitDeny && id in d.matched
    ensures Decides(d, [Bare(id, Allow)], req) ==> d.reason == Allowed && d.matched == {id}
  {
    hide RequestOk;
    hide Matches;
    hide Covers;
    hide RulesOut;
    SubjectsExist(req);
    var deny, allow := Bare(id, Deny), Bare(id, Allow);
    forall i | 0 <= i < |Subjects(req)|
      ensures Matches(deny, req, Subjects(req)[i]) && Matches(allow, req, Subjects(req)[i])
    {
      BareMatches(id, Deny, req, Subjects(req)[i]);
      BareMatches(id, Allow, req, Subjects(req)[i]);
    }
    assert deny in rules + [deny];
    assert DeniedAt(rules + [deny], req, 0);
    assert MatchedSomewhere(rules + [deny], req, id);
    assert UnmatchedAt([], req, 0);
    OnlyAllow(allow, req);
  }

  lemma BareMatches(id: string, effect: Effect, req: PolicyRequest, update: Option<Update>)
    ensures Matches(Bare(id, effect), req, update)
  {
    Selectors(Bare(id, effect), req, update);
  }

  lemma OnlyAllow(allow: Rule, req: PolicyRequest)
    requires allow.effect == Allow && |Subjects(req)| > 0
    requires forall i :: 0 <= i < |Subjects(req)| ==> Matches(allow, req, Subjects(req)[i])
    ensures Permitted([allow], req)
    ensures forall id :: MatchedSomewhere([allow], req, id) <==> id == allow.id
  {
    hide Matches;
    assert allow in [allow];
    assert Matches(allow, req, Subjects(req)[0]);
  }

  // ----- pushes -----

  /** The push of one of the updates alone. */
  function Single(req: PolicyRequest, u: Update): PolicyRequest
    requires req.receivePack.Some?
  {
    req.(receivePack := Some(req.receivePack.value.(updates := [u])))
  }

  /** A push is allowed exactly when the push of each of its updates alone is. */
  lemma PushIsItsUpdates(rules: seq<Rule>, req: PolicyRequest, d: Decision, each: seq<Decision>)
    requires RequestOk(req) && req.operation == PushOp && Decides(d, rules, req)
    requires |each| == |req.receivePack.value.updates|
    requires forall i :: 0 <= i < |each| ==> Decides(each[i], rules, Single(req, req.receivePack.value.updates[i]))
    ensures d.allowed <==> forall i :: 0 <= i < |each| ==> each[i].allowed
  {
    hide Matches;
    var updates := req.receivePack.value.updates;
    forall i | 0 <= i < |each|
      ensures each[i].allowed <==>
              AnyMatch(rules, Allow, req, Some(updates[i])) && !AnyMatch(rules, Deny, req, Some(updates[i]))
    {
      SingleDecides(rules, req, updates[i], each[i]);
    }
    assert forall i :: 0 <= i < |each| ==> Subjects(req)[i] == Some(updates[i]);
  }

  lemma SingleDecides(rules: seq<Rule>, req: PolicyRequest, u: Update, d: Decision)
    requires RequestOk(req) && req.operation == PushOp && req.receivePack.Some? && u in req.receivePack.value.updates
    requires Decides(d, rules, Single(req, u))
    ensures d.allowed <==> AnyMatch(rules, Allow, req, Some(u)) && !AnyMatch(rules, Deny, req, Some(u))
  {
    hide RequestOk;
    hide AnyMatch;
    hide MatchedSomewhere;
    var alone := Single(req, u);
    SingleOk(req, u);
    SingleMatches(rules, Allow, req, u);
    SingleMatches(rules, Deny, req, u);
    assert Subjects(alone)[0] == Some(u);
  }

  lemma SingleOk(req: PolicyRequest, u: Update)
    requires RequestOk(req) && req.operation == PushOp && u in req.receivePack.value.updates
    ensures RequestOk(Single(req, u)) && Subjects(Single(req, u)) == [Some(u)]
  {
    hide IsUpdate;
    hide HasCapability;
  }

  lemma SingleMatches(rules: seq<Rule>, effect: Effect, req: PolicyRequest, u: Update)
    requires req.receivePack.Some?
    ensures AnyMatch(rules, effect, Single(req, u), Some(u)) <==> AnyMatch(rules, effect, req, Some(u))
  {
    forall r: Rule ensures Matches(r, Single(req, u), Some(u)) <==> Matches(r, req, Some(u)) {
    }
  }

  // ----- access -----

  /** For the access question, a rule that names another repository, service, operation or version is as if
      absent, and so is a deny that is scoped to some pushes. */
  lemma ScopedDenyIsAbsent(rules: seq<Rule>, r: Rule, req: AccessRequest)
    requires || RulesOutAccess(r, req)
             || (r.effect == Deny
                 && (r.refs != [] || r.updateKinds != [] || r.objectFormats != []
                     || r.signed.Some? || r.atomic.Some? || r.hasPushOptions.Some?))
    ensures Accessible(rules + [r], req) <==> Accessible(rules, req)
  {
    hide MatchesAccess;
    AccessSelectors(r, req);
    ExtendAccess(rules, r, req);
  }

  /** A covering allow counts like a bare one, whatever else it names, and so does a covering deny that names no more. */
  lemma CoveringAccessIsBare(rules: seq<Rule>, r: Rule, req: AccessRequest)
    requires CoversAccess(r, req)
    requires r.effect == Allow || (r.refs == [] && r.updateKinds == [] && r.objectFormats == []
                                   && r.signed.None? && r.atomic.None? && r.hasPushOptions.None?)
    ensures Accessible(rules + [r], req) <==> Accessible(rules + [Bare(r.id, r.effect)], req)
  {
    hide MatchesAccess;
    AccessSelectors(r, req);
    AccessSelectors(Bare(r.id, r.effect), req);
    ExtendAccess(rules, r, req);
    ExtendAccess(rules, Bare(r.id, r.effect), req);
  }

  ghost predicate Opens(rules: seq<Rule>, req: AccessRequest) {
    exists r :: r in rules && r.effect == Allow && MatchesAccess(r, req)
  }

  ghost predicate Closes(rules: seq<Rule>, req: AccessRequest) {
    exists r :: r in rules && Vetoes(r, req)
  }

  lemma ExtendAccess(rules: seq<Rule>, r: Rule, req: AccessRequest)
    ensures Accessible(rules + [r], req)
       <==> && (Opens(rules, req) || (r.effect == Allow && MatchesAccess(r, req)))
            && !(Closes(rules, req) || Vetoes(r, req))
    ensures Accessible(rules, req) <==> Opens(rules, req) && !Closes(rules, req)
  {
    hide MatchesAccess;
    hide Vetoes;
    assert r in rules + [r];
    if x :| x in rules && x.effect == Allow && MatchesAccess(x, req) {
      assert x in rules + [r];
    }
    if x :| x in rules && Vetoes(x, req) {
      assert x in rules + [r];
    }
  }
}
