/** The limiter refuses nothing it need not: whether a call is admitted, read off the log of admitted calls alone. */
module LimiterExact {
  import opened Octets
  import opened Tokens
  import opened Limiter
  import opened LimiterRuns

  /** A chain that may be charged at all: not empty, its keys distinct and named, nothing of it expired. */
  predicate Usable(scopes: seq<Scope>, now: Instant) {
    && scopes != []
    && (forall i :: 0 <= i < |scopes| ==> scopes[i].key != "" && scopes[i].expiresAt != 0.0 && now < scopes[i].expiresAt)
    && (forall i, j :: 0 <= i < j < |scopes| ==> scopes[i].key != scopes[j].key)
  }

  /** One more request in some window that ends now would be more than burst and rate allow. */
  ghost predicate RateSpent(limits: Limits, log: seq<Charge>, k: string, now: Instant) {
    exists from :: from <= now && Overdrawn(limits, log, k, from, now)
  }

  ghost predicate Overdrawn(limits: Limits, log: seq<Charge>, k: string, from: Instant, now: Instant) {
    Since(log, k, from) as real + 1.0 > Burst(limits) + Accrued(limits, from, now)
  }

  /** The key has no request left: its counter is full, its budget is used up, or its rate is. */
  ghost predicate RequestsSpent(limits: Limits, log: seq<Charge>, k: string, now: Instant) {
    || Requests(log, k) == MAX_UINT64
    || (limits.requestBudget != 0 && Requests(log, k) >= limits.requestBudget)
    || (limits.requestsPerSecond != 0 && RateSpent(limits, log, k, now))
  }

  /** The key has not that many bytes left. */
  predicate BytesSpent(limits: Limits, log: seq<Charge>, k: string, count: nat) {
    || Bytes(log, k) + count > MAX_UINT64
    || (limits.byteBudget != 0 && Bytes(log, k) + count > limits.byteBudget)
  }

  // ----- which chains are prepared -----

  lemma {:induction false} PreparedIff(states: States, scopes: seq<Scope>, now: Instant)
    requires forall i :: 0 <= i < |scopes| ==> Agrees(states, scopes[i])
    ensures Prepare(states, scopes, now).1 <==> scopes == [] || Usable(scopes, now)
    ensures Prepare(states, scopes, now).1 ==> Preserved(states, Prepare(states, scopes, now).0, scopes)
    decreases |scopes|
  {
    if scopes != [] {
      var front, last := scopes[..|scopes| - 1], scopes[|scopes| - 1];
      PreparedIff(states, front, now);
      UsableSnoc(scopes, now);
      var (before, ok) := Prepare(states, front, now);
      if ok {
        assert last.key in before && last.key !in Keys(front) ==> last.key in states;
      }
    }
  }

  /** A state that is there has the limits and expiry of the scope. */
  predicate Agrees(states: States, scope: Scope) {
    scope.key in states ==> states[scope.key].limits == scope.limits && states[scope.key].expiresAt == scope.expiresAt
  }

  /** Preparing only adds states, and only for keys of the chain. */
  ghost predicate Preserved(states: States, next: States, scopes: seq<Scope>) {
    && (forall k :: k in states ==> k in next && next[k] == states[k])
    && (forall k :: k in next && k !in states ==> k in Keys(scopes))
  }

  lemma UsableSnoc(scopes: seq<Scope>, now: Instant)
    requires scopes != []
    ensures var front, last := scopes[..|scopes| - 1], scopes[|scopes| - 1];
            Usable(scopes, now) <==>
            && (front == [] || Usable(front, now)) && last.key != "" && last.expiresAt != 0.0
            && now < last.expiresAt && last.key !in Keys(front)
  {
    var n := |scopes| - 1;
    var front := scopes[..n];
    assert forall i :: 0 <= i < n ==> front[i] == scopes[i];
    if scopes[n].key !in Keys(front) {
      assert forall i :: 0 <= i < n ==> scopes[i].key in Keys(front);
    }
  }

  // ----- what a prepared state refuses -----

  /** A refilled bucket lacks a token exactly when some window that ends now is spent. */
  lemma BucketIsExact(c: Claim, s: LimitState, log: seq<Charge>, k: string, now: Instant)
    requires StateOk(c, s, log, k, now) && c.limits.requestsPerSecond != 0
    ensures Refill(s, now).tokens < 1.0 <==> RateSpent(c.limits, log, k, now)
  {
    hide Accrued;
    hide Refill;
    RefillKeeps(c, s, log, k, now);
    RefilledNow(s, now);
    var next := Refill(s, now);
    var full :| Tight(c.limits, next, log, k, full);
    if next.tokens < 1.0 {
      assert Overdrawn(c.limits, log, k, full, now);
    }
    if from :| from <= now && Overdrawn(c.limits, log, k, from, now) {
      assert LimiterRuns.Covered(c.limits, next, log, k, from);
    }
  }

  lemma RefilledNow(s: LimitState, now: Instant)
    requires s.limits.requestsPerSecond != 0 && s.last <= now
    ensures Refill(s, now).last == now
  {
  }

  lemma RequestRefusedIff(c: Claim, s: LimitState, log: seq<Charge>, k: string, now: Instant)
    requires StateOk(c, s, log, k, now)
    ensures RequestRefused(Refill(s, now)) <==> RequestsSpent(c.limits, log, k, now)
  {
    hide BucketOk;
    hide RateSpent;
    RefillCounts(s, now);
    if c.limits.requestsPerSecond != 0 {
      BucketIsExact(c, s, log, k, now);
    }
  }

  lemma RefillCounts(s: LimitState, now: Instant)
    ensures Refill(s, now).requests == s.requests && Refill(s, now).limits == s.limits
  {
  }

  lemma BytesRefusedIff(c: Claim, s: LimitState, log: seq<Charge>, k: string, count: nat, now: Instant)
    requires StateOk(c, s, log, k, now) && BudgetsOk(c.limits, log, k)
    ensures BytesRefused(s, count) <==> BytesSpent(c.limits, log, k, count)
  {
    hide BucketOk;
  }

  // ----- the limiter after a run -----

  /** Before a call is decided, a usable chain is prepared, and each of its states tells what the log tells. */
  lemma ChainIsPrepared(directory: Directory, events: seq<Event>, e: Event)
    requires ProperRun(directory, events + [e])
    ensures var states := SweepStep(After(START, events).table, e.now).states;
            && (Prepare(states, e.scopes, e.now).1 <==> e.scopes == [] || Usable(e.scopes, e.now))
            && forall i :: 0 <= i < |e.scopes| ==>
                 KeyOk(directory, Prepare(states, e.scopes, e.now).0, After(START, events).log, e.now, e.scopes[i].key)
  {
    hide StateOk;
    hide BudgetsOk;
    hide RateOk;
    var w := After(START, events);
    ProperPrefix(directory, events, e);
    LimitsHoldForEver(directory, events);
    var swept := SweepStep(w.table, e.now).states;
    forall i | 0 <= i < |e.scopes|
      ensures Agrees(swept, e.scopes[i])
      ensures KeyOk(directory, Prepare(swept, e.scopes, e.now).0, w.log, e.now, e.scopes[i].key)
    {
      PreparedOk(directory, w, e, e.scopes[i].key);
      if e.scopes[i].key in swept {
        StateAgrees(directory, swept, w.log, e.now, e.scopes[i].key);
      }
    }
    PreparedIff(swept, e.scopes, e.now);
  }

  lemma StateAgrees(directory: Directory, states: States, log: seq<Charge>, now: Instant, k: string)
    requires KeyOk(directory, states, log, now, k) && k in states
    ensures states[k].limits == directory(k).limits && states[k].expiresAt == directory(k).expiresAt
    ensures StateOk(directory(k), states[k], log, k, now) && BudgetsOk(directory(k).limits, log, k)
  {
  }

  lemma ProperPrefix(directory: Directory, events: seq<Event>, e: Event)
    requires ProperRun(directory, events + [e])
    ensures ProperRun(directory, events) && Conforms(directory, e)
    ensures (if events == [] then 0.0 else events[|events| - 1].now) <= e.now
  {
    var all := events + [e];
    assert forall i :: 0 <= i < |events| ==> all[i] == events[i];
    assert all[|events|] == e;
  }

  /** A request is admitted exactly when its chain is usable and no key of it is spent. */
  lemma RequestAdmittedIff(directory: Directory, events: seq<Event>, scopes: seq<Scope>, now: Instant)
    requires ProperRun(directory, events + [Request(scopes, now)])
    ensures RequestStep(After(START, events).table, scopes, now).1
       <==> && Usable(scopes, now)
            && forall i :: 0 <= i < |scopes| ==>
                 !RequestsSpent(directory(scopes[i].key).limits, After(START, events).log, scopes[i].key, now)
  {
    hide StateOk;
    hide BudgetsOk;
    hide RateOk;
    hide RequestsSpent;
    hide RequestRefused;
    hide Refill;
    ChainIsPrepared(directory, events, Request(scopes, now));
    var log := After(START, events).log;
    var swept := SweepStep(After(START, events).table, now).states;
    var (states, ok) := Prepare(swept, scopes, now);
    PrepareIsReady(swept, scopes, now);
    if ok {
      forall i | 0 <= i < |scopes|
        ensures RequestRefused(Refill(states[scopes[i].key], now))
           <==> RequestsSpent(directory(scopes[i].key).limits, log, scopes[i].key, now)
      {
        var k := scopes[i].key;
        StateAgrees(directory, states, log, now, k);
        RequestRefusedIff(directory(k), states[k], log, k, now);
      }
    }
  }

  /** An upload is admitted exactly when its chain is usable and every key of it has the bytes left. */
  lemma BytesAdmittedIff(directory: Directory, events: seq<Event>, scopes: seq<Scope>, count: nat, now: Instant)
    requires ProperRun(directory, events + [Upload(scopes, count, now)])
    ensures BytesStep(After(START, events).table, scopes, count, now).1
       <==> && Usable(scopes, now)
            && forall i :: 0 <= i < |scopes| ==>
                 !BytesSpent(directory(scopes[i].key).limits, After(START, events).log, scopes[i].key, count)
  {
    hide StateOk;
    hide BudgetsOk;
    hide RateOk;
    hide BytesSpent;
    hide BytesRefused;
    ChainIsPrepared(directory, events, Upload(scopes, count, now));
    var log := After(START, events).log;
    var swept := SweepStep(After(START, events).table, now).states;
    var (states, ok) := Prepare(swept, scopes, now);
    PrepareIsReady(swept, scopes, now);
    if ok {
      forall i | 0 <= i < |scopes|
        ensures BytesRefused(states[scopes[i].key], count)
           <==> BytesSpent(directory(scopes[i].key).limits, log, scopes[i].key, count)
      {
        var k := scopes[i].key;
        StateAgrees(directory, states, log, now, k);
        BytesRefusedIff(directory(k), states[k], log, k, count, now);
      }
    }
  }
}
