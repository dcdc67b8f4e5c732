/**
 The hierarchical limiter: a request is charged to every scope of a delegation chain or to
 none. Times and bucket levels are reals, so rounding is not modelled.
 */
module Limiter {
  import opened Octets
  import opened Tokens

  /** Seconds; 0.0 is Go's zero time. */
  type Instant = real

  const SWEEP_INTERVAL: Instant := 60.0

  datatype Scope = Scope(key: string, limits: Limits, expiresAt: Instant)

  datatype LimitState = LimitState(
    limits: Limits, expiresAt: Instant, tokens: real, last: Instant, requests: nat, bytes: nat)

  type States = map<string, LimitState>

  function EffectiveBurst(limits: Limits): nat {
    if limits.requestsPerSecond == 0 then 0 else BurstOrOne(limits)
  }

  function Rate(limits: Limits): real {
    limits.requestsPerSecond as real
  }

  function Burst(limits: Limits): real {
    EffectiveBurst(limits) as real
  }

  /** What a bucket gains between two instants, before the burst caps it. */
  function Accrued(limits: Limits, from: Instant, to: Instant): real {
    (to - from) * Rate(limits)
  }

  function Refill(s: LimitState, now: Instant): LimitState {
    if s.limits.requestsPerSecond == 0 || now <= s.last then s
    else
      var level := s.tokens + Accrued(s.limits, s.last, now);
      s.(tokens := if level > Burst(s.limits) then Burst(s.limits) else level, last := now)
  }

  /** A new bucket is full. */
  function Opened(scope: Scope, now: Instant): LimitState {
    LimitState(scope.limits, scope.expiresAt, Burst(scope.limits), now, 0, 0)
  }

  predicate RequestRefused(s: LimitState) {
    || s.requests == MAX_UINT64
    || (s.limits.requestBudget != 0 && s.requests >= s.limits.requestBudget)
    || (s.limits.requestsPerSecond != 0 && s.tokens < 1.0)
  }

  function RequestCharged(s: LimitState): LimitState {
    s.(requests := s.requests + 1, tokens := if s.limits.requestsPerSecond != 0 then s.tokens - 1.0 else s.tokens)
  }

  predicate BytesRefused(s: LimitState, count: nat) {
    || count > MAX_UINT64 - s.bytes
    || (s.limits.byteBudget != 0 && (s.bytes > s.limits.byteBudget || count > s.limits.byteBudget - s.bytes))
  }

  function BytesCharged(s: LimitState, count: nat): LimitState {
    s.(bytes := s.bytes + count)
  }

  // ----- the operations on the whole table -----

  function Swept(states: States, now: Instant): States {
    map k | k in states && now < states[k].expiresAt :: states[k]
  }

  function Keys(scopes: seq<Scope>): (keys: set<string>)
    ensures forall k :: k in keys <==> exists i :: 0 <= i < |scopes| && scopes[i].key == k
  {
    set i | 0 <= i < |scopes| :: scopes[i].key
  }

  /** Why the state of one more scope cannot be used. */
  predicate ScopeRefused(states: States, scope: Scope, earlier: set<string>, now: Instant) {
    || scope.key == "" || scope.expiresAt == 0.0 || now >= scope.expiresAt || scope.key in earlier
    || (scope.key in states
        && (states[scope.key].limits != scope.limits || states[scope.key].expiresAt != scope.expiresAt))
  }

  function WithScope(states: States, scope: Scope, now: Instant): States {
    if scope.key in states then states else states[scope.key := Opened(scope, now)]
  }

  /** Looks up or opens the state of every scope, in order, up to the first unusable one. */
  function Prepare(states: States, scopes: seq<Scope>, now: Instant): (States, bool) {
    if scopes == [] then (states, true)
    else
      var front, last := scopes[..|scopes| - 1], scopes[|scopes| - 1];
      var (before, ok) := Prepare(states, front, now);
      if !ok || ScopeRefused(before, last, Keys(front), now) then (before, false)
      else (WithScope(before, last, now), true)
  }

  /** Refills the states of those keys. */
  function Refilled(states: States, keys: set<string>, now: Instant): States {
    map k | k in states :: if k in keys then Refill(states[k], now) else states[k]
  }

  function RequestChargedAll(states: States, keys: set<string>): States {
    map k | k in states :: if k in keys then RequestCharged(states[k]) else states[k]
  }

  function BytesChargedAll(states: States, keys: set<string>, count: nat): States {
    map k | k in states :: if k in keys then BytesCharged(states[k], count) else states[k]
  }

  /** A prepared scope list: every key has a state, and no key comes twice. */
  predicate Ready(states: States, scopes: seq<Scope>) {
    && (forall i :: 0 <= i < |scopes| ==> scopes[i].key in states)
    && (forall i, j :: 0 <= i < j < |scopes| ==> scopes[i].key != scopes[j].key)
  }

  lemma {:induction false} PrepareIsReady(states: States, scopes: seq<Scope>, now: Instant)
    ensures states.Keys <= Prepare(states, scopes, now).0.Keys
    ensures Prepare(states, scopes, now).1 ==> Ready(Prepare(states, scopes, now).0, scopes)
    decreases |scopes|
  {
    if scopes != [] {
      var front, last := scopes[..|scopes| - 1], scopes[|scopes| - 1];
      PrepareIsReady(states, front, now);
      assert scopes == front + [last];
      assert last.key in Keys(front) <==> exists i :: 0 <= i < |front| && front[i].key == last.key;
    }
  }

  /** How many scopes are examined from `i` on: up to and including the first that refuses. */
  function Examined(states: States, scopes: seq<Scope>, now: Instant, i: nat): (n: nat)
    requires Ready(states, scopes) && i <= |scopes|
    ensures i <= n <= |scopes|
    decreases |scopes| - i
  {
    if i == |scopes| then i
    else if RequestRefused(Refill(states[scopes[i].key], now)) then i + 1
    else Examined(states, scopes, now, i + 1)
  }

  predicate AllAdmitRequest(states: States, scopes: seq<Scope>, now: Instant)
    requires Ready(states, scopes)
  {
    forall i :: 0 <= i < |scopes| ==> !RequestRefused(Refill(states[scopes[i].key], now))
  }

  predicate AllAdmitBytes(states: States, scopes: seq<Scope>, count: nat)
    requires Ready(states, scopes)
  {
    forall i :: 0 <= i < |scopes| ==> !BytesRefused(states[scopes[i].key], count)
  }

  datatype Table = Table(states: States, nextSweep: Instant)

  function SweepStep(t: Table, now: Instant): Table {
    if t.nextSweep != 0.0 && now < t.nextSweep then t else Table(Swept(t.states, now), now + SWEEP_INTERVAL)
  }

  /** `allowRequest`: all scopes are charged, or none is. */
  function RequestStep(t: Table, scopes: seq<Scope>, now: Instant): (Table, bool) {
    if scopes == [] then (t, false)
    else
      var swept := SweepStep(t, now);
      var (states, ok) := Prepare(swept.states, scopes, now);
      PrepareIsReady(swept.states, scopes, now);
      if !ok then (swept.(states := states), false)
      else if AllAdmitRequest(states, scopes, now) then
        (swept.(states := RequestChargedAll(Refilled(states, Keys(scopes), now), Keys(scopes))), true)
      else
        (swept.(states := Refilled(states, Keys(scopes[..Examined(states, scopes, now, 0)]), now)), false)
  }

  /** `allowBytes`: all scopes are charged, or none is. */
  function BytesStep(t: Table, scopes: seq<Scope>, count: nat, now: Instant): (Table, bool) {
    if scopes == [] then (t, false)
    else
      var swept := SweepStep(t, now);
      var (states, ok) := Prepare(swept.states, scopes, now);
      PrepareIsReady(swept.states, scopes, now);
      if !ok then (swept.(states := states), false)
      else if AllAdmitBytes(states, scopes, count) then
        (swept.(states := BytesChargedAll(states, Keys(scopes), count)), true)
      else (swept.(states := states), false)
  }

  lemma KeysSnoc(scopes: seq<Scope>, i: nat)
    requires i < |scopes|
    ensures Keys(scopes[..i + 1]) == Keys(scopes[..i]) + {scopes[i].key}
  {
    var front, one := scopes[..i], scopes[..i + 1];
    forall k ensures k in Keys(one) <==> k in Keys(front) || k == scopes[i].key {
      assert k in Keys(front) ==> exists j :: 0 <= j < i && one[j].key == k;
      assert k in Keys(one) ==> exists j :: 0 <= j <= i && scopes[j].key == k;
      assert one[i].key == scopes[i].key;
    }
  }

  class LimitManager {
    var states: States
    var nextSweep: Instant

    constructor ()
      ensures states == map[] && nextSweep == 0.0
    {
      states, nextSweep := map[], 0.0;
    }

    function TableOf(): Table
      reads this
    {
      Table(states, nextSweep)
    }

    method SweepLocked(now: Instant)
      modifies this
      ensures TableOf() == SweepStep(old(TableOf()), now)
    {
      if nextSweep != 0.0 && now < nextSweep {
        return;
      }
      var todo := states.Keys;
      while todo != {}
        invariant nextSweep == old(nextSweep) && todo <= states.Keys
        invariant states == map k | k in old(states) && (k in todo || now < old(states)[k].expiresAt) :: old(states)[k]
        decreases todo
      {
        var key :| key in todo;
        if !(now < states[key].expiresAt) {
          states := states - {key};
        }
        todo := todo - {key};
      }
      nextSweep := now + SWEEP_INTERVAL;
    }

    method StatesLocked(scopes: seq<Scope>, now: Instant) returns (ok: bool)
      modifies this`states
      ensures (states, ok) == Prepare(old(states), scopes, now)
      ensures ok ==> Ready(states, scopes)
    {
      var seen: set<string> := {};
      for i := 0 to |scopes|
        invariant (states, true) == Prepare(old(states), scopes[..i], now)
        invariant seen == Keys(scopes[..i])
      {
        var scope := scopes[i];
        assert scopes[..i + 1][..i] == scopes[..i];
        KeysSnoc(scopes, i);
        if scope.key == "" || scope.expiresAt == 0.0 || !(now < scope.expiresAt) || scope.key in seen {
          PrepareStops(old(states), scopes, i + 1, now);
          return false;
        }
        seen := seen + {scope.key};
        if scope.key !in states {
          states := states[scope.key := Opened(scope, now)];
        } else if states[scope.key].limits != scope.limits || states[scope.key].expiresAt != scope.expiresAt {
          PrepareStops(old(states), scopes, i + 1, now);
          return false;
        }
      }
      assert scopes[..|scopes|] == scopes;
      PrepareIsReady(old(states), scopes, now);
      return true;
    }

    method AllowRequest(scopes: seq<Scope>, now: Instant) returns (allowed: bool)
      modifies this
      ensures (TableOf(), allowed) == RequestStep(old(TableOf()), scopes, now)
    {
      if |scopes| == 0 {
        return false;
      }
      SweepLocked(now);
      var ok := StatesLocked(scopes, now);
      if !ok {
        return false;
      }
      allowed := RefillAndCheck(scopes, now);
      if allowed {
        ChargeRequests(scopes);
      }
    }

    /** Refills one state after the other and stops at the first refusal. */
    method RefillAndCheck(scopes: seq<Scope>, now: Instant) returns (allowed: bool)
      requires Ready(states, scopes)
      modifies this`states
      ensures Ready(old(states), scopes) && Ready(states, scopes)
      ensures allowed <==> AllAdmitRequest(old(states), scopes, now)
      ensures allowed ==> states == Refilled(old(states), Keys(scopes), now)
      ensures !allowed ==> states == Refilled(old(states), Keys(scopes[..Examined(old(states), scopes, now, 0)]), now)
    {
      ghost var before := states;
      var i := 0;
      while i < |scopes|
        invariant 0 <= i <= |scopes|
        invariant states == Refilled(before, Keys(scopes[..i]), now)
        invariant forall j :: 0 <= j < i ==> !RequestRefused(Refill(before[scopes[j].key], now))
        invariant Examined(before, scopes, now, 0) == Examined(before, scopes, now, i)
      {
        var key := scopes[i].key;
        KeysSnoc(scopes, i);
        assert key !in Keys(scopes[..i]);
        var state := Refill(states[key], now);
        states := states[key := state];
        assert states == Refilled(before, Keys(scopes[..i + 1]), now);
        if RequestRefused(state) {
          return false;
        }
        i := i + 1;
      }
      assert scopes[..|scopes|] == scopes;
      return true;
    }

    method ChargeRequests(scopes: seq<Scope>)
      requires Ready(states, scopes)
      modifies this`states
      ensures states == RequestChargedAll(old(states), Keys(scopes))
    {
      ghost var before := states;
      for i := 0 to |scopes|
        invariant states == RequestChargedAll(before, Keys(scopes[..i]))
      {
        KeysSnoc(scopes, i);
        assert scopes[i].key !in Keys(scopes[..i]);
        states := states[scopes[i].key := RequestCharged(states[scopes[i].key])];
      }
      assert scopes[..|scopes|] == scopes;
    }

    method AllowBytes(scopes: seq<Scope>, count: nat, now: Instant) returns (allowed: bool)
      modifies this
      ensures (TableOf(), allowed) == BytesStep(old(TableOf()), scopes, count, now)
    {
      if |scopes| == 0 {
        return false;
      }
      SweepLocked(now);
      var ok := StatesLocked(scopes, now);
      if !ok {
        return false;
      }
      for i := 0 to |scopes|
        invariant forall j :: 0 <= j < i ==> !BytesRefused(states[scopes[j].key], count)
      {
        if BytesRefused(states[scopes[i].key], count) {
          return false;
        }
      }
      ghost var before := states;
      for i := 0 to |scopes|
        invariant nextSweep == SweepStep(old(TableOf()), now).nextSweep
        invariant states == BytesChargedAll(before, Keys(scopes[..i]), count)
      {
        KeysSnoc(scopes, i);
        assert scopes[i].key !in Keys(scopes[..i]);
        states := states[scopes[i].key := BytesCharged(states[scopes[i].key], count)];
      }
      assert scopes[..|scopes|] == scopes;
      return true;
    }
  }

  /** A refused scope ends the preparation for good. */
  lemma {:induction false} PrepareStops(states: States, scopes: seq<Scope>, n: nat, now: Instant)
    requires n <= |scopes| && !Prepare(states, scopes[..n], now).1
    ensures Prepare(states, scopes, now) == Prepare(states, scopes[..n], now)
    decreases |scopes|
  {
    if n < |scopes| {
      var front := scopes[..|scopes| - 1];
      assert front[..n] == scopes[..n];
      PrepareStops(states, front, n, now);
    } else {
      assert scopes[..n] == scopes;
    }
  }
}
