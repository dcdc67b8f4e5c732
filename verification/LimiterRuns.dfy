/**
 What the limiter guarantees over every run: budgets and rates hold for each key for ever,
 refusals cost nothing, and a parent's use covers that of its children.
 */
module LimiterRuns {
  import opened Octets
  import opened Tokens
  import opened Limiter
  import opened Sums

  datatype Event =
    | Request(scopes: seq<Scope>, now: Instant)
    | Upload(scopes: seq<Scope>, count: nat, now: Instant)

  /** An admitted event. */
  datatype Charge = Charge(now: Instant, keys: set<string>, requests: nat, bytes: nat)

  function ChargeOf(e: Event): Charge {
    match e
    case Request(scopes, now) => Charge(now, Keys(scopes), 1, 0)
    case Upload(scopes, count, now) => Charge(now, Keys(scopes), 0, count)
  }

  datatype World = World(table: Table, log: seq<Charge>, clock: Instant)

  function Step(t: Table, e: Event): (Table, bool) {
    match e
    case Request(scopes, now) => RequestStep(t, scopes, now)
    case Upload(scopes, count, now) => BytesStep(t, scopes, count, now)
  }

  function Next(w: World, e: Event): World {
    var (table, allowed) := Step(w.table, e);
    World(table, if allowed then w.log + [ChargeOf(e)] else w.log, e.now)
  }

  // ----- what a log says about a key -----

  function Requests(log: seq<Charge>, k: string): nat {
    if log == [] then 0
    else Requests(log[..|log| - 1], k) + (if k in log[|log| - 1].keys then log[|log| - 1].requests else 0)
  }

  function Bytes(log: seq<Charge>, k: string): nat {
    if log == [] then 0
    else Bytes(log[..|log| - 1], k) + (if k in log[|log| - 1].keys then log[|log| - 1].bytes else 0)
  }

  /** Requests charged to the key in the closed window. */
  function Within(log: seq<Charge>, k: string, from: Instant, to: Instant): nat {
    if log == [] then 0
    else
      var last := log[|log| - 1];
      Within(log[..|log| - 1], k, from, to) + (if k in last.keys && from <= last.now <= to then last.requests else 0)
  }

  /** Requests charged to the key from that time on. */
  function Since(log: seq<Charge>, k: string, from: Instant): nat {
    if log == [] then 0
    else
      var last := log[|log| - 1];
      Since(log[..|log| - 1], k, from) + (if k in last.keys && from <= last.now then last.requests else 0)
  }

  predicate LoggedBy(log: seq<Charge>, clock: Instant) {
    forall i :: 0 <= i < |log| ==> log[i].now <= clock
  }

  lemma {:induction false} WithinIsSince(log: seq<Charge>, k: string, from: Instant, to: Instant)
    requires LoggedBy(log, to)
    ensures Within(log, k, from, to) == Since(log, k, from)
  {
    if log != [] {
      WithinIsSince(log[..|log| - 1], k, from, to);
    }
  }

  lemma LogSnoc(log: seq<Charge>, c: Charge, k: string)
    ensures Requests(log + [c], k) == Requests(log, k) + (if k in c.keys then c.requests else 0)
    ensures Bytes(log + [c], k) == Bytes(log, k) + (if k in c.keys then c.bytes else 0)
    ensures forall from :: Since(log + [c], k, from)
                        == Since(log, k, from) + (if k in c.keys && from <= c.now then c.requests else 0)
    ensures forall from, to :: Within(log + [c], k, from, to)
                            == Within(log, k, from, to) + (if k in c.keys && from <= c.now <= to then c.requests else 0)
  {
    assert (log + [c])[..|log|] == log;
  }

  // ----- the invariant of one key -----

  datatype Claim = Claim(limits: Limits, expiresAt: Instant)

  /** Token claims are immutable: a key stands for the same limits and expiry at all times. */
  type Directory = string -> Claim

  predicate Conforms(directory: Directory, e: Event) {
    forall i :: 0 <= i < |e.scopes| ==>
      directory(e.scopes[i].key) == Claim(e.scopes[i].limits, e.scopes[i].expiresAt)
  }

  /** The level accounts for every request since any time, against burst and refill. */
  ghost predicate BucketOk(limits: Limits, s: LimitState, log: seq<Charge>, k: string) {
    && 0.0 <= s.tokens <= Burst(limits)
    && (forall from :: Covered(limits, s, log, k, from))
    && exists from :: Tight(limits, s, log, k, from)
  }

  /** The account is exact for one start: the last time the bucket was full. */
  ghost predicate Tight(limits: Limits, s: LimitState, log: seq<Charge>, k: string, from: Instant) {
    from <= s.last && s.tokens == Burst(limits) + Accrued(limits, from, s.last) - Since(log, k, from) as real
  }

  ghost predicate Covered(limits: Limits, s: LimitState, log: seq<Charge>, k: string, from: Instant) {
    if from <= s.last then Since(log, k, from) as real <= Burst(limits) + Accrued(limits, from, s.last) - s.tokens
    else Since(log, k, from) == 0
  }

  ghost predicate StateOk(c: Claim, s: LimitState, log: seq<Charge>, k: string, clock: Instant) {
    && s.limits == c.limits && s.expiresAt == c.expiresAt && s.last <= clock
    && s.requests == Requests(log, k) && s.bytes == Bytes(log, k)
    && (c.limits.requestsPerSecond != 0 ==> BucketOk(c.limits, s, log, k))
  }

  ghost predicate BudgetsOk(limits: Limits, log: seq<Charge>, k: string) {
    && Requests(log, k) <= MAX_UINT64 && Admits(limits.requestBudget, Requests(log, k))
    && Bytes(log, k) <= MAX_UINT64 && Admits(limits.byteBudget, Bytes(log, k))
  }

  ghost predicate RateOk(limits: Limits, log: seq<Charge>, k: string) {
    limits.requestsPerSecond != 0 ==>
      forall from, to | from <= to :: Within(log, k, from, to) as real <= Burst(limits) + Accrued(limits, from, to)
  }

  ghost predicate NeverCharged(log: seq<Charge>, k: string) {
    Requests(log, k) == 0 && Bytes(log, k) == 0 && forall from :: Since(log, k, from) == 0
  }

  /** A key without a state was never charged, or has expired for good. */
  ghost predicate KeyOk(directory: Directory, states: States, log: seq<Charge>, clock: Instant, k: string) {
    var c := directory(k);
    && (k in states ==> StateOk(c, states[k], log, k, clock))
    && (k !in states ==> NeverCharged(log, k) || c.expiresAt <= clock)
    && BudgetsOk(c.limits, log, k) && RateOk(c.limits, log, k)
  }

  ghost predicate WorldOk(directory: Directory, w: World) {
    && LoggedBy(w.log, w.clock)
    && forall k :: KeyOk(directory, w.table.states, w.log, w.clock, k)
  }

  // ----- one step, one key -----

  lemma AccruedAdds(limits: Limits, a: Instant, b: Instant, c: Instant)
    ensures Accrued(limits, a, c) == Accrued(limits, a, b) + Accrued(limits, b, c)
  {
    assert c - a == (b - a) + (c - b);
    Distribute(b - a, c - b, Rate(limits));
  }

  lemma Distribute(x: real, y: real, r: real)
    ensures (x + y) * r == x * r + y * r
  {
  }

  lemma AccruedNothing(limits: Limits, at: Instant)
    ensures Accrued(limits, at, at) == 0.0
  {
  }

  lemma AccruedPositive(limits: Limits, from: Instant, to: Instant)
    requires from <= to
    ensures Accrued(limits, from, to) >= 0.0
  {
    NonNegative(to - from, Rate(limits));
  }

  lemma NonNegative(x: real, y: real)
    requires x >= 0.0 && y >= 0.0
    ensures x * y >= 0.0
  {
  }

  /** Refilling keeps the account of every window. */
  lemma RefillKeeps(c: Claim, s: LimitState, log: seq<Charge>, k: string, now: Instant)
    requires StateOk(c, s, log, k, now)
    ensures StateOk(c, Refill(s, now), log, k, now)
  {
    hide Accrued;
    var next := Refill(s, now);
    if c.limits.requestsPerSecond != 0 && s.last < now {
      AccruedPositive(c.limits, s.last, now);
      forall from ensures Covered(c.limits, next, log, k, from) {
        assert Covered(c.limits, s, log, k, from);
        if from <= s.last {
          AccruedAdds(c.limits, from, s.last, now);
        } else if from <= now {
          AccruedPositive(c.limits, from, now);
        }
      }
      RefillKeepsTight(c, s, log, k, now);
    }
  }

  lemma RefillKeepsTight(c: Claim, s: LimitState, log: seq<Charge>, k: string, now: Instant)
    requires StateOk(c, s, log, k, now) && c.limits.requestsPerSecond != 0 && s.last < now
    ensures exists from :: Tight(c.limits, Refill(s, now), log, k, from)
  {
    hide Accrued;
    var next := Refill(s, now);
    if next.tokens == Burst(c.limits) {
      assert Covered(c.limits, s, log, k, now);
      AccruedNothing(c.limits, now);
      assert Tight(c.limits, next, log, k, now);
    } else {
      var from :| Tight(c.limits, s, log, k, from);
      AccruedAdds(c.limits, from, s.last, now);
      assert Tight(c.limits, next, log, k, from);
    }
  }

  lemma OpenedOk(c: Claim, scope: Scope, log: seq<Charge>, k: string, now: Instant)
    requires c == Claim(scope.limits, scope.expiresAt)
    requires NeverCharged(log, k)
    ensures StateOk(c, Opened(scope, now), log, k, now)
  {
    hide Accrued;
    var s := Opened(scope, now);
    forall from ensures Covered(c.limits, s, log, k, from) {
      if from <= now {
        AccruedPositive(c.limits, from, now);
      }
    }
    AccruedNothing(c.limits, now);
    assert Tight(c.limits, s, log, k, now);
  }

  lemma ClockAdvances(directory: Directory, states: States, log: seq<Charge>, clock: Instant, now: Instant, k: string)
    requires KeyOk(directory, states, log, clock, k) && clock <= now
    ensures KeyOk(directory, states, log, now, k)
  {
  }

  /** Sweeping forgets only keys that can never be used again. */
  lemma SweepKeeps(directory: Directory, t: Table, log: seq<Charge>, now: Instant, k: string)
    requires KeyOk(directory, t.states, log, now, k)
    ensures KeyOk(directory, SweepStep(t, now).states, log, now, k)
  {
  }

  lemma {:induction false} PrepareKeeps(directory: Directory, states: States, scopes: seq<Scope>, log: seq<Charge>, now: Instant, k: string)
    requires KeyOk(directory, states, log, now, k)
    requires forall i :: 0 <= i < |scopes| ==> directory(scopes[i].key) == Claim(scopes[i].limits, scopes[i].expiresAt)
    ensures KeyOk(directory, Prepare(states, scopes, now).0, log, now, k)
    decreases |scopes|
  {
    if scopes != [] {
      var front, last := scopes[..|scopes| - 1], scopes[|scopes| - 1];
      PrepareKeeps(directory, states, front, log, now, k);
      var (before, ok) := Prepare(states, front, now);
      if ok && !ScopeRefused(before, last, Keys(front), now) && last.key == k && k !in before {
        OpenedOk(directory(k), last, log, k, now);
      }
    }
  }

  lemma RefilledKeeps(directory: Directory, states: States, keys: set<string>, log: seq<Charge>, now: Instant, k: string)
    requires KeyOk(directory, states, log, now, k)
    ensures KeyOk(directory, Refilled(states, keys, now), log, now, k)
  {
    if k in states && k in keys {
      RefillKeeps(directory(k), states[k], log, k, now);
    }
  }

  /** A charge to other keys changes nothing that is said of this one. */
  lemma UnchargedKeeps(directory: Directory, states: States, next: States, log: seq<Charge>, charge: Charge, k: string)
    requires KeyOk(directory, states, log, charge.now, k) && k !in charge.keys
    requires (k in next <==> k in states) && (k in states ==> next[k] == states[k])
    ensures KeyOk(directory, next, log + [charge], charge.now, k)
  {
    hide Accrued;
    LogSnoc(log, charge, k);
    if k in states && directory(k).limits.requestsPerSecond != 0 {
      forall from ensures Covered(directory(k).limits, states[k], log + [charge], k, from) {
        assert Covered(directory(k).limits, states[k], log, k, from);
      }
      var full :| Tight(directory(k).limits, states[k], log, k, full);
      assert Tight(directory(k).limits, states[k], log + [charge], k, full);
    }
  }

  /** After an admitted request the bucket still accounts for every window, now including it. */
  lemma RequestChargeKeeps(c: Claim, s: LimitState, log: seq<Charge>, charge: Charge, k: string)
    requires StateOk(c, s, log, k, charge.now) && !RequestRefused(s)
    requires s.limits.requestsPerSecond != 0 ==> s.last == charge.now
    requires k in charge.keys && charge.requests == 1 && charge.bytes == 0
    ensures StateOk(c, RequestCharged(s), log + [charge], k, charge.now)
  {
    hide Accrued;
    LogSnoc(log, charge, k);
    if c.limits.requestsPerSecond != 0 {
      forall from ensures Covered(c.limits, RequestCharged(s), log + [charge], k, from) {
        assert Covered(c.limits, s, log, k, from);
      }
      var full :| Tight(c.limits, s, log, k, full);
      assert Tight(c.limits, RequestCharged(s), log + [charge], k, full);
    }
  }

  /** The rate bound for every window follows from the bucket at the last admission. */
  lemma RateAfterRequest(c: Claim, s: LimitState, log: seq<Charge>, charge: Charge, k: string)
    requires c.limits.requestsPerSecond != 0 && RateOk(c.limits, log, k) && LoggedBy(log, charge.now)
    requires s.last == charge.now && BucketOk(c.limits, s, log + [charge], k)
    ensures RateOk(c.limits, log + [charge], k)
  {
    hide Accrued;
    var longer := log + [charge];
    LogSnoc(log, charge, k);
    forall from, to | from <= to
      ensures Within(longer, k, from, to) as real <= Burst(c.limits) + Accrued(c.limits, from, to)
    {
      if charge.now <= to {
        WithinIsSince(longer, k, from, to);
        assert Covered(c.limits, s, longer, k, from);
        if from <= charge.now {
          AccruedAdds(c.limits, from, charge.now, to);
          AccruedPositive(c.limits, charge.now, to);
        } else {
          AccruedPositive(c.limits, from, to);
        }
      }
    }
  }

  lemma RequestChargeKeepsKey(directory: Directory, states: States, log: seq<Charge>, charge: Charge, k: string)
    requires KeyOk(directory, states, log, charge.now, k) && LoggedBy(log, charge.now)
    requires k in states && k in charge.keys && charge.requests == 1 && charge.bytes == 0
    requires !RequestRefused(states[k])
    requires states[k].limits.requestsPerSecond != 0 ==> states[k].last == charge.now
    ensures KeyOk(directory, RequestChargedAll(states, charge.keys), log + [charge], charge.now, k)
  {
    var c, s := directory(k), states[k];
    RequestChargeKeeps(c, s, log, charge, k);
    LogSnoc(log, charge, k);
    if c.limits.requestsPerSecond != 0 {
      RateAfterRequest(c, RequestCharged(s), log, charge, k);
    }
  }

  lemma BytesChargeKeepsKey(directory: Directory, states: States, log: seq<Charge>, charge: Charge, k: string)
    requires KeyOk(directory, states, log, charge.now, k)
    requires k in states && k in charge.keys && charge.requests == 0 && !BytesRefused(states[k], charge.bytes)
    ensures KeyOk(directory, BytesChargedAll(states, charge.keys, charge.bytes), log + [charge], charge.now, k)
  {
    hide Accrued;
    LogSnoc(log, charge, k);
    if directory(k).limits.requestsPerSecond != 0 {
      var next := BytesCharged(states[k], charge.bytes);
      forall from ensures Covered(directory(k).limits, next, log + [charge], k, from) {
        assert Covered(directory(k).limits, states[k], log, k, from);
      }
      var full :| Tight(directory(k).limits, states[k], log, k, full);
      assert Tight(directory(k).limits, next, log + [charge], k, full);
    }
  }

  // ----- one step, all keys -----

  /** What every step does before it decides: advance the clock, sweep, open states. */
  lemma PreparedOk(directory: Directory, w: World, e: Event, k: string)
    requires WorldOk(directory, w) && Conforms(directory, e) && w.clock <= e.now
    ensures KeyOk(directory, SweepStep(w.table, e.now).states, w.log, e.now, k)
    ensures KeyOk(directory, Prepare(SweepStep(w.table, e.now).states, e.scopes, e.now).0, w.log, e.now, k)
  {
    hide StateOk;
    hide BudgetsOk;
    hide RateOk;
    assert KeyOk(directory, w.table.states, w.log, w.clock, k);
    ClockAdvances(directory, w.table.states, w.log, w.clock, e.now, k);
    SweepKeeps(directory, w.table, w.log, e.now, k);
    PrepareKeeps(directory, SweepStep(w.table, e.now).states, e.scopes, w.log, e.now, k);
  }

  lemma RequestKeepsKey(directory: Directory, w: World, e: Event, k: string)
    requires WorldOk(directory, w) && Conforms(directory, e) && w.clock <= e.now && e.Request?
    ensures KeyOk(directory, Next(w, e).table.states, Next(w, e).log, e.now, k)
  {
    hide KeyOk;
    hide Accrued;
    PreparedOk(directory, w, e, k);
    if e.scopes == [] {
      KeyAtNow(directory, w, e.now, k);
    } else {
      var swept := SweepStep(w.table, e.now);
      var (states, ok) := Prepare(swept.states, e.scopes, e.now);
      PrepareIsReady(swept.states, e.scopes, e.now);
      if ok {
        if AllAdmitRequest(states, e.scopes, e.now) {
          AdmittedRequestKeepsKey(directory, states, e, w.log, k) by {
            LoggedLater(w.log, w.clock, e.now);
          }
        } else {
          RefilledKeeps(directory, states, Keys(e.scopes[..Examined(states, e.scopes, e.now, 0)]), w.log, e.now, k);
        }
      }
    }
  }

  lemma LoggedLater(log: seq<Charge>, clock: Instant, now: Instant)
    requires LoggedBy(log, clock) && clock <= now
    ensures LoggedBy(log, now)
  {
  }

  lemma KeyAtNow(directory: Directory, w: World, now: Instant, k: string)
    requires WorldOk(directory, w) && w.clock <= now
    ensures KeyOk(directory, w.table.states, w.log, now, k)
  {
    assert KeyOk(directory, w.table.states, w.log, w.clock, k);
  }

  lemma AdmittedRequestKeepsKey(directory: Directory, states: States, e: Event, log: seq<Charge>, k: string)
    requires e.Request? && Ready(states, e.scopes) && AllAdmitRequest(states, e.scopes, e.now)
    requires KeyOk(directory, states, log, e.now, k) && LoggedBy(log, e.now)
    ensures KeyOk(directory, RequestChargedAll(Refilled(states, Keys(e.scopes), e.now), Keys(e.scopes)),
                  log + [ChargeOf(e)], e.now, k)
  {
    var keys := Keys(e.scopes);
    var filled := Refilled(states, keys, e.now);
    RefilledKeeps(directory, states, keys, log, e.now, k);
    if k in keys {
      var i :| 0 <= i < |e.scopes| && e.scopes[i].key == k;
      assert !RequestRefused(Refill(states[e.scopes[i].key], e.now));
      RequestChargeKeepsKey(directory, filled, log, ChargeOf(e), k);
    } else {
      UnchargedKeeps(directory, filled, RequestChargedAll(filled, keys), log, ChargeOf(e), k);
    }
  }

  lemma UploadKeepsKey(directory: Directory, w: World, e: Event, k: string)
    requires WorldOk(directory, w) && Conforms(directory, e) && w.clock <= e.now && e.Upload?
    ensures KeyOk(directory, Next(w, e).table.states, Next(w, e).log, e.now, k)
  {
    hide KeyOk;
    hide Accrued;
    PreparedOk(directory, w, e, k);
    if e.scopes == [] {
      KeyAtNow(directory, w, e.now, k);
    } else {
      var swept := SweepStep(w.table, e.now);
      var (states, ok) := Prepare(swept.states, e.scopes, e.now);
      PrepareIsReady(swept.states, e.scopes, e.now);
      if ok && AllAdmitBytes(states, e.scopes, e.count) {
        if k in Keys(e.scopes) {
          var i :| 0 <= i < |e.scopes| && e.scopes[i].key == k;
          BytesChargeKeepsKey(directory, states, w.log, ChargeOf(e), k);
        } else {
          UnchargedKeeps(directory, states, BytesChargedAll(states, Keys(e.scopes), e.count), w.log, ChargeOf(e), k);
        }
      }
    }
  }

  lemma NextKeeps(directory: Directory, w: World, e: Event)
    requires WorldOk(directory, w) && Conforms(directory, e) && w.clock <= e.now
    ensures WorldOk(directory, Next(w, e))
  {
    hide KeyOk;
    LoggedLater(w.log, w.clock, e.now);
    forall k ensures KeyOk(directory, Next(w, e).table.states, Next(w, e).log, e.now, k) {
      if e.Request? {
        RequestKeepsKey(directory, w, e, k);
      } else {
        UploadKeepsKey(directory, w, e, k);
      }
    }
  }

  // ----- whole runs -----

  const START: World := World(Table(map[], 0.0), [], 0.0)

  function After(w: World, events: seq<Event>): World {
    if events == [] then w else Next(After(w, events[..|events| - 1]), events[|events| - 1])
  }

  /** The events conform to the directory and the clock never goes back. */
  ghost predicate ProperRun(directory: Directory, events: seq<Event>) {
    && (forall i :: 0 <= i < |events| ==> Conforms(directory, events[i]) && 0.0 <= events[i].now)
    && (forall i, j :: 0 <= i < j < |events| ==> events[i].now <= events[j].now)
  }

  /**
   Over every proper run, and for every key that was ever charged, live or swept: the requests
   and bytes admitted for it are within its budgets and never overflow, and in any window
   the requests admitted are at most its burst plus what its rate accrues in that window.
   */
  lemma {:induction false} LimitsHoldForEver(directory: Directory, events: seq<Event>)
    requires ProperRun(directory, events)
    ensures WorldOk(directory, After(START, events))
    ensures forall k :: BudgetsOk(directory(k).limits, After(START, events).log, k)
    ensures forall k :: RateOk(directory(k).limits, After(START, events).log, k)
    ensures After(START, events).clock == if events == [] then 0.0 else events[|events| - 1].now
    decreases |events|
  {
    if events == [] {
      StartOk(directory);
    } else {
      var front, last := events[..|events| - 1], events[|events| - 1];
      LimitsHoldForEver(directory, front);
      NextKeeps(directory, After(START, front), last);
    }
    var w := After(START, events);
    forall k ensures BudgetsOk(directory(k).limits, w.log, k) && RateOk(directory(k).limits, w.log, k) {
      assert KeyOk(directory, w.table.states, w.log, w.clock, k);
    }
  }

  lemma StartOk(directory: Directory)
    ensures WorldOk(directory, START)
  {
    hide Accrued;
    forall k ensures KeyOk(directory, START.table.states, START.log, START.clock, k) {
      forall from, to | from <= to ensures Within([], k, from, to) as real
                                        <= Burst(directory(k).limits) + Accrued(directory(k).limits, from, to) {
        AccruedPositive(directory(k).limits, from, to);
      }
    }
  }

  // ----- refusals -----

  function RequestCount(states: States, k: string): nat {
    if k in states then states[k].requests else 0
  }

  function ByteCount(states: States, k: string): nat {
    if k in states then states[k].bytes else 0
  }

  lemma {:induction false} PrepareKeepsCounts(states: States, scopes: seq<Scope>, now: Instant, k: string)
    ensures RequestCount(Prepare(states, scopes, now).0, k) == RequestCount(states, k)
    ensures ByteCount(Prepare(states, scopes, now).0, k) == ByteCount(states, k)
    decreases |scopes|
  {
    if scopes != [] {
      PrepareKeepsCounts(states, scopes[..|scopes| - 1], now, k);
    }
  }

  /**
   Atomicity: a refused call changes the count of no live key; an admitted one adds exactly its
   charge to each key of its chain and nothing to any other live key.
   */
  lemma AllOrNothing(w: World, e: Event, k: string)
    requires k in w.table.states ==> e.now < w.table.states[k].expiresAt
    ensures var (next, allowed) := Step(w.table, e);
            var charge := ChargeOf(e);
            && RequestCount(next.states, k)
               == RequestCount(w.table.states, k) + (if allowed && k in charge.keys then charge.requests else 0)
            && ByteCount(next.states, k)
               == ByteCount(w.table.states, k) + (if allowed && k in charge.keys then charge.bytes else 0)
  {
    var swept := SweepStep(w.table, e.now);
    PrepareKeepsCounts(swept.states, e.scopes, e.now, k);
    PrepareIsReady(swept.states, e.scopes, e.now);
  }

  // ----- conservation down the tree -----

  /** Who delegated to whom, by key. */
  type Parents = string -> Option<string>

  /** The keys of a charge are a whole chain: with each key its parent, and one child at most of any key. */
  ghost predicate ChainShaped(parents: Parents, keys: set<string>) {
    && (forall k :: k in keys && parents(k).Some? ==> parents(k).value in keys)
    && (forall j, k :: j in keys && k in keys && parents(j).Some? && parents(j) == parents(k) ==> j == k)
  }

  predicate HangsBelow(parents: Parents, scopes: seq<Scope>, i: nat)
    requires i < |scopes|
  {
    parents(scopes[i].key) == if i == 0 then None else Some(scopes[i - 1].key)
  }

  /** A scope list running from a root down the tree is chain shaped. */
  lemma ChainsAreChainShaped(parents: Parents, scopes: seq<Scope>)
    requires forall i, j :: 0 <= i < j < |scopes| ==> scopes[i].key != scopes[j].key
    requires forall i :: 0 <= i < |scopes| ==> HangsBelow(parents, scopes, i)
    ensures ChainShaped(parents, Keys(scopes))
  {
    forall k | k in Keys(scopes) && parents(k).Some? ensures parents(k).value in Keys(scopes) {
      var i :| 0 <= i < |scopes| && scopes[i].key == k;
      assert HangsBelow(parents, scopes, i);
      var above := i - 1;
      assert 0 <= above < |scopes| && scopes[above].key == parents(k).value;
    }
    forall j, k | j in Keys(scopes) && k in Keys(scopes) && parents(j).Some? && parents(j) == parents(k) ensures j == k {
      var a :| 0 <= a < |scopes| && scopes[a].key == j;
      var b :| 0 <= b < |scopes| && scopes[b].key == k;
      assert HangsBelow(parents, scopes, a);
      assert HangsBelow(parents, scopes, b);
      assert scopes[a - 1].key == scopes[b - 1].key;
    }
  }

  ghost function Uses(log: seq<Charge>, keys: set<string>): map<string, nat> {
    map k | k in keys :: Requests(log, k)
  }

  ghost function ByteUses(log: seq<Charge>, keys: set<string>): map<string, nat> {
    map k | k in keys :: Bytes(log, k)
  }

  /** Adding `extra` to the entry of one key, if it is there, adds at most `extra` to the total. */
  lemma TotalOneRaised(m: map<string, nat>, n: map<string, nat>, k: string, extra: nat)
    requires m.Keys == n.Keys
    requires forall j :: j in m ==> n[j] == m[j] + (if j == k then extra else 0)
    ensures Total(n) == Total(m) + (if k in m then extra else 0)
  {
    if k in m {
      TotalRemove(m, k);
      TotalRemove(n, k);
      assert m - {k} == n - {k};
    } else {
      assert m == n;
    }
  }

  /** Whatever was admitted for the children of a key was admitted for the key. */
  lemma {:induction false} ParentCoversChildren(parents: Parents, log: seq<Charge>, parent: string, children: set<string>)
    requires forall i :: 0 <= i < |log| ==> ChainShaped(parents, log[i].keys)
    requires forall c :: c in children ==> parents(c) == Some(parent)
    ensures Total(Uses(log, children)) <= Requests(log, parent)
    ensures Total(ByteUses(log, children)) <= Bytes(log, parent)
    decreases |log|
  {
    if log == [] {
      AllZero(Uses(log, children));
      AllZero(ByteUses(log, children));
    } else {
      var front, last := log[..|log| - 1], log[|log| - 1];
      ParentCoversChildren(parents, front, parent, children);
      if c :| c in children && c in last.keys {
        TotalOneRaised(Uses(front, children), Uses(log, children), c, last.requests);
        TotalOneRaised(ByteUses(front, children), ByteUses(log, children), c, last.bytes);
      } else {
        assert Uses(log, children) == Uses(front, children);
        assert ByteUses(log, children) == ByteUses(front, children);
      }
    }
  }

  lemma {:induction false} AllZero(m: map<string, nat>)
    requires forall k :: k in m ==> m[k] == 0
    ensures Total(m) == 0
    decreases |m|
  {
    if m != map[] {
      var k :| k in m;
      TotalRemove(m, k);
      AllZero(m - {k});
    }
  }

  lemma {:induction false} LogIsChainShaped(parents: Parents, events: seq<Event>)
    requires forall i :: 0 <= i < |events| ==> ChainShaped(parents, Keys(events[i].scopes))
    ensures forall i :: 0 <= i < |After(START, events).log| ==> ChainShaped(parents, After(START, events).log[i].keys)
    decreases |events|
  {
    if events != [] {
      LogIsChainShaped(parents, events[..|events| - 1]);
    }
  }

  lemma CountersMatch(directory: Directory, w: World, k: string)
    requires WorldOk(directory, w) && k in w.table.states
    ensures w.table.states[k].requests == Requests(w.log, k) && w.table.states[k].bytes == Bytes(w.log, k)
  {
    hide BucketOk;
    hide RateOk;
    assert KeyOk(directory, w.table.states, w.log, w.clock, k);
  }

  /** After every proper run, the counters of a live key are the calls admitted for it in the whole run. */
  lemma CountersMatchLog(directory: Directory, events: seq<Event>, k: string)
    requires ProperRun(directory, events) && k in After(START, events).table.states
    ensures After(START, events).table.states[k].requests == Requests(After(START, events).log, k)
    ensures After(START, events).table.states[k].bytes == Bytes(After(START, events).log, k)
  {
    hide WorldOk;
    LimitsHoldForEver(directory, events);
    CountersMatch(directory, After(START, events), k);
  }

  ghost function RequestCounters(states: States, keys: set<string>): map<string, nat>
    requires keys <= states.Keys
  {
    map k | k in keys :: states[k].requests
  }

  ghost function ByteCounters(states: States, keys: set<string>): map<string, nat>
    requires keys <= states.Keys
  {
    map k | k in keys :: states[k].bytes
  }

  lemma CountersAreUses(directory: Directory, w: World, keys: set<string>)
    requires WorldOk(directory, w) && keys <= w.table.states.Keys
    ensures RequestCounters(w.table.states, keys) == Uses(w.log, keys)
    ensures ByteCounters(w.table.states, keys) == ByteUses(w.log, keys)
  {
    hide WorldOk;
    forall k | k in keys
      ensures w.table.states[k].requests == Requests(w.log, k) && w.table.states[k].bytes == Bytes(w.log, k)
    {
      CountersMatch(directory, w, k);
    }
  }

  /**
   Conservation: after any proper run of chain-shaped charges, the counters of a live key cover
   the sum of the counters of any of its live children.
   */
  lemma TreeConserves(directory: Directory, parents: Parents, events: seq<Event>, parent: string, children: set<string>)
    requires ProperRun(directory, events)
    requires forall i :: 0 <= i < |events| ==> ChainShaped(parents, Keys(events[i].scopes))
    requires forall c :: c in children ==> parents(c) == Some(parent)
    requires parent in After(START, events).table.states && children <= After(START, events).table.states.Keys
    ensures var states := After(START, events).table.states;
            && Total(RequestCounters(states, children)) <= states[parent].requests
            && Total(ByteCounters(states, children)) <= states[parent].bytes
  {
    hide WorldOk;
    hide After;
    hide ChainShaped;
    hide BudgetsOk;
    hide RateOk;
    var w := After(START, events);
    LimitsHoldForEver(directory, events);
    LogIsChainShaped(parents, events);
    ParentCoversChildren(parents, w.log, parent, children);
    CountersAreUses(directory, w, children);
    CountersMatch(directory, w, parent);
  }
}
