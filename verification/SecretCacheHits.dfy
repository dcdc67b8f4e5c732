/** The cache does cache: what was just used is hit again until it expires, and not after it was invalidated. */
module SecretCacheHits {
  import opened Octets
  import opened SecretCache
  import opened SecretCacheRuns

  /** The references used more recently than an entry. */
  function Ahead(lru: seq<Entry>, e: Entry): set<string> {
    if lru == [] || lru[0] == e then {} else {lru[0].reference} + Ahead(lru[1..], e)
  }

  lemma {:induction false} AheadWithout(lru: seq<Entry>, x: Entry, e: Entry)
    requires x != e
    ensures Ahead(Without(lru, x), e) <= Ahead(lru, e)
  {
    if lru != [] {
      AheadWithout(lru[1..], x, e);
      if lru[0] != x {
        assert ([lru[0]] + Without(lru[1..], x))[1..] == Without(lru[1..], x);
      }
    }
  }

  lemma AheadCons(x: Entry, lru: seq<Entry>, e: Entry)
    ensures Ahead([x] + lru, e) == if x == e then {} else {x.reference} + Ahead(lru, e)
  {
    assert ([x] + lru)[1..] == lru;
  }

  lemma {:induction false} NotAhead(lru: seq<Entry>, e: Entry, r: string)
    requires forall i :: 0 <= i < |lru| ==> lru[i].reference != r
    ensures r !in Ahead(lru, e)
  {
    if lru != [] && lru[0] != e {
      NotAhead(lru[1..], e, r);
    }
  }

  /** Everything in a list is ahead of its last entry. */
  lemma {:induction false} AllAheadOfLast(lru: seq<Entry>)
    requires OncePerReference(lru) && lru != []
    ensures |Ahead(lru, lru[|lru| - 1])| == |lru| - 1
    decreases |lru|
  {
    if |lru| > 1 {
      var rest := lru[1..];
      AllAheadOfLast(rest);
      assert rest[|rest| - 1] == lru[|lru| - 1];
      NotAhead(rest, rest[|rest| - 1], lru[0].reference);
    }
  }

  lemma NotLast(lru: seq<Entry>, e: Entry, others: set<string>)
    requires OncePerReference(lru) && Ahead(lru, e) <= others && |others| + 1 < |lru|
    ensures lru[|lru| - 1] != e
  {
    hide Ahead;
    AllAheadOfLast(lru);
    SubsetCardinality(Ahead(lru, e), others);
  }

  /** The entry is stored, and only these references were used since it was. */
  ghost predicate Recently(s: State, e: Entry, others: set<string>) {
    e in s.lru && Ahead(s.lru, e) <= others
  }

  lemma DetachSpares(s: State, x: Entry, e: Entry, others: set<string>)
    requires Recently(s, e, others) && x != e
    ensures Recently(Detached(s, x), e, others)
  {
    WithoutMembers(s.lru, x);
    AheadWithout(s.lru, x, e);
  }

  lemma UseSpares(s: State, x: Entry, e: Entry, others: set<string>)
    requires Recently(s, e, others)
    ensures x == e ==> Recently(Used(s, x), e, others)
    ensures x != e ==> Recently(Used(s, x), e, others + {x.reference})
  {
    WithoutMembers(s.lru, x);
    AheadCons(x, Without(s.lru, x), e);
    if x != e {
      AheadWithout(s.lru, x, e);
    }
  }

  lemma StoreSpares(s: State, x: Entry, e: Entry, others: set<string>)
    requires Recently(s, e, others) && x != e
    ensures Recently(Stored(s, x), e, others + {x.reference})
  {
    AheadCons(x, s.lru, e);
  }

  /** Eviction takes from the back, where nothing is that was used after fewer than `max` others. */
  lemma {:induction false} EvictionSpares(s: State, max: nat, e: Entry, others: set<string>)
    requires Core(s) && Recently(s, e, others) && |others| < max
    ensures Recently(Evicted(s, max), e, others)
    decreases |s.lru|
  {
    hide Core;
    hide Recently;
    hide Detached;
    CoreSizes(s);
    if |s.entries| > max {
      OneEvicted(s, e, others);
      EvictionSpares(Detached(s, s.lru[|s.lru| - 1]), max, e, others);
    }
  }

  lemma OneEvicted(s: State, e: Entry, others: set<string>)
    requires Core(s) && Recently(s, e, others) && |others| + 1 < |s.lru|
    ensures Core(Detached(s, s.lru[|s.lru| - 1]))
    ensures Recently(Detached(s, s.lru[|s.lru| - 1]), e, others)
    ensures |Detached(s, s.lru[|s.lru| - 1]).lru| < |s.lru|
  {
    hide Core;
    hide Recently;
    hide Without;
    var oldest := s.lru[|s.lru| - 1];
    NotOldest(s, e, others);
    WithoutShrinks(s.lru, oldest);
    DetachedKeeps(s, oldest);
    DetachSpares(s, oldest, e, others);
  }

  lemma NotOldest(s: State, e: Entry, others: set<string>)
    requires Core(s) && Recently(s, e, others) && |others| + 1 < |s.lru|
    ensures s.lru[|s.lru| - 1] != e
  {
    hide Ahead;
    hide Intact;
    hide Accounted;
    hide InFlight;
    hide Honest;
    hide InOrder;
    NotLast(s.lru, e, others);
  }

  // ----- one event -----

  /** The event leaves the entry alone: no call finds it expired, and nobody invalidates, purges or closes. */
  predicate Spares(s: State, ev: Event, r: string, expires: int) {
    match ev
    case Lookup(reference, now) => reference == r ==> now < expires
    case Insert(id, now) => id in s.secrets && s.secrets[id].reference == r ==> now < expires
    case Invalidate(reference) => reference != r
    case Purge => false
    case Close => false
    case _ => true
  }

  /** The references other than this one that were used after that point of the log. */
  function UsedSince(uses: seq<string>, from: nat, r: string): set<string> {
    set i | 0 <= i < |uses| && from <= i && uses[i] != r :: uses[i]
  }

  lemma UsedSinceGrows(uses: seq<string>, more: seq<string>, from: nat, r: string)
    requires uses <= more
    ensures UsedSince(uses, from, r) <= UsedSince(more, from, r)
  {
    forall x | x in UsedSince(uses, from, r) ensures x in UsedSince(more, from, r) {
      var i :| 0 <= i < |uses| && from <= i && uses[i] != r && uses[i] == x;
      assert more[i] == x;
    }
  }

  lemma UsedNext(uses: seq<string>, x: string, from: nat, r: string)
    requires from <= |uses|
    ensures UsedSince(uses + [x], from, r) == UsedSince(uses, from, r) + if x == r then {} else {x}
  {
    var longer := uses + [x];
    assert longer[|uses|] == x;
    forall y | y in UsedSince(uses, from, r) ensures y in UsedSince(longer, from, r) {
      var i :| 0 <= i < |uses| && from <= i && uses[i] != r && uses[i] == y;
      assert longer[i] == y;
    }
  }

  /** The entry is still in the cache with its secret, and its use was the last before all these. */
  ghost predicate Safe(s: State, e: Entry, secret: Secret, from: nat) {
    && from <= |s.uses| && e.secret in s.secrets && s.secrets[e.secret] == secret
    && Recently(s, e, UsedSince(s.uses, from, e.reference))
  }

  lemma LeaseSpares(o: Settings, s: State, x: Entry, e: Entry, secret: Secret, from: nat)
    requires Invariant(o, s) && x in s.lru && x.secret in s.secrets && Safe(s, e, secret, from)
    ensures Safe(Lease(s, x).0, e, secret, from)
  {
    hide Invariant;
    hide Without;
    UsedNext(s.uses, x.reference, from, e.reference);
    UseSpares(s, x, e, UsedSince(s.uses, from, e.reference));
    OnlyEntry(o, s, x, e);
  }

  lemma OnlyEntry(o: Settings, s: State, x: Entry, e: Entry)
    requires Invariant(o, s) && x in s.lru && e in s.lru
    ensures x.reference == e.reference ==> x == e
    ensures e.reference in s.entries && s.entries[e.reference] == e
    ensures e.secret in s.secrets && e.secret !in s.pending && e.secret !in s.loaded
  {
    assert IntactEntry(s, e.reference, e.secret);
  }

  lemma LookupSpares(o: Settings, s: State, reference: string, now: int, e: Entry, secret: Secret, from: nat)
    requires Invariant(o, s) && Backed(s) && Safe(s, e, secret, from) && Spares(s, Lookup(reference, now), e.reference, e.expires)
    ensures Safe(LookupStep(o, s, reference, now).0, e, secret, from)
  {
    hide Invariant;
    hide Without;
    OnlyEntry(o, s, e, e);
    if reference in s.entries {
      EntryListed(o, s, reference);
      var x := s.entries[reference];
      if now < x.expires {
        LeaseSpares(o, s, x, e, secret, from);
      } else {
        DetachSpares(s, x, e, UsedSince(s.uses, from, e.reference));
      }
    }
  }

  lemma InsertSpares(o: Settings, s: State, id: SecretId, now: int, e: Entry, secret: Secret, from: nat)
    requires Invariant(o, s) && Backed(s) && Safe(s, e, secret, from) && Spares(s, Insert(id, now), e.reference, e.expires)
    requires |UsedSince(InsertStep(o, s, id, now).0.uses, from, e.reference)| < o.max
    ensures Safe(InsertStep(o, s, id, now).0, e, secret, from)
  {
    hide Invariant;
    hide Without;
    hide Evicted;
    OnlyEntry(o, s, e, e);
    if id in s.loaded {
      LoadedKnown(o, s, id);
      var reference := s.secrets[id].reference;
      DeclinedKeeps(o, s, id);
      assert Safe(Declined(s, id), e, secret, from);
      if s.closed {
      } else if reference in s.entries && now < s.entries[reference].expires {
        EntryListed(o, s, reference);
        LeaseSpares(o, Declined(s, id), s.entries[reference], e, secret, from);
      } else {
        StoringSpares(o, s, id, now, e, secret, from);
      }
    }
  }

  lemma StoringSpares(o: Settings, s: State, id: SecretId, now: int, e: Entry, secret: Secret, from: nat)
    requires Invariant(o, s) && Backed(s) && Safe(s, e, secret, from) && id in s.loaded && id in s.secrets && !s.closed
    requires e.reference in s.entries && s.entries[e.reference] == e && e.secret != id
    requires s.secrets[id].reference in s.entries ==> s.entries[s.secrets[id].reference].expires <= now
    requires s.secrets[id].reference != e.reference
    requires |UsedSince(InsertStep(o, s, id, now).0.uses, from, e.reference)| < o.max
    ensures Safe(InsertStep(o, s, id, now).0, e, secret, from)
  {
    hide Invariant;
    hide Without;
    hide Evicted;
    hide Core;
    hide Ahead;
    var reference := s.secrets[id].reference;
    var x := Entry(reference, id, now + o.ttl);
    var others := UsedSince(s.uses, from, e.reference);
    var offered := s.(loaded := s.loaded - {id});
    var room := if reference in s.entries then Detached(offered, s.entries[reference]) else offered;
    assert Recently(offered, e, others);
    if reference in s.entries {
      EntryListed(o, s, reference);
      DetachSpares(offered, s.entries[reference], e, others);
    }
    StoreSpares(room, x, e, others);
    UsedNext(s.uses, reference, from, e.reference);
    RoomIsCore(o, s, id, x);
    EvictedKeepsUses(Stored(room, x), o.max);
    EvictedKeepsRest(Stored(room, x), o.max);
    EvictionSpares(Stored(room, x), o.max, e, others + {reference});
  }

  lemma RoomIsCore(o: Settings, s: State, id: SecretId, e: Entry)
    requires Invariant(o, s) && id in s.loaded && id in s.secrets && e.secret == id && e.reference == s.secrets[id].reference
    ensures Core(Stored(
                   if e.reference in s.entries then Detached(s.(loaded := s.loaded - {id}), s.entries[e.reference])
                   else s.(loaded := s.loaded - {id}), e))
  {
    hide Core;
    hide Matched;
    hide Intact;
    hide Accounted;
    hide InFlight;
    hide Honest;
    hide InOrder;
    ClearedKeeps(o, s, id, e.reference);
    NotPending(o, s, id, e.reference);
    TakenBackKeeps(o, Cleared(s, id, e.reference), e);
  }

  lemma {:induction false} EvictedKeepsUses(s: State, max: nat)
    ensures Evicted(s, max).uses == s.uses
    decreases |s.lru|
  {
    if |s.entries| > max && s.lru != [] {
      var oldest := s.lru[|s.lru| - 1];
      WithoutShrinks(s.lru, oldest);
      EvictedKeepsUses(Detached(s, oldest), max);
    }
  }

  lemma NextSpares(o: Settings, s: State, ev: Event, e: Entry, secret: Secret, from: nat)
    requires Invariant(o, s) && Backed(s) && Safe(s, e, secret, from) && Spares(s, ev, e.reference, e.expires)
    requires |UsedSince(Next(o, s, ev).0.uses, from, e.reference)| < o.max
    ensures Safe(Next(o, s, ev).0, e, secret, from)
  {
    hide Invariant;
    hide Without;
    hide Evicted;
    OnlyEntry(o, s, e, e);
    match ev {
      case Lookup(reference, now) => LookupSpares(o, s, reference, now, e, secret, from);
      case Insert(id, now) => InsertSpares(o, s, id, now, e, secret, from);
      case Invalidate(reference) =>
        if reference in s.entries {
          EntryListed(o, s, reference);
          DetachSpares(s, s.entries[reference], e, UsedSince(s.uses, from, e.reference));
        }
      case Load(_, _, _) =>
      case Destroy(_) =>
    }
  }

  lemma UsesGrow(o: Settings, s: State, ev: Event)
    requires Invariant(o, s) && Backed(s)
    ensures s.uses <= Next(o, s, ev).0.uses
  {
    hide Invariant;
    hide Without;
    hide Evicted;
    if ev.Insert? && ev.id in s.loaded {
      LoadedKnown(o, s, ev.id);
      var reference := s.secrets[ev.id].reference;
      var offered := s.(loaded := s.loaded - {ev.id});
      var room := if reference in s.entries then Detached(offered, s.entries[reference]) else offered;
      EvictedKeepsUses(Stored(room, Entry(reference, ev.id, ev.now + o.ttl)), o.max);
    }
  }

  // ----- runs -----

  /** No event of `more`, where it comes after `run`, touches the reference's entry, which expires then. */
  ghost predicate LeftAlone(o: Settings, run: seq<Event>, more: seq<Event>, r: string, expires: int) {
    forall i :: 0 <= i < |more| ==> Spares(After(o, run + more[..i]), more[i], r, expires)
  }

  lemma {:induction false} StaysSafe(o: Settings, run: seq<Event>, more: seq<Event>, e: Entry, secret: Secret, from: nat)
    requires Safe(After(o, run), e, secret, from) && LeftAlone(o, run, more, e.reference, e.expires)
    requires |UsedSince(After(o, run + more).uses, from, e.reference)| < o.max
    ensures Safe(After(o, run + more), e, secret, from)
    decreases |more|
  {
    hide Invariant;
    hide Next;
    hide Safe;
    hide Spares;
    if more == [] {
      assert run + more == run;
    } else {
      var last := |more| - 1;
      var fewer := more[..last];
      assert (run + more)[..|run| + last] == run + fewer;
      var before := After(o, run + fewer);
      InvariantBacked(o, before);
      UsesGrow(o, before, more[last]);
      UsedSinceGrows(before.uses, After(o, run + more).uses, from, e.reference);
      SubsetCardinality(UsedSince(before.uses, from, e.reference), UsedSince(After(o, run + more).uses, from, e.reference));
      forall i | 0 <= i < last ensures Spares(After(o, run + fewer[..i]), fewer[i], e.reference, e.expires) {
        assert fewer[..i] == more[..i];
      }
      StaysSafe(o, run, fewer, e, secret, from);
      NextSpares(o, before, more[last], e, secret, from);
    }
  }

  lemma SafeIsHit(o: Settings, s: State, e: Entry, secret: Secret, from: nat, now: int)
    requires Invariant(o, s) && Backed(s) && Safe(s, e, secret, from) && now < e.expires
    ensures LookupStep(o, s, e.reference, now).1 == Hit(secret.value, e.expires)
  {
    OnlyEntry(o, s, e, e);
    assert IntactEntry(s, e.reference, e.secret);
  }

  /** A hit or a new entry is at the front of the cache, with the value and the expiry it was answered with. */
  ghost predicate InFront(s: State, e: Entry, secret: Secret) {
    && s.lru != [] && s.lru[0] == e && e.secret in s.secrets && s.secrets[e.secret] == secret
  }

  lemma FrontIsSafe(s: State, e: Entry, secret: Secret)
    requires InFront(s, e, secret)
    ensures Safe(s, e, secret, |s.uses|)
  {
  }

  /** The reference a call is about. */
  function Subject(s: State, ev: Event): string
    requires ev.Lookup? || (ev.Insert? && ev.id in s.secrets)
  {
    if ev.Lookup? then ev.reference else s.secrets[ev.id].reference
  }

  lemma LookupFronts(o: Settings, s: State, reference: string, now: int) returns (e: Entry, secret: Secret)
    requires Invariant(o, s) && Backed(s) && LookupStep(o, s, reference, now).1.Hit?
    ensures InFront(LookupStep(o, s, reference, now).0, e, secret) && e.reference == reference
    ensures LookupStep(o, s, reference, now).1 == Hit(secret.value, e.expires)
  {
    hide Invariant;
    hide Without;
    EntryListed(o, s, reference);
    e := s.entries[reference];
    secret := s.secrets[e.secret];
  }

  lemma InsertFronts(o: Settings, s: State, id: SecretId, now: int) returns (e: Entry, secret: Secret)
    requires Invariant(o, s) && Backed(s) && id in s.loaded && id in s.secrets && InsertStep(o, s, id, now).1.Hit?
    ensures InFront(InsertStep(o, s, id, now).0, e, secret) && e.reference == s.secrets[id].reference
    ensures InsertStep(o, s, id, now).1 == Hit(secret.value, e.expires)
  {
    hide Invariant;
    hide Without;
    hide Evicted;
    var reference := s.secrets[id].reference;
    if reference in s.entries && now < s.entries[reference].expires {
      EntryListed(o, s, reference);
      e := s.entries[reference];
      secret := s.secrets[e.secret];
    } else {
      e := Entry(reference, id, now + o.ttl);
      secret := s.secrets[id];
      var offered := s.(loaded := s.loaded - {id});
      var room := if reference in s.entries then Detached(offered, s.entries[reference]) else offered;
      EvictedKeepsRest(Stored(room, e), o.max);
      StoresWhenLoaded(o, s, id);
      RoomIsCore(o, s, id, e);
      FrontStays(Stored(room, e), o.max, e);
    }
  }

  lemma StoresWhenLoaded(o: Settings, s: State, id: SecretId)
    requires Invariant(o, s) && id in s.loaded
    ensures o.max > 0
  {
  }

  lemma FrontStays(s: State, max: nat, e: Entry)
    requires Core(s) && max > 0 && s.lru != [] && s.lru[0] == e
    ensures Evicted(s, max).lru != [] && Evicted(s, max).lru[0] == e
  {
    hide Core;
    hide Evicted;
    EvictionSpares(s, max, e, {});
  }

  /** A value that was leased or stored is hit again, with the same expiry, through every run that leaves it alone
      and in which fewer other references are used than the cache can hold. */
  lemma HitAgain(o: Settings, run: seq<Event>, ev: Event, more: seq<Event>, now: int)
    requires ev.Lookup? || (ev.Insert? && ev.id in After(o, run).loaded && ev.id in After(o, run).secrets)
    requires AnswerTo(o, run, ev).Hit? && now < AnswerTo(o, run, ev).expires
    requires LeftAlone(o, run + [ev], more, Subject(After(o, run), ev), AnswerTo(o, run, ev).expires)
    requires |UsedSince(After(o, run + [ev] + more).uses, |After(o, run + [ev]).uses|, Subject(After(o, run), ev))| < o.max
    ensures AnswerTo(o, run + [ev] + more, Lookup(Subject(After(o, run), ev), now)) == AnswerTo(o, run, ev)
  {
    hide Invariant;
    hide LookupStep;
    hide InsertStep;
    hide Safe;
    hide InFront;
    hide LeftAlone;
    hide UsedSince;
    var s := After(o, run);
    InvariantBacked(o, s);
    assert (run + [ev])[..|run|] == run;
    var t := After(o, run + [ev]);
    var e: Entry;
    var secret: Secret;
    if ev.Lookup? {
      e, secret := LookupFronts(o, s, ev.reference, ev.now);
    } else {
      e, secret := InsertFronts(o, s, ev.id, ev.now);
    }
    FrontIsSafe(t, e, secret);
    StaysSafe(o, run + [ev], more, e, secret, |t.uses|);
    InvariantBacked(o, After(o, run + [ev] + more));
    SafeIsHit(o, After(o, run + [ev] + more), e, secret, |t.uses|, now);
  }

  /** After an invalidation, a purge or a closing, the next lookup is no hit. */
  lemma NoHitAfterRemoval(o: Settings, run: seq<Event>, ev: Event, reference: string, now: int)
    requires ev.Purge? || ev.Close? || ev == Invalidate(reference)
    ensures !AnswerTo(o, run + [ev], Lookup(reference, now)).Hit?
  {
    hide Invariant;
    var s := After(o, run);
    InvariantBacked(o, s);
    assert (run + [ev])[..|run|] == run;
    if ev.Invalidate? && reference in s.entries {
      EntryListed(o, s, reference);
    }
  }

  /** Until the cache is closed, every loaded secret that is offered ends in a hit. */
  lemma OfferIsHit(o: Settings, run: seq<Event>, id: SecretId, now: int)
    requires id in After(o, run).loaded
    ensures AnswerTo(o, run, Insert(id, now)) == Closed <==> After(o, run).closed
    ensures AnswerTo(o, run, Insert(id, now)).Hit? <==> !After(o, run).closed
  {
    hide Evicted;
    hide Matched;
    hide InOrder;
    var s := After(o, run);
    InvariantBacked(o, s);
    LoadedKnown(o, s, id);
    if s.secrets[id].reference in s.entries {
      LeaseIsHonest(o, s, s.secrets[id].reference);
    }
  }

  // ----- expiry -----

  /** Some insertion of the run gave this expiry. */
  ghost predicate Timed(o: Settings, run: seq<Event>, expires: int) {
    exists i :: 0 <= i < |run| && run[i].Insert? && expires == run[i].now + o.ttl
  }

  lemma {:induction false} EvictedAmong(s: State, max: nat, x: Entry)
    ensures x in Evicted(s, max).lru ==> x in s.lru
    decreases |s.lru|
  {
    if |s.entries| > max && s.lru != [] {
      var oldest := s.lru[|s.lru| - 1];
      WithoutShrinks(s.lru, oldest);
      WithoutMembers(s.lru, oldest);
      EvictedAmong(Detached(s, oldest), max, x);
    }
  }

  lemma NextEntries(o: Settings, s: State, ev: Event, x: Entry)
    requires Invariant(o, s) && Backed(s) && x in Next(o, s, ev).0.lru
    ensures x in s.lru || (ev.Insert? && x.expires == ev.now + o.ttl)
  {
    hide Invariant;
    hide Evicted;
    match ev {
      case Lookup(reference, now) =>
        if reference in s.entries {
          EntryListed(o, s, reference);
          WithoutMembers(s.lru, s.entries[reference]);
        }
      case Insert(id, now) =>
        if id in s.loaded {
          LoadedKnown(o, s, id);
          var reference := s.secrets[id].reference;
          if reference in s.entries {
            EntryListed(o, s, reference);
            WithoutMembers(s.lru, s.entries[reference]);
          }
          var offered := s.(loaded := s.loaded - {id});
          var room := if reference in s.entries then Detached(offered, s.entries[reference]) else offered;
          EvictedAmong(Stored(room, Entry(reference, id, now + o.ttl)), o.max, x);
        }
      case Invalidate(reference) =>
        if reference in s.entries {
          WithoutMembers(s.lru, s.entries[reference]);
        }
      case _ =>
    }
  }

  lemma {:induction false} EntriesAreTimed(o: Settings, run: seq<Event>, e: Entry)
    requires e in After(o, run).lru
    ensures Timed(o, run, e.expires)
    decreases |run|
  {
    hide Invariant;
    hide Next;
    var last := |run| - 1;
    var before := After(o, run[..last]);
    InvariantBacked(o, before);
    NextEntries(o, before, run[last], e);
    if e in before.lru {
      EntriesAreTimed(o, run[..last], e);
      var i :| 0 <= i < last && run[..last][i].Insert? && e.expires == run[..last][i].now + o.ttl;
      assert run[i].Insert? && e.expires == run[i].now + o.ttl;
    }
  }

  /** What a lookup hits expires one lifetime after an insertion of the run, however often it was hit since. */
  lemma HitsExpire(o: Settings, run: seq<Event>, reference: string, now: int)
    requires AnswerTo(o, run, Lookup(reference, now)).Hit?
    ensures Timed(o, run, AnswerTo(o, run, Lookup(reference, now)).expires)
  {
    hide Invariant;
    hide Timed;
    var s := After(o, run);
    InvariantBacked(o, s);
    EntryListed(o, s, reference);
    EntriesAreTimed(o, run, s.entries[reference]);
  }
}
