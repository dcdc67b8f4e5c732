/** The cache over whole runs: any interleaving of lookups, loads, insertions, destructions, invalidations, purges and closes. */
module SecretCacheRuns {
  import opened SecretCache

  datatype Event =
    | Lookup(reference: string, now: int)
    | Load(id: SecretId, reference: string, value: string)
    | Insert(id: SecretId, now: int)
    | Destroy(id: SecretId)
    | Invalidate(reference: string)
    | Purge
    | Close

  const EMPTY := State(map[], [], false, map[], {}, {}, {}, [])

  function Next(o: Settings, s: State, e: Event): (State, Answer)
    requires Backed(s)
  {
    match e
    case Lookup(reference, now) => LookupStep(o, s, reference, now)
    case Load(id, reference, value) => (LoadStep(o, s, id, reference, value), Done)
    case Insert(id, now) => InsertStep(o, s, id, now)
    case Destroy(id) => (DestroyStep(s, id), Done)
    case Invalidate(reference) => (InvalidateStep(s, reference), Done)
    case Purge => (DetachStep(s, false), Done)
    case Close => (DetachStep(s, true), Done)
  }

  /** One step of any call keeps the invariant. */
  lemma NextKeeps(o: Settings, s: State, e: Event)
    requires Invariant(o, s)
    ensures Backed(s) && Invariant(o, Next(o, s, e).0)
  {
    hide Matched;
    hide Intact;
    hide Accounted;
    hide InFlight;
    hide Honest;
    hide InOrder;
    hide Bounded;
    InvariantBacked(o, s);
    match e
    case Lookup(reference, now) => LookupKeeps(o, s, reference, now);
    case Load(id, reference, value) => LoadKeeps(o, s, id, reference, value);
    case Insert(id, now) => InsertKeeps(o, s, id, now);
    case Destroy(id) => DestroyKeeps(o, s, id);
    case Invalidate(reference) =>
      if reference in s.entries {
        DetachKeeps(o, s, reference);
      }
    case Purge => DetachAllKeeps(o, s, false);
    case Close => DetachAllKeeps(o, s, true);
  }

  /** The state after a run, from the empty cache. */
  ghost function After(o: Settings, run: seq<Event>): (s: State)
    ensures Invariant(o, s)
    decreases |run|
  {
    if run == [] then EMPTY
    else
      var before := After(o, run[..|run| - 1]);
      NextKeeps(o, before, run[|run| - 1]);
      Next(o, before, run[|run| - 1]).0
  }

  /** What a call at this point of a run is answered. */
  ghost function AnswerTo(o: Settings, run: seq<Event>, e: Event): Answer {
    InvariantBacked(o, After(o, run));
    Next(o, After(o, run), e).1
  }

  // ---- answers ----

  lemma LeaseIsHonest(o: Settings, s: State, reference: string)
    requires Invariant(o, s) && reference in s.entries
    ensures s.entries[reference].secret in s.secrets
    ensures Acquire(s, s.entries[reference]).Hit?
    ensures (reference, Acquire(s, s.entries[reference]).value) in s.given
  {
    EntryListed(o, s, reference);
  }

  lemma LookupIsHonest(o: Settings, s: State, reference: string, now: int)
    requires Invariant(o, s) && Backed(s)
    ensures !LookupStep(o, s, reference, now).1.Released?
    ensures LookupStep(o, s, reference, now).1.Hit? ==>
              && now < LookupStep(o, s, reference, now).1.expires
              && (reference, LookupStep(o, s, reference, now).1.value) in s.given
  {
    hide Invariant;
    if reference in s.entries {
      LeaseIsHonest(o, s, reference);
    }
  }

  lemma InsertIsHonest(o: Settings, s: State, id: SecretId, now: int)
    requires Invariant(o, s) && Backed(s) && id in s.loaded
    ensures id in s.secrets
    ensures !InsertStep(o, s, id, now).1.Released?
    ensures InsertStep(o, s, id, now).1.Hit? ==>
              && now < InsertStep(o, s, id, now).1.expires
              && (s.secrets[id].reference, InsertStep(o, s, id, now).1.value) in s.given
  {
    hide Evicted;
    hide Matched;
    hide InOrder;
    LoadedKnown(o, s, id);
    var reference := s.secrets[id].reference;
    if reference in s.entries {
      LeaseIsHonest(o, s, reference);
    }
  }

  // ---- runs ----

  ghost predicate Loaded(run: seq<Event>, reference: string, value: string) {
    exists i :: 0 <= i < |run| && run[i].Load? && run[i].reference == reference && run[i].value == value
  }

  lemma GivenGrows(o: Settings, s: State, e: Event)
    requires Invariant(o, s) && Backed(s)
    ensures Next(o, s, e).0.given <= s.given + if e.Load? then {(e.reference, e.value)} else {}
    ensures s.closed ==> Next(o, s, e).0.closed
  {
    hide Invariant;
    hide InsertStep;
    hide Without;
    if e.Insert? {
      InsertGives(o, s, e.id, e.now);
    }
  }

  lemma InsertGives(o: Settings, s: State, id: SecretId, now: int)
    requires Invariant(o, s) && Backed(s)
    ensures InsertStep(o, s, id, now).0.given == s.given && InsertStep(o, s, id, now).0.closed == s.closed
  {
    hide Invariant;
    hide Evicted;
    hide Without;
    if id in s.loaded {
      LoadedKnown(o, s, id);
      var reference := s.secrets[id].reference;
      var offered := s.(loaded := s.loaded - {id});
      var room := if reference in s.entries then Detached(offered, s.entries[reference]) else offered;
      EvictedKeepsRest(Stored(room, Entry(reference, id, now + o.ttl)), o.max);
    }
  }

  /** All that counts as given was loaded in the run. */
  lemma {:induction false} GivenWasLoaded(o: Settings, run: seq<Event>, reference: string, value: string)
    requires (reference, value) in After(o, run).given
    ensures Loaded(run, reference, value)
    decreases |run|
  {
    hide Invariant;
    hide Next;
    var last := |run| - 1;
    var before := After(o, run[..last]);
    InvariantBacked(o, before);
    GivenGrows(o, before, run[last]);
    if (reference, value) in before.given {
      GivenWasLoaded(o, run[..last], reference, value);
      var i :| 0 <= i < last && run[..last][i].Load? && run[..last][i].reference == reference && run[..last][i].value == value;
      assert run[i].Load? && run[i].reference == reference;
    }
  }

  /** Whatever the interleaving, a hit gives what the backend gave for that reference earlier in the run, and is
      not expired at the time the call sampled; and no lookup finds its secret destroyed. */
  lemma HitsAreGenuine(o: Settings, run: seq<Event>, reference: string, now: int)
    ensures !AnswerTo(o, run, Lookup(reference, now)).Released?
    ensures AnswerTo(o, run, Lookup(reference, now)).Hit? ==>
              && now < AnswerTo(o, run, Lookup(reference, now)).expires
              && Loaded(run, reference, AnswerTo(o, run, Lookup(reference, now)).value)
  {
    hide Invariant;
    hide LookupStep;
    var s := After(o, run);
    InvariantBacked(o, s);
    LookupIsHonest(o, s, reference, now);
    var answer := AnswerTo(o, run, Lookup(reference, now));
    if answer.Hit? {
      GivenWasLoaded(o, run, reference, answer.value);
    }
  }

  /** So does an insertion, whether it stores its own secret or finds that another call was faster. */
  lemma InsertionsAreGenuine(o: Settings, run: seq<Event>, id: SecretId, now: int)
    requires id in After(o, run).loaded
    ensures id in After(o, run).secrets
    ensures !AnswerTo(o, run, Insert(id, now)).Released?
    ensures AnswerTo(o, run, Insert(id, now)).Hit? ==>
              && now < AnswerTo(o, run, Insert(id, now)).expires
              && Loaded(run, After(o, run).secrets[id].reference, AnswerTo(o, run, Insert(id, now)).value)
  {
    hide Invariant;
    hide InsertStep;
    var s := After(o, run);
    InvariantBacked(o, s);
    InsertIsHonest(o, s, id, now);
    var answer := AnswerTo(o, run, Insert(id, now));
    if answer.Hit? {
      GivenWasLoaded(o, run, s.secrets[id].reference, answer.value);
    }
  }

  lemma ClosedRefuses(o: Settings, run: seq<Event>, reference: string, now: int)
    ensures After(o, run).closed ==> After(o, run).entries == map[]
    ensures After(o, run).closed ==> AnswerTo(o, run, Lookup(reference, now)) == Closed
  {
  }

  /** Once closed, for ever closed: nothing is stored and every lookup is refused. */
  lemma {:induction false} ClosedForEver(o: Settings, run: seq<Event>, more: seq<Event>, reference: string, now: int)
    requires After(o, run).closed
    ensures After(o, run + more).closed && After(o, run + more).entries == map[]
    ensures AnswerTo(o, run + more, Lookup(reference, now)) == Closed
    decreases |more|
  {
    hide Invariant;
    hide Next;
    ClosedRefuses(o, run + more, reference, now);
    if more == [] {
      assert run + more == run;
    } else {
      var last := |more| - 1;
      ClosedForEver(o, run, more[..last], reference, now);
      assert (run + more)[..|run| + last] == run + more[..last];
      var before := After(o, run + more[..last]);
      InvariantBacked(o, before);
      GivenGrows(o, before, more[last]);
    }
  }

  /** When a closed cache has no call in flight, every secret that was ever made is destroyed. */
  lemma NothingLeftBehind(o: Settings, run: seq<Event>, id: SecretId)
    requires After(o, run).closed && After(o, run).pending == {} && After(o, run).loaded == {}
    requires id in After(o, run).secrets
    ensures After(o, run).secrets[id].destroyed
  {
    var s := After(o, run);
    assert EntrySecrets(s) == {};
  }
}
