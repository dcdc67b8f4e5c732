/** The bounded cache of secrets: its state whenever the lock is free, and what each holder of the lock does to it. */
module SecretCache {
  import opened Recency

  type SecretId = nat

  /** A secret in memory: what the backend gave, for which reference, and whether it has been zeroed. */
  datatype Secret = Secret(reference: string, value: string, destroyed: bool)

  datatype Entry = Entry(reference: string, secret: SecretId, expires: int)

  /** Beside the cache's own fields: `pending` are the secrets some call has detached and is about to destroy,
      `loaded` those a call has loaded and not yet offered, `given` what the backend has answered so far, and
      `uses` the references of the entries used, the latest last. */
  datatype State = State(
    entries: map<string, Entry>, lru: seq<Entry>, closed: bool,
    secrets: map<SecretId, Secret>, pending: set<SecretId>, loaded: set<SecretId>,
    given: set<(string, string)>, uses: seq<string>)

  datatype Settings = Settings(ttl: int, max: nat) {
    predicate Stores() { ttl > 0 && max > 0 }
  }

  datatype Answer = Hit(value: string, expires: int) | Missed | Through | Closed | Released | Done

  // ---- the list ----

  function Without(lru: seq<Entry>, e: Entry): seq<Entry> {
    if lru == [] then []
    else if lru[0] == e then Without(lru[1..], e)
    else [lru[0]] + Without(lru[1..], e)
  }

  function References(lru: seq<Entry>): (references: seq<string>)
    ensures |references| == |lru|
  {
    seq(|lru|, i requires 0 <= i < |lru| => lru[i].reference)
  }

  ghost predicate OncePerReference(lru: seq<Entry>) {
    forall i, j :: 0 <= i < j < |lru| ==> lru[i].reference != lru[j].reference
  }

  /** The map and the list hold the same entries, once each. */
  ghost predicate Matched(entries: map<string, Entry>, lru: seq<Entry>) {
    && OncePerReference(lru)
    && (forall r :: r in entries ==> entries[r].reference == r && entries[r] in lru)
    && (forall e :: e in lru ==> e.reference in entries && entries[e.reference] == e)
  }

  lemma {:induction false} WithoutMembers(lru: seq<Entry>, e: Entry)
    ensures forall x :: x in Without(lru, e) <==> x in lru && x != e
  {
    if lru != [] {
      WithoutMembers(lru[1..], e);
      assert lru == [lru[0]] + lru[1..];
    }
  }

  lemma {:induction false} WithoutKeepsOnce(lru: seq<Entry>, e: Entry)
    requires OncePerReference(lru)
    ensures OncePerReference(Without(lru, e))
  {
    if lru != [] {
      WithoutKeepsOnce(lru[1..], e);
      WithoutMembers(lru[1..], e);
      var rest := Without(lru[1..], e);
      forall j | 0 <= j < |rest| ensures rest[j].reference != lru[0].reference {
        assert rest[j] in rest;
        assert rest[j] in lru[1..];
      }
    }
  }

  lemma {:induction false} NotAmong(lru: seq<Entry>, e: Entry)
    requires forall x :: x in lru ==> x.reference != e.reference
    ensures Without(lru, e) == lru
    decreases |lru|
  {
    if lru != [] {
      assert lru == [lru[0]] + lru[1..];
      NotAmong(lru[1..], e);
    }
  }

  lemma ReferenceNotAmong(lru: seq<Entry>, r: string)
    requires forall x :: x in lru ==> x.reference != r
    ensures r !in References(lru)
  {
    forall i | 0 <= i < |lru| ensures References(lru)[i] != r {
      assert lru[i] in lru;
    }
  }

  lemma WithoutFirst(lru: seq<Entry>)
    requires OncePerReference(lru) && lru != []
    ensures Without(lru, lru[0]) == lru[1..]
    ensures lru[0].reference !in References(lru[1..])
  {
    forall x | x in lru[1..] ensures x.reference != lru[0].reference {
      var i :| 0 <= i < |lru[1..]| && lru[1..][i] == x;
      assert lru[i + 1] == x;
    }
    NotAmong(lru[1..], lru[0]);
    ReferenceNotAmong(lru[1..], lru[0].reference);
  }

  lemma ReferencesCons(e: Entry, lru: seq<Entry>)
    ensures References([e] + lru) == [e.reference] + References(lru)
  {
  }

  /** Taking an entry from the list takes its reference from the references. */
  lemma {:induction false} WithoutIsMinus(lru: seq<Entry>, e: Entry)
    requires OncePerReference(lru) && e in lru
    ensures References(Without(lru, e)) == Minus(References(lru), e.reference)
    decreases |lru|
  {
    hide References;
    var first, rest := lru[0], lru[1..];
    assert lru == [first] + rest;
    ReferencesCons(first, rest);
    assert ([first.reference] + References(rest))[1..] == References(rest);
    if first == e {
      WithoutFirst(lru);
      MinusNothing(References(rest), e.reference);
    } else {
      var i :| 0 <= i < |rest| && rest[i] == e;
      assert lru[i + 1] == e;
      WithoutIsMinus(rest, e);
      ReferencesCons(first, Without(rest, e));
    }
  }

  lemma RemovedStaysMatched(entries: map<string, Entry>, lru: seq<Entry>, e: Entry)
    requires Matched(entries, lru) && e in lru
    ensures Matched(entries - {e.reference}, Without(lru, e))
  {
    WithoutMembers(lru, e);
    WithoutKeepsOnce(lru, e);
  }

  lemma AddedStaysMatched(entries: map<string, Entry>, lru: seq<Entry>, e: Entry)
    requires Matched(entries, lru) && e.reference !in entries
    ensures Matched(entries[e.reference := e], [e] + lru)
  {
    var longer := [e] + lru;
    forall i, j | 0 <= i < j < |longer| ensures longer[i].reference != longer[j].reference {
      assert longer[j] in lru;
    }
  }

  /** The list is as long as the map. */
  lemma {:induction false} MatchedSizes(entries: map<string, Entry>, lru: seq<Entry>)
    requires Matched(entries, lru)
    ensures |lru| == |entries|
    decreases |lru|
  {
    hide Without;
    if lru == [] {
      assert entries.Keys == {};
    } else {
      var r := lru[0].reference;
      RemovedStaysMatched(entries, lru, lru[0]);
      WithoutFirst(lru);
      MatchedSizes(entries - {r}, lru[1..]);
      OneLess(entries, r);
    }
  }

  lemma OneLess(entries: map<string, Entry>, r: string)
    requires r in entries
    ensures |entries| == |entries - {r}| + 1
  {
    assert entries.Keys == (entries - {r}).Keys + {r};
    assert |entries| == |entries.Keys| && |entries - {r}| == |(entries - {r}).Keys|;
  }

  // ---- the steps ----

  function Removed(s: State, e: Entry): State {
    s.(entries := s.entries - {e.reference}, lru := Without(s.lru, e))
  }

  /** Removes an entry and leaves its secret to be destroyed. */
  function Detached(s: State, e: Entry): State {
    Removed(s, e).(pending := s.pending + {e.secret})
  }

  function Used(s: State, e: Entry): State {
    s.(lru := [e] + Without(s.lru, e), uses := s.uses + [e.reference])
  }

  function Acquire(s: State, e: Entry): Answer
    requires e.secret in s.secrets
  {
    if s.secrets[e.secret].destroyed then Released else Hit(s.secrets[e.secret].value, e.expires)
  }

  ghost predicate Backed(s: State) {
    forall r :: r in s.entries ==> s.entries[r].secret in s.secrets
  }

  /** A live entry is leased and becomes the most recently used. */
  function Lease(s: State, e: Entry): (State, Answer)
    requires e.secret in s.secrets
  {
    if Acquire(s, e).Released? then (s, Released) else (Used(s, e), Acquire(s, e))
  }

  /** The first locked section of a get: a hit, or room for a load. */
  function LookupStep(o: Settings, s: State, reference: string, now: int): (State, Answer)
    requires Backed(s)
  {
    if s.closed then (s, Closed)
    else if !o.Stores() then (s, Through)
    else if reference in s.entries then
      var e := s.entries[reference];
      if now < e.expires then Lease(s, e) else (Detached(s, e), Missed)
    else (s, Missed)
  }

  /** The backend answers a get that missed; the answer becomes a secret not yet in the cache. */
  function LoadStep(o: Settings, s: State, id: SecretId, reference: string, value: string): State {
    if !o.Stores() || id in s.secrets then s
    else
      s.(secrets := s.secrets[id := Secret(reference, value, false)],
         loaded := s.loaded + {id},
         given := s.given + {(reference, value)})
  }

  /** Evicts from the back of the list while there are too many entries. */
  function Evicted(s: State, max: nat): State
    decreases |s.lru|
  {
    if |s.entries| <= max || s.lru == [] then s
    else
      var oldest := s.lru[|s.lru| - 1];
      WithoutShrinks(s.lru, oldest);
      Evicted(Detached(s, oldest), max)
  }

  lemma {:induction false} WithoutShrinks(lru: seq<Entry>, e: Entry)
    ensures |Without(lru, e)| <= |lru|
    ensures e in lru ==> |Without(lru, e)| < |lru|
  {
    if lru != [] {
      WithoutShrinks(lru[1..], e);
      assert lru == [lru[0]] + lru[1..];
    }
  }

  function Stored(s: State, e: Entry): State {
    s.(entries := s.entries[e.reference := e], lru := [e] + s.lru, uses := s.uses + [e.reference])
  }

  /** The second locked section of a get: the loaded secret is offered to the cache. */
  function InsertStep(o: Settings, s: State, id: SecretId, now: int): (State, Answer)
    requires Backed(s)
  {
    if id !in s.loaded || id !in s.secrets then (s, Done)
    else
      var offered := s.(loaded := s.loaded - {id});
      var reference := s.secrets[id].reference;
      if s.closed then (offered.(pending := s.pending + {id}), Closed)
      else if reference in s.entries && now < s.entries[reference].expires then
        Lease(offered.(pending := s.pending + {id}), s.entries[reference])
      else
        var e := Entry(reference, id, now + o.ttl);
        var room := if reference in s.entries then Detached(offered, s.entries[reference]) else offered;
        (Evicted(Stored(room, e), o.max), Acquire(s, e))
  }

  function DestroyStep(s: State, id: SecretId): State {
    if id !in s.pending || id !in s.secrets then s
    else s.(secrets := s.secrets[id := s.secrets[id].(value := "", destroyed := true)], pending := s.pending - {id})
  }

  function InvalidateStep(s: State, reference: string): State {
    if reference in s.entries then Detached(s, s.entries[reference]) else s
  }

  function EntrySecrets(s: State): set<SecretId> {
    set r | r in s.entries :: s.entries[r].secret
  }

  function DetachStep(s: State, close: bool): State {
    s.(entries := map[], lru := [], pending := s.pending + EntrySecrets(s), closed := s.closed || close)
  }

  // ---- the invariant ----

  /** A stored secret is intact, is nobody's to destroy or offer, and came from the backend for its reference. */
  ghost predicate Intact(s: State) {
    forall r :: r in s.entries ==> IntactEntry(s, r, s.entries[r].secret)
  }

  ghost predicate IntactEntry(s: State, r: string, id: SecretId) {
    && id in s.secrets && s.secrets[id].reference == r && !s.secrets[id].destroyed
    && id !in s.pending && id !in s.loaded
  }

  /** Every secret is destroyed, about to be, on its way in, or stored. */
  ghost predicate Accounted(s: State) {
    forall id :: id in s.secrets ==> s.secrets[id].destroyed || id in s.pending || id in s.loaded || id in EntrySecrets(s)
  }

  ghost predicate InFlight(s: State) {
    && s.pending <= s.secrets.Keys && s.loaded <= s.secrets.Keys && s.pending !! s.loaded
    && (forall id :: id in s.pending + s.loaded ==> !s.secrets[id].destroyed)
  }

  ghost predicate Honest(s: State) {
    forall id :: id in s.secrets && !s.secrets[id].destroyed ==> (s.secrets[id].reference, s.secrets[id].value) in s.given
  }

  /** The list is in order of last use. */
  ghost predicate InOrder(s: State) {
    References(s.lru) == Keep(Recent(s.uses), s.entries.Keys)
  }

  ghost predicate Bounded(o: Settings, s: State) {
    && |s.entries| <= o.max
    && (s.closed ==> s.entries == map[])
    && (!o.Stores() ==> s.loaded == {} && s.entries == map[])
  }

  ghost predicate Invariant(o: Settings, s: State) {
    && Matched(s.entries, s.lru) && Intact(s) && Accounted(s) && InFlight(s) && Honest(s) && InOrder(s) && Bounded(o, s)
  }

  // ---- every step keeps it ----

  /** What removing and storing keep, whatever the number of entries. */
  ghost predicate Core(s: State) {
    Matched(s.entries, s.lru) && Intact(s) && Accounted(s) && InFlight(s) && Honest(s) && InOrder(s)
  }

  lemma DetachedInOrder(s: State, e: Entry)
    requires Matched(s.entries, s.lru) && InOrder(s) && e in s.lru
    ensures InOrder(Detached(s, e))
  {
    WithoutIsMinus(s.lru, e);
    KeepFewer(Recent(s.uses), s.entries.Keys, e.reference);
    assert (s.entries - {e.reference}).Keys == s.entries.Keys - {e.reference};
  }

  lemma DetachedKeeps(s: State, e: Entry)
    requires Core(s) && e in s.lru
    ensures Core(Detached(s, e))
  {
    var t := Detached(s, e);
    RemovedStaysMatched(s.entries, s.lru, e);
    DetachedInOrder(s, e);
    forall r | r in t.entries ensures IntactEntry(t, r, t.entries[r].secret) {
      assert IntactEntry(s, r, s.entries[r].secret) && IntactEntry(s, e.reference, e.secret);
    }
    assert IntactEntry(s, e.reference, e.secret);
    forall id | id in t.secrets
      ensures t.secrets[id].destroyed || id in t.pending || id in t.loaded || id in EntrySecrets(t)
    {
      if id in EntrySecrets(s) && id != e.secret {
        var r :| r in s.entries && s.entries[r].secret == id;
        assert r in t.entries && t.entries[r].secret == id;
      }
    }
  }

  lemma UsedMatched(s: State, e: Entry)
    requires Matched(s.entries, s.lru) && e in s.lru
    ensures Matched(s.entries, [e] + Without(s.lru, e))
  {
    RemovedStaysMatched(s.entries, s.lru, e);
    AddedStaysMatched(s.entries - {e.reference}, Without(s.lru, e), e);
    assert s.entries == (s.entries - {e.reference})[e.reference := e];
  }

  lemma UsedInOrder(s: State, e: Entry)
    requires Matched(s.entries, s.lru) && InOrder(s) && e in s.lru
    ensures InOrder(Used(s, e))
  {
    WithoutIsMinus(s.lru, e);
    UseComesFirst(s.uses, s.entries.Keys, e.reference);
    assert s.entries.Keys + {e.reference} == s.entries.Keys;
    assert References([e] + Without(s.lru, e)) == [e.reference] + References(Without(s.lru, e));
  }

  lemma UsedKeeps(s: State, e: Entry)
    requires Core(s) && e in s.lru
    ensures Core(Used(s, e))
  {
    hide Matched;
    hide InOrder;
    UsedMatched(s, e);
    UsedInOrder(s, e);
    var t := Used(s, e);
    assert forall r :: r in t.entries ==> IntactEntry(s, r, s.entries[r].secret);
    assert EntrySecrets(t) == EntrySecrets(s);
  }

  lemma StoredInOrder(s: State, e: Entry)
    requires Matched(s.entries, s.lru) && InOrder(s) && e.reference !in s.entries
    ensures InOrder(Stored(s, e))
  {
    hide Keep;
    hide Recent;
    hide Minus;
    hide OncePerReference;
    UseComesFirst(s.uses, s.entries.Keys, e.reference);
    ReferenceNotAmong(s.lru, e.reference);
    MinusNothing(References(s.lru), e.reference);
    assert References([e] + s.lru) == [e.reference] + References(s.lru);
    assert s.entries[e.reference := e].Keys == s.entries.Keys + {e.reference};
  }

  /** A secret that is no longer on its way in may be stored under its reference. */
  ghost predicate Offered(s: State, e: Entry) {
    && e.reference !in s.entries && e.secret in s.secrets && s.secrets[e.secret].reference == e.reference
    && !s.secrets[e.secret].destroyed && e.secret !in s.pending && e.secret !in s.loaded
  }

  /** All but the offered secret are accounted for. */
  ghost predicate AllBut(s: State, offered: SecretId) {
    forall id :: id in s.secrets && id != offered ==>
                   s.secrets[id].destroyed || id in s.pending || id in s.loaded || id in EntrySecrets(s)
  }

  lemma StoredKeeps(s: State, e: Entry)
    requires Matched(s.entries, s.lru) && Intact(s) && InFlight(s) && Honest(s) && InOrder(s)
    requires Offered(s, e) && AllBut(s, e.secret)
    ensures Core(Stored(s, e))
  {
    hide InOrder;
    var t := Stored(s, e);
    AddedStaysMatched(s.entries, s.lru, e);
    StoredInOrder(s, e);
    forall r | r in t.entries ensures IntactEntry(t, r, t.entries[r].secret) {
      assert r != e.reference ==> IntactEntry(s, r, s.entries[r].secret);
    }
    forall id | id in t.secrets
      ensures t.secrets[id].destroyed || id in t.pending || id in t.loaded || id in EntrySecrets(t)
    {
      if id == e.secret {
        assert t.entries[e.reference].secret == id;
      } else if id in EntrySecrets(s) {
        var r :| r in s.entries && s.entries[r].secret == id;
        assert r in t.entries && t.entries[r].secret == id;
      }
    }
  }

  lemma {:induction false} EvictedKeepsRest(s: State, max: nat)
    ensures Evicted(s, max).closed == s.closed && Evicted(s, max).loaded == s.loaded
    ensures Evicted(s, max).secrets == s.secrets && Evicted(s, max).given == s.given
    decreases |s.lru|
  {
    if |s.entries| > max && s.lru != [] {
      var oldest := s.lru[|s.lru| - 1];
      WithoutShrinks(s.lru, oldest);
      EvictedKeepsRest(Detached(s, oldest), max);
    }
  }

  lemma CoreSizes(s: State)
    requires Core(s)
    ensures |s.lru| == |s.entries|
  {
    MatchedSizes(s.entries, s.lru);
  }

  lemma {:induction false} EvictedKeeps(s: State, max: nat)
    requires Core(s)
    ensures Core(Evicted(s, max)) && |Evicted(s, max).entries| <= max
    decreases |s.lru|
  {
    hide Core;
    hide Without;
    CoreSizes(s);
    if |s.entries| > max {
      var oldest := s.lru[|s.lru| - 1];
      WithoutShrinks(s.lru, oldest);
      DetachedKeeps(s, oldest);
      EvictedKeeps(Detached(s, oldest), max);
    }
  }

  /** The entry evicted is the one whose last use is the longest ago. */
  lemma EvictsLeastRecentlyUsed(s: State, max: nat)
    requires Core(s) && |s.entries| == max + 1
    ensures |Keep(Recent(s.uses), s.entries.Keys)| == |s.entries|
    ensures Evicted(s, max).entries == s.entries - {Keep(Recent(s.uses), s.entries.Keys)[max]}
  {
    hide Intact;
    hide Accounted;
    hide InFlight;
    hide Honest;
    hide Keep;
    hide Recent;
    MatchedSizes(s.entries, s.lru);
    var oldest := s.lru[max];
    assert References(s.lru)[max] == oldest.reference;
    OneLess(s.entries, oldest.reference);
  }

  // ---- every step keeps the invariant ----

  lemma LeaseKeeps(o: Settings, s: State, e: Entry)
    requires Invariant(o, s) && e in s.lru
    ensures Invariant(o, Lease(s, e).0)
  {
    UsedKeeps(s, e);
  }

  lemma LookupKeeps(o: Settings, s: State, reference: string, now: int)
    requires Invariant(o, s)
    ensures Backed(s) && Invariant(o, LookupStep(o, s, reference, now).0)
  {
    hide Core;
    InvariantBacked(o, s);
    if !s.closed && o.Stores() && reference in s.entries {
      EntryListed(o, s, reference);
      if now < s.entries[reference].expires {
        LeaseKeeps(o, s, s.entries[reference]);
      } else {
        DetachKeeps(o, s, reference);
      }
    }
  }

  lemma InvariantBacked(o: Settings, s: State)
    requires Invariant(o, s)
    ensures Backed(s)
  {
    assert forall r :: r in s.entries ==> IntactEntry(s, r, s.entries[r].secret);
  }

  lemma EntryListed(o: Settings, s: State, reference: string)
    requires Invariant(o, s) && reference in s.entries
    ensures s.entries[reference] in s.lru && s.entries[reference].secret in s.secrets
    ensures s.entries[reference].reference == reference
    ensures IntactEntry(s, reference, s.entries[reference].secret)
  {
  }

  lemma DetachKeeps(o: Settings, s: State, reference: string)
    requires Invariant(o, s) && reference in s.entries
    ensures Invariant(o, Detached(s, s.entries[reference]))
  {
    var e := s.entries[reference];
    DetachedKeeps(s, e);
    OneLess(s.entries, reference);
    assert s.entries == map[] ==> Detached(s, e).entries == map[];
  }

  lemma LoadKeeps(o: Settings, s: State, id: SecretId, reference: string, value: string)
    requires Invariant(o, s)
    ensures Invariant(o, LoadStep(o, s, id, reference, value))
  {
    hide Matched;
    hide Keep;
    hide Recent;
    hide References;
    if o.Stores() && id !in s.secrets {
      var t := LoadStep(o, s, id, reference, value);
      forall r | r in t.entries ensures IntactEntry(t, r, t.entries[r].secret) {
        assert IntactEntry(s, r, s.entries[r].secret);
      }
      assert EntrySecrets(t) == EntrySecrets(s);
    }
  }

  lemma DestroyKeeps(o: Settings, s: State, id: SecretId)
    requires Invariant(o, s)
    ensures Invariant(o, DestroyStep(s, id))
  {
    hide Matched;
    hide Keep;
    hide Recent;
    hide References;
    var t := DestroyStep(s, id);
    forall r | r in t.entries ensures IntactEntry(t, r, t.entries[r].secret) {
      assert IntactEntry(s, r, s.entries[r].secret);
    }
    assert EntrySecrets(t) == EntrySecrets(s);
  }

  lemma DetachAllKeeps(o: Settings, s: State, close: bool)
    requires Invariant(o, s)
    ensures Invariant(o, DetachStep(s, close))
  {
    var t := DetachStep(s, close);
    KeepNone(Recent(s.uses));
    assert t.entries.Keys == {};
    forall id | id in EntrySecrets(s) ensures id in s.secrets && !s.secrets[id].destroyed && id !in s.loaded {
      var r :| r in s.entries && s.entries[r].secret == id;
      assert IntactEntry(s, r, id);
    }
  }

  /** A loaded secret that is not wanted is left to be destroyed. */
  function Declined(s: State, id: SecretId): State {
    s.(loaded := s.loaded - {id}, pending := s.pending + {id})
  }

  lemma DeclinedKeeps(o: Settings, s: State, id: SecretId)
    requires Invariant(o, s) && id in s.loaded
    ensures Invariant(o, Declined(s, id))
  {
    hide Matched;
    hide Keep;
    hide Recent;
    hide References;
    var t := Declined(s, id);
    forall r | r in t.entries ensures IntactEntry(t, r, t.entries[r].secret) {
      assert IntactEntry(s, r, s.entries[r].secret);
    }
    assert EntrySecrets(t) == EntrySecrets(s);
  }

  /** A secret taken back from destruction can be stored, when its reference is free. */
  lemma TakenBackKeeps(o: Settings, s: State, e: Entry)
    requires Invariant(o, s) && e.secret in s.pending && s.secrets[e.secret].reference == e.reference
    requires e.reference !in s.entries
    ensures Core(Stored(s.(pending := s.pending - {e.secret}), e))
  {
    hide Matched;
    hide Keep;
    hide Recent;
    hide References;
    var t := s.(pending := s.pending - {e.secret});
    forall r | r in t.entries ensures IntactEntry(t, r, t.entries[r].secret) {
      assert IntactEntry(s, r, s.entries[r].secret);
    }
    assert EntrySecrets(t) == EntrySecrets(s);
    StoredKeeps(t, e);
  }

  /** The cache's state once the reference is free and the loaded secret stands to be destroyed. */
  function Cleared(s: State, id: SecretId, reference: string): State {
    if reference in s.entries then Detached(Declined(s, id), s.entries[reference]) else Declined(s, id)
  }

  lemma ClearedKeeps(o: Settings, s: State, id: SecretId, reference: string)
    requires Invariant(o, s) && id in s.loaded
    ensures Invariant(o, Cleared(s, id, reference)) && reference !in Cleared(s, id, reference).entries
    ensures id in Cleared(s, id, reference).pending
  {
    DeclinedKeeps(o, s, id);
    if reference in s.entries {
      DetachKeeps(o, Declined(s, id), reference);
      EntryListed(o, s, reference);
    }
  }

  lemma InsertKeeps(o: Settings, s: State, id: SecretId, now: int)
    requires Invariant(o, s)
    ensures Backed(s) && Invariant(o, InsertStep(o, s, id, now).0)
  {
    hide Core;
    InvariantBacked(o, s);
    if id in s.loaded {
      var reference := s.secrets[id].reference;
      DeclinedKeeps(o, s, id);
      if s.closed {
      } else if reference in s.entries && now < s.entries[reference].expires {
        EntryListed(o, s, reference);
        LeaseKeeps(o, Declined(s, id), s.entries[reference]);
      } else {
        StoreKeeps(o, s, id, now);
      }
    }
  }

  lemma LoadedKnown(o: Settings, s: State, id: SecretId)
    requires Invariant(o, s) && id in s.loaded
    ensures id in s.secrets && !s.secrets[id].destroyed
  {
  }

  lemma StoreKeeps(o: Settings, s: State, id: SecretId, now: int)
    requires Invariant(o, s) && id in s.loaded && !s.closed && Backed(s)
    requires s.secrets[id].reference in s.entries ==> s.entries[s.secrets[id].reference].expires <= now
    ensures Invariant(o, InsertStep(o, s, id, now).0)
  {
    hide Core;
    hide Evicted;
    hide Matched;
    hide Intact;
    hide Accounted;
    hide InFlight;
    hide Honest;
    hide InOrder;
    LoadedKnown(o, s, id);
    var reference := s.secrets[id].reference;
    var e := Entry(reference, id, now + o.ttl);
    ClearedKeeps(o, s, id, reference);
    var cleared := Cleared(s, id, reference);
    NotPending(o, s, id, reference);
    var room := cleared.(pending := cleared.pending - {id});
    TakenBackKeeps(o, cleared, e);
    EvictedKeeps(Stored(room, e), o.max);
    EvictedKeepsRest(Stored(room, e), o.max);
    CoreParts(Evicted(Stored(room, e), o.max));
  }

  lemma NotPending(o: Settings, s: State, id: SecretId, reference: string)
    requires Invariant(o, s) && id in s.loaded
    ensures Cleared(s, id, reference).(pending := Cleared(s, id, reference).pending - {id})
         == if reference in s.entries then Detached(s.(loaded := s.loaded - {id}), s.entries[reference])
            else s.(loaded := s.loaded - {id})
  {
    if reference in s.entries {
      EntryListed(o, s, reference);
      var secret := s.entries[reference].secret;
      assert s.pending + {id} + {secret} - {id} == s.pending + {secret};
    } else {
      assert s.pending + {id} - {id} == s.pending;
    }
  }

  lemma CoreParts(s: State)
    requires Core(s)
    ensures Matched(s.entries, s.lru) && Intact(s) && Accounted(s) && InFlight(s) && Honest(s) && InOrder(s)
  {
  }
}
