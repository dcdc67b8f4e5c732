/** The cache itself: the sections of code that hold the lock, as methods that update its fields. */
module SecretCacheObject {
  import opened Octets
  import opened SecretCache

  class Cache {
    const settings: Settings
    var entries: map<string, Entry>
    var lru: seq<Entry>
    var closed: bool
    var secrets: map<SecretId, Secret>
    ghost var pending: set<SecretId>
    ghost var loaded: set<SecretId>
    ghost var given: set<(string, string)>
    ghost var uses: seq<string>

    ghost function Now(): State
      reads this
    {
      State(entries, lru, closed, secrets, pending, loaded, given, uses)
    }

    ghost predicate Valid()
      reads this
    {
      Invariant(settings, Now())
    }

    constructor (settings: Settings)
      ensures Valid() && this.settings == settings
      ensures Now() == State(map[], [], false, map[], {}, {}, {}, [])
    {
      this.settings := settings;
      entries, lru, closed, secrets := map[], [], false, map[];
      pending, loaded, given, uses := {}, {}, {}, [];
    }

    method RemoveLocked(e: Entry)
      modifies this
      ensures Now() == Removed(old(Now()), e)
    {
      entries := entries - {e.reference};
      lru := Without(lru, e);
    }

    method MoveToFront(e: Entry)
      modifies this
      ensures Now() == Used(old(Now()), e)
    {
      lru := [e] + Without(lru, e);
      uses := uses + [e.reference];
    }

    method Lookup(reference: string, now: int) returns (answer: Answer, destroy: Option<SecretId>)
      requires Valid()
      modifies this
      ensures Valid()
      ensures old(Backed(Now())) && (Now(), answer) == old(LookupStep(settings, Now(), reference, now))
      ensures destroy.Some? ==> destroy.value in pending
      ensures pending == old(pending) + if destroy.Some? then {destroy.value} else {}
    {
      hide Invariant;
      hide Without;
      LookupKeeps(settings, Now(), reference, now);
      destroy := None;
      if closed {
        return Closed, None;
      }
      if settings.ttl <= 0 || settings.max == 0 {
        return Through, None;
      }
      if reference in entries {
        var e := entries[reference];
        if now < e.expires {
          answer := AcquireSecret(e);
          if answer.Hit? {
            MoveToFront(e);
          }
          return answer, None;
        }
        RemoveLocked(e);
        pending := pending + {e.secret};
        return Missed, Some(e.secret);
      }
      return Missed, None;
    }

    method AcquireSecret(e: Entry) returns (answer: Answer)
      requires e.secret in secrets
      ensures answer == Acquire(Now(), e)
    {
      var secret := secrets[e.secret];
      if secret.destroyed {
        return Released;
      }
      return Hit(secret.value, e.expires);
    }

    /** The backend's answer, copied into a secret of its own. */
    method Candidate(id: SecretId, reference: string, value: string)
      requires Valid() && settings.Stores() && id !in secrets
      modifies this
      ensures Valid() && Now() == old(LoadStep(settings, Now(), id, reference, value))
    {
      hide Invariant;
      LoadKeeps(settings, Now(), id, reference, value);
      secrets := secrets[id := Secret(reference, value, false)];
      loaded := loaded + {id};
      given := given + {(reference, value)};
    }

    /** Evicts from the back of the list until the entries fit; their secrets join those to destroy. */
    method Evict(destroy: seq<SecretId>) returns (all: seq<SecretId>)
      requires Core(Now())
      modifies this
      ensures Now() == old(Evicted(Now(), settings.max))
      ensures forall id :: id in destroy || (id in pending && id !in old(pending)) ==> id in all
    {
      hide Core;
      hide Without;
      all := destroy;
      while |entries| > settings.max
        invariant Core(Now())
        invariant Evicted(Now(), settings.max) == old(Evicted(Now(), settings.max))
        invariant forall id :: id in destroy || (id in pending && id !in old(pending)) ==> id in all
        decreases |lru|
      {
        CoreSizes(Now());
        var oldest := lru[|lru| - 1];
        WithoutShrinks(lru, oldest);
        DetachedKeeps(Now(), oldest);
        RemoveLocked(oldest);
        pending := pending + {oldest.secret};
        all := all + [oldest.secret];
      }
      assert Evicted(Now(), settings.max) == Now();
    }

    method Insert(id: SecretId, now: int) returns (answer: Answer, destroy: seq<SecretId>)
      requires Valid() && id in loaded
      modifies this
      ensures Valid()
      ensures old(Backed(Now())) && (Now(), answer) == old(InsertStep(settings, Now(), id, now))
      ensures forall d :: d in pending && d !in old(pending) ==> d in destroy
    {
      hide Invariant;
      hide Without;
      hide Evicted;
      hide Core;
      InsertKeeps(settings, Now(), id, now);
      LoadedKnown(settings, Now(), id);
      var reference := secrets[id].reference;
      if !closed && !(reference in entries && now < entries[reference].expires) {
        answer, destroy := Store(id, reference, now);
        return;
      }
      loaded, pending := loaded - {id}, pending + {id};
      destroy := [id];
      if closed {
        return Closed, destroy;
      }
      answer := AcquireSecret(entries[reference]);
      if answer.Hit? {
        MoveToFront(entries[reference]);
      }
    }

    /** Puts the loaded secret in front, in place of an expired one, and evicts what is then too much. */
    method Store(id: SecretId, reference: string, now: int) returns (answer: Answer, destroy: seq<SecretId>)
      requires Valid() && id in loaded && id in secrets && secrets[id].reference == reference
      requires Backed(Now()) && !closed && (reference in entries ==> entries[reference].expires <= now)
      modifies this
      ensures (Now(), answer) == old(InsertStep(settings, Now(), id, now))
      ensures forall d :: d in pending && d !in old(pending) ==> d in destroy
    {
      hide Invariant;
      hide Without;
      hide Evicted;
      hide Core;
      var e := Entry(reference, id, now + settings.ttl);
      RoomKeeps(settings, Now(), id, e);
      loaded := loaded - {id};
      destroy := [];
      if reference in entries {
        var current := entries[reference];
        EntryKnown(settings, old(Now()), reference);
        RemoveLocked(current);
        pending := pending + {current.secret};
        destroy := [current.secret];
      }
      lru := [e] + lru;
      uses := uses + [reference];
      entries := entries[reference := e];
      ghost var room := Now();
      destroy := Evict(destroy);
      EvictedKeepsRest(room, settings.max);
      answer := AcquireSecret(e);
    }

    method DestroySecret(id: SecretId)
      requires Valid() && id in pending
      modifies this
      ensures Valid() && Now() == old(DestroyStep(Now(), id))
    {
      hide Invariant;
      DestroyKeeps(settings, Now(), id);
      PendingKnown(settings, Now(), id);
      secrets := secrets[id := secrets[id].(value := "", destroyed := true)];
      pending := pending - {id};
    }

    method Invalidate(reference: string) returns (destroy: Option<SecretId>)
      requires Valid()
      modifies this
      ensures Valid() && Now() == old(InvalidateStep(Now(), reference))
      ensures pending == old(pending) + if destroy.Some? then {destroy.value} else {}
    {
      hide Invariant;
      hide Without;
      destroy := None;
      if reference in entries {
        EntryKnown(settings, Now(), reference);
        DetachKeeps(settings, Now(), reference);
        var e := entries[reference];
        RemoveLocked(e);
        pending := pending + {e.secret};
        destroy := Some(e.secret);
      }
    }

    /** Takes every secret out of the cache, for the caller to destroy. */
    method DetachAll(close: bool) returns (destroy: seq<SecretId>)
      requires Valid()
      modifies this
      ensures Valid() && Now() == old(DetachStep(Now(), close))
      ensures forall id :: id in destroy <==> id in old(EntrySecrets(Now()))
    {
      hide Invariant;
      DetachAllKeeps(settings, Now(), close);
      if close {
        closed := true;
      }
      destroy := [];
      var left := entries.Keys;
      while left != {}
        invariant left <= entries.Keys
        invariant forall r :: r in entries && r !in left ==> entries[r].secret in destroy
        invariant forall id :: id in destroy ==> id in EntrySecrets(Now())
      {
        var r :| r in left;
        destroy := destroy + [entries[r].secret];
        left := left - {r};
      }
      pending := pending + EntrySecrets(Now());
      entries, lru := map[], [];
    }
  }

  lemma EntryKnown(o: Settings, s: State, reference: string)
    requires Invariant(o, s) && reference in s.entries
    ensures s.entries[reference].reference == reference && s.entries[reference].secret in s.secrets
  {
    EntryListed(o, s, reference);
  }

  lemma PendingKnown(o: Settings, s: State, id: SecretId)
    requires Invariant(o, s) && id in s.pending
    ensures id in s.secrets
  {
  }

  /** Once the reference is free the loaded secret may be stored. */
  lemma RoomKeeps(o: Settings, s: State, id: SecretId, e: Entry)
    requires Invariant(o, s) && id in s.loaded && id in s.secrets && e.secret == id && e.reference == s.secrets[id].reference
    ensures Core(Stored(
                   if e.reference in s.entries then Detached(s.(loaded := s.loaded - {id}), s.entries[e.reference])
                   else s.(loaded := s.loaded - {id}), e))
  {
    hide Core;
    hide Matched;
    hide Intact;
    hide Accounted;
    hide InFlight;
    hide Honest;
    hide InOrder;
    ClearedKeeps(o, s, id, e.reference);
    NotPending(o, s, id, e.reference);
    TakenBackKeeps(o, Cleared(s, id, e.reference), e);
  }
}
