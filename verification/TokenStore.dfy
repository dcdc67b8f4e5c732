/** The token store: a record map in memory, replaced only after the file was. */
module TokenStore {
  import opened Octets
  import opened Tokens
  import opened TokenForest
  import opened TokenWalks
  import opened TokenRules
  import opened TokenSteps

  class Store {
    const opts: Options
    var records: Records
    var closed: bool
    /** What a reader of the file would find. */
    ghost var disk: Records

    ghost predicate Valid()
      reads this
    {
      Normalized(opts) && Invariant(opts, records) && disk == records
    }

    constructor (opts: Options, records: Records)
      requires Normalized(opts) && Invariant(opts, records)
      ensures this.opts == opts && this.records == records && disk == records && !closed && Valid()
    {
      this.opts, this.records := opts, records;
      closed := false;
      disk := records;
    }

    /** Reports whether the commit point was reached separately from any error after it. */
    method PersistRecords(next: Records, outcome: WriteOutcome) returns (r: Persisted)
      modifies this`disk
      ensures r == Persist(opts, next, outcome)
      ensures disk == if r.committed then next else old(disk)
    {
      var size := MeasureEncoding(opts, next);
      if size > opts.fileSizeLimit {
        return Persisted(false, true);
      }
      match outcome
      case NotCommitted => r := Persisted(false, true);
      case CommittedUnsynced => disk := next; r := Persisted(true, true);
      case Committed => disk := next; r := Persisted(true, false);
    }

    method PruneLocked(now: Time, outcome: WriteOutcome) returns (ok: bool)
      requires Valid() && Linked(records)
      modifies this`records, this`disk
      ensures (records, ok) == PruneStep(opts, old(records), now, outcome)
      ensures Valid() && Linked(records)
    {
      hide Invariant;
      hide Pruned;
      hide Linked;
      hide EncodedSize;
      PruneStepKeeps(opts, records, now, outcome);
      var next, changed := PruneInactive(records, now);
      if !changed {
        return true;
      }
      var r := PersistRecords(next, outcome);
      if r.committed {
        records := next;
      }
      return !r.failed;
    }

    method GenerateUniqueToken(draws: seq<Hash>) returns (h: Option<Hash>)
      ensures h == FreshHash(records, draws, MAX_DRAWS)
    {
      var i := 0;
      while i < MAX_DRAWS
        invariant 0 <= i <= MAX_DRAWS && i <= |draws|
        invariant FreshHash(records, draws, MAX_DRAWS) == FreshHash(records, draws[i..], MAX_DRAWS - i)
      {
        if i == |draws| {
          return None;
        }
        if draws[i] !in records {
          return Some(draws[i]);
        }
        assert draws[i..][1..] == draws[i + 1..];
        i := i + 1;
      }
      return None;
    }

    /** The common tail of `Mint` and `Delegate`: capacity, one write, then the record and its claims. */
    method IssueLocked(rec: Record, outcome: WriteOutcome) returns (reply: Reply)
      requires Linked(records) && Attaches(records, rec) && disk == records
      modifies this`records, this`disk
      ensures (records, reply) == IssueStep(opts, old(records), rec, outcome)
      ensures disk == records
    {
      var next := records[rec.hash := rec];
      IssuedLinked(records, rec);
      if |next| > opts.maxRecords {
        return Failed(RecordLimit);
      }
      var roomy := EnsureRevocationCapacity(opts, next);
      if !roomy {
        return Failed(RecordLimit);
      }
      var r := PersistRecords(next, outcome);
      if r.committed {
        records := next;
      }
      if r.failed {
        return Failed(PersistFailed);
      }
      var claims := ClaimsFromRecord(rec, next);
      return Issued(rec.hash, claims);
    }

    method Mint(req: MintRequest, now: Time, draws: seq<Hash>, pruning: WriteOutcome, issuing: WriteOutcome)
      returns (reply: Reply)
      requires Valid() && now != 0
      modifies this`records, this`disk
      ensures Valid() && Linked(old(records))
      ensures old(closed) && MintRequestOk(opts, req) ==> records == old(records) && reply == Failed(StoreClosed)
      ensures !old(closed) || !MintRequestOk(opts, req) ==>
                (records, reply) == MintStep(opts, old(records), req, now, draws, pruning, issuing)
    {
      hide Invariant;
      MintKeepsInvariant(opts, records, req, now, draws, pruning, issuing);
      var grantsOk := ValidateGrantSet(req.grants, opts.maxGrantsPerToken, opts.rule);
      if !opts.rule(req.workload, MAX_BINDING_BYTES) || !opts.rule(req.audience, MAX_BINDING_BYTES) || !grantsOk {
        return Failed(InvalidRequest);
      }
      if closed {
        return Failed(StoreClosed);
      }
      var pruned := PruneLocked(now, pruning);
      if !pruned {
        return Failed(PersistFailed);
      }
      if req.expiresAt == 0 || !(req.expiresAt > now) {
        return Failed(InvalidRequest);
      }
      var h := GenerateUniqueToken(draws);
      if h.None? {
        return Failed(Entropy);
      }
      reply := IssueLocked(RootRecord(req, h.value, now), issuing);
    }

    method Delegate(bearer: Bearer, req: DelegateRequest, now: Time, draws: seq<Hash>,
                    pruning: WriteOutcome, issuing: WriteOutcome)
      returns (reply: Reply)
      requires Valid() && now != 0
      modifies this`records, this`disk
      ensures Valid() && Linked(old(records))
      ensures old(closed) && DelegateRequestOk(opts, req) ==> records == old(records) && reply == Failed(StoreClosed)
      ensures !old(closed) || !DelegateRequestOk(opts, req) ==>
                (records, reply) == DelegateStep(opts, old(records), bearer, req, now, draws, pruning, issuing)
    {
      hide Invariant;
      DelegateKeepsInvariant(opts, records, bearer, req, now, draws, pruning, issuing);
      var grantsOk := ValidateGrantSet(req.grants, opts.maxGrantsPerToken, opts.rule);
      if !opts.rule(req.callerWorkload, MAX_BINDING_BYTES) || !opts.rule(req.audience, MAX_BINDING_BYTES)
         || !opts.rule(req.workload, MAX_BINDING_BYTES) || !grantsOk {
        return Failed(InvalidRequest);
      }
      if closed {
        return Failed(StoreClosed);
      }
      var pruned := PruneLocked(now, pruning);
      if !pruned {
        return Failed(PersistFailed);
      }
      var found := ValidateLocked(records, bearer, Binding(req.callerWorkload, req.audience), now);
      if found.None? {
        return Failed(InvalidToken);
      }
      var parent := found.value;
      var refusal := CheckDelegation(parent, req, now);
      if refusal.Some? {
        return Failed(refusal.value);
      }
      var h := GenerateUniqueToken(draws);
      if h.None? {
        return Failed(Entropy);
      }
      ChildAttaches(opts, records, parent, req, h.value, now);
      reply := IssueLocked(ChildRecord(req, parent, h.value, now), issuing);
    }

    method CheckDelegation(parent: Record, req: DelegateRequest, now: Time) returns (refusal: Option<Failure>)
      ensures refusal == Refusal(opts, records, parent, req, now)
    {
      if !parent.allowDelegation {
        return Some(DelegationNotAllowed);
      }
      if parent.depth + 1 > opts.maxDelegationDepth {
        return Some(DelegationDepth);
      }
      if req.expiresAt == 0 || !(req.expiresAt > now) {
        return Some(InvalidRequest);
      }
      if req.expiresAt > parent.expiresAt {
        return Some(ExpiryBroadening);
      }
      var subset := GrantsAreSubset(req.grants, parent.grants);
      if !subset {
        return Some(GrantBroadening);
      }
      var children := DirectChildCount(records, parent.hash);
      if children >= opts.maxChildrenPerToken {
        return Some(ChildLimit);
      }
      var tokens := RootTokenCount(records, parent.root);
      if tokens >= opts.maxTokensPerRoot {
        return Some(RootTokenLimit);
      }
      return None;
    }

    /** Changes nothing; every refusal looks the same. */
    method Validate(bearer: Bearer, req: Binding, now: Time) returns (claims: Option<Claims>)
      requires Valid()
      ensures Linked(records)
      ensures claims == if closed then None else Answer(records, bearer, req, now)
    {
      SoundIsLinked(opts, records);
      if closed {
        return None;
      }
      var found := ValidateLocked(records, bearer, req, now);
      if found.None? {
        return None;
      }
      var value := ClaimsFromRecord(found.value, records);
      return Some(value);
    }

    method RevokeHash(target: Hash, now: Time, pruning: WriteOutcome, revoking: WriteOutcome) returns (reply: Reply)
      requires Valid() && now != 0
      modifies this`records, this`disk
      ensures Valid() && Linked(old(records))
      ensures old(closed) ==> records == old(records) && reply == Failed(StoreClosed)
      ensures !old(closed) ==> (records, reply) == RevokeStep(opts, old(records), target, now, pruning, revoking)
    {
      hide Invariant;
      hide Revoked;
      hide Pruned;
      hide EncodedSize;
      RevokeStepKeepsInvariant(opts, records, target, now, pruning, revoking);
      if closed {
        return Failed(StoreClosed);
      }
      var wasInactive := false;
      if target in records {
        wasInactive := RecordOrAncestorInactive(records[target], records, now);
      }
      var pruned := PruneLocked(now, pruning);
      if !pruned {
        return Failed(PersistFailed);
      }
      if target !in records {
        return if wasInactive then Done else Failed(InvalidToken);
      }
      var next, changed := MarkSubtree(records, target, now);
      if !changed {
        return Done;
      }
      var r := PersistRecords(next, revoking);
      if r.committed {
        records := next;
      }
      return if r.failed then Failed(PersistFailed) else Done;
    }

    method Close()
      modifies this`closed
      ensures closed
    {
      closed := true;
    }
  }

  /** `Open` on a file holding `disk`, or on none: load, check, prune, check again, write back. */
  method Open(opts: Options, disk: Option<Records>, now: Time, outcome: WriteOutcome) returns (store: Store?)
    requires Normalized(opts)
    ensures (store != null) <==> OpenStep(opts, disk, now, outcome).Some?
    ensures store != null ==>
              && fresh(store) && store.Valid() && store.opts == opts && !store.closed
              && store.records == OpenStep(opts, disk, now, outcome).value
  {
    hide Invariant;
    hide Pruned;
    hide Linked;
    hide EncodedSize;
    hide WithinBounds;
    hide RevocationCapacity;
    var loaded: Records := map[];
    if disk.Some? {
      loaded := disk.value;
      var size := MeasureEncoding(opts, loaded);
      if size > opts.fileSizeLimit || |loaded| > HARD_MAX_RECORDS {
        return null;
      }
      var sound := ValidateLoadedRecords(opts, loaded);
      if !sound {
        return null;
      }
    }
    OpenEstablishesInvariant(opts, disk, now, outcome);
    SoundIsLinked(opts, loaded);
    var kept, changed := PruneInactive(loaded, now);
    var bounded := ValidateLoadedBounds(opts, kept);
    if !bounded {
      return null;
    }
    var roomy := EnsureRevocationCapacity(opts, kept);
    if !roomy {
      return null;
    }
    if disk.None? || changed {
      var written := MeasureEncoding(opts, kept);
      if written > opts.fileSizeLimit || !outcome.Committed? {
        return null;
      }
    }
    store := new Store(opts, kept);
  }
}
