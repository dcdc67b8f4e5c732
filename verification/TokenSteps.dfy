/**
 The store's operations as functions of its records, with the outcome of every write to
 disk left open, and what each of them keeps.
 */
module TokenSteps {
  import opened Octets
  import opened Tokens
  import opened TokenForest
  import opened TokenWalks
  import opened TokenRules

  datatype Failure =
    | StoreClosed | InvalidRequest | InvalidToken | DelegationNotAllowed | DelegationDepth
    | ExpiryBroadening | GrantBroadening | ChildLimit | RootTokenLimit | Entropy | RecordLimit
    | PersistFailed | CorruptStore

  datatype Reply = Issued(hash: Hash, claims: Claims) | Done | Failed(failure: Failure)

  datatype MintRequest = MintRequest(
    workload: string, audience: string, expiresAt: Time, grants: seq<Grant>, allowDelegation: bool)

  datatype DelegateRequest = DelegateRequest(
    callerWorkload: string, audience: string, workload: string, expiresAt: Time, grants: seq<Grant>,
    allowDelegation: bool)

  /** How a write can end: before its rename, after it without the directory sync, or cleanly. */
  datatype WriteOutcome = NotCommitted | CommittedUnsynced | Committed

  /** Whether the rename was reached, and whether the caller sees an error. */
  datatype Persisted = Persisted(committed: bool, failed: bool)

  ghost function Persist(opts: Options, next: Records, outcome: WriteOutcome): Persisted {
    if EncodedSize(opts, next) > opts.fileSizeLimit then Persisted(false, true)
    else Persisted(!outcome.NotCommitted?, !outcome.Committed?)
  }

  /** The records after trying to write `next` over `rs`. */
  ghost function AfterWrite(opts: Options, rs: Records, next: Records, outcome: WriteOutcome): Records {
    if Persist(opts, next, outcome).committed then next else rs
  }

  const MAX_DRAWS := 8

  /** The first unused hash among at most `tries` draws; none when they collide or entropy runs out. */
  function FreshHash(rs: Records, draws: seq<Hash>, tries: nat): (h: Option<Hash>)
    ensures h.Some? ==> h.value in draws && h.value !in rs
  {
    if tries == 0 || draws == [] then None
    else if draws[0] !in rs then Some(draws[0])
    else FreshHash(rs, draws[1..], tries - 1)
  }

  // ----- pruning before every change -----

  ghost function PruneStep(opts: Options, rs: Records, now: Time, outcome: WriteOutcome): (r: (Records, bool))
    requires Linked(rs)
    ensures r.0 == rs || r.0 == Pruned(rs, now)
    ensures r.1 ==> r.0 == Pruned(rs, now)
  {
    var next := Pruned(rs, now);
    if next == rs then (rs, true)
    else (AfterWrite(opts, rs, next, outcome), !Persist(opts, next, outcome).failed)
  }

  lemma PruneStepKeeps(opts: Options, rs: Records, now: Time, outcome: WriteOutcome)
    requires Invariant(opts, rs)
    ensures Linked(rs) && Invariant(opts, PruneStep(opts, rs, now, outcome).0)
    ensures Linked(PruneStep(opts, rs, now, outcome).0)
  {
    PruneKeepsInvariant(opts, rs, now);
    SoundIsLinked(opts, PruneStep(opts, rs, now, outcome).0);
  }

  // ----- issuing -----

  /** Adds a record under the capacity checks and one write. */
  ghost function IssueStep(opts: Options, rs: Records, rec: Record, outcome: WriteOutcome): (Records, Reply)
    requires Linked(rs) && Attaches(rs, rec)
  {
    var next := rs[rec.hash := rec];
    IssuedLinked(rs, rec);
    if |next| > opts.maxRecords || !RevocationCapacity(opts, next) then (rs, Failed(RecordLimit))
    else
      (AfterWrite(opts, rs, next, outcome),
       if Persist(opts, next, outcome).failed then Failed(PersistFailed)
       else Issued(rec.hash, ClaimsOf(next, rec.hash)))
  }

  lemma IssuedLinked(rs: Records, rec: Record)
    requires Linked(rs) && Attaches(rs, rec)
    ensures Linked(rs[rec.hash := rec])
  {
  }

  lemma IssueStepKeeps(opts: Options, rs: Records, rec: Record, outcome: WriteOutcome)
    requires Normalized(opts) && Invariant(opts, rs) && Linked(rs)
    requires RecordOk(opts, rec) && Attaches(rs, rec)
    requires |TokensOfRoot(rs, rec.root)| < opts.maxTokensPerRoot
    requires rec.depth > 0 ==> |ChildrenOf(rs, rec.parent)| < opts.maxChildrenPerToken
    ensures Invariant(opts, IssueStep(opts, rs, rec, outcome).0)
  {
    hide Invariant;
    hide RecordOk;
    hide Linked;
    hide RevocationCapacity;
    hide EncodedSize;
    var next := rs[rec.hash := rec];
    assert next.Keys == rs.Keys + {rec.hash};
    assert |next| == |rs| + 1;
    if |next| <= opts.maxRecords && RevocationCapacity(opts, next) {
      IssueKeepsInvariant(opts, rs, rec);
    }
  }

  function RootRecord(req: MintRequest, h: Hash, now: Time): Record {
    Record(h, ZERO_HASH, h, req.workload, req.audience, now, req.expiresAt, req.grants, req.allowDelegation, 0, None)
  }

  predicate MintRequestOk(opts: Options, req: MintRequest) {
    && opts.rule(req.workload, MAX_BINDING_BYTES) && opts.rule(req.audience, MAX_BINDING_BYTES)
    && ValidGrantSet(req.grants, opts.maxGrantsPerToken, opts.rule)
  }

  ghost function MintStep(opts: Options, rs: Records, req: MintRequest, now: Time, draws: seq<Hash>,
                          pruning: WriteOutcome, issuing: WriteOutcome): (Records, Reply)
    requires Linked(rs)
  {
    if !MintRequestOk(opts, req) then (rs, Failed(InvalidRequest))
    else
      var (kept, ok) := PruneStep(opts, rs, now, pruning);
      PrunedLinked(rs, now);
      if !ok then (kept, Failed(PersistFailed))
      else if req.expiresAt == 0 || req.expiresAt <= now then (kept, Failed(InvalidRequest))
      else
        var h := FreshHash(kept, draws, MAX_DRAWS);
        if h.None? then (kept, Failed(Entropy))
        else IssueStep(opts, kept, RootRecord(req, h.value, now), issuing)
  }

  lemma MintKeepsInvariant(opts: Options, rs: Records, req: MintRequest, now: Time, draws: seq<Hash>,
                           pruning: WriteOutcome, issuing: WriteOutcome)
    requires Normalized(opts) && Invariant(opts, rs) && now != 0
    ensures Linked(rs) && Invariant(opts, MintStep(opts, rs, req, now, draws, pruning, issuing).0)
  {
    hide Invariant;
    PruneStepKeeps(opts, rs, now, pruning);
    var kept := PruneStep(opts, rs, now, pruning).0;
    var h := FreshHash(kept, draws, MAX_DRAWS);
    if MintRequestOk(opts, req) && h.Some? && req.expiresAt != 0 && req.expiresAt > now {
      RootIssueKeeps(opts, kept, req, h.value, now, issuing);
    }
  }

  lemma RootIssueKeeps(opts: Options, rs: Records, req: MintRequest, h: Hash, now: Time, outcome: WriteOutcome)
    requires Normalized(opts) && Invariant(opts, rs) && Linked(rs) && now != 0 && MintRequestOk(opts, req)
    requires h !in rs && req.expiresAt != 0 && req.expiresAt > now
    ensures Invariant(opts, IssueStep(opts, rs, RootRecord(req, h, now), outcome).0)
  {
    hide IssueStep;
    NoTokensOfNewRoot(opts, rs, h);
    IssueStepKeeps(opts, rs, RootRecord(req, h, now), outcome);
  }

  function ChildRecord(req: DelegateRequest, parent: Record, h: Hash, now: Time): Record {
    Record(h, parent.hash, parent.root, req.workload, parent.audience, now, req.expiresAt, req.grants,
           req.allowDelegation, parent.depth + 1, None)
  }

  predicate DelegateRequestOk(opts: Options, req: DelegateRequest) {
    && opts.rule(req.callerWorkload, MAX_BINDING_BYTES) && opts.rule(req.audience, MAX_BINDING_BYTES)
    && opts.rule(req.workload, MAX_BINDING_BYTES)
    && ValidGrantSet(req.grants, opts.maxGrantsPerToken, opts.rule)
  }

  /** Why a live parent may not delegate this, in the order the store checks. */
  ghost function Refusal(opts: Options, rs: Records, parent: Record, req: DelegateRequest, now: Time): Option<Failure> {
    if !parent.allowDelegation then Some(DelegationNotAllowed)
    else if parent.depth + 1 > opts.maxDelegationDepth then Some(DelegationDepth)
    else if req.expiresAt == 0 || req.expiresAt <= now then Some(InvalidRequest)
    else if req.expiresAt > parent.expiresAt then Some(ExpiryBroadening)
    else if !GrantsSubset(req.grants, parent.grants) then Some(GrantBroadening)
    else if |ChildrenOf(rs, parent.hash)| >= opts.maxChildrenPerToken then Some(ChildLimit)
    else if |TokensOfRoot(rs, parent.root)| >= opts.maxTokensPerRoot then Some(RootTokenLimit)
    else None
  }

  /** A permitted child attaches below its parent. */
  lemma ChildAttaches(opts: Options, rs: Records, parent: Record, req: DelegateRequest, h: Hash, now: Time)
    requires parent.hash in rs && rs[parent.hash] == parent && parent.revokedAt.None? && h !in rs
    requires Refusal(opts, rs, parent, req, now).None?
    ensures Attaches(rs, ChildRecord(req, parent, h, now))
  {
  }

  ghost function DelegateStep(opts: Options, rs: Records, bearer: Bearer, req: DelegateRequest, now: Time,
                              draws: seq<Hash>, pruning: WriteOutcome, issuing: WriteOutcome): (Records, Reply)
    requires Linked(rs)
  {
    if !DelegateRequestOk(opts, req) then (rs, Failed(InvalidRequest))
    else
      var (kept, ok) := PruneStep(opts, rs, now, pruning);
      PrunedLinked(rs, now);
      if !ok then (kept, Failed(PersistFailed))
      else if !Validates(kept, bearer, Binding(req.callerWorkload, req.audience), now) then (kept, Failed(InvalidToken))
      else
        var parent := kept[bearer.hash];
        var refusal := Refusal(opts, kept, parent, req, now);
        if refusal.Some? then (kept, Failed(refusal.value))
        else
          var h := FreshHash(kept, draws, MAX_DRAWS);
          if h.None? then (kept, Failed(Entropy))
          else
            ChildAttaches(opts, kept, parent, req, h.value, now);
            IssueStep(opts, kept, ChildRecord(req, parent, h.value, now), issuing)
  }

  lemma DelegateKeepsInvariant(opts: Options, rs: Records, bearer: Bearer, req: DelegateRequest, now: Time,
                               draws: seq<Hash>, pruning: WriteOutcome, issuing: WriteOutcome)
    requires Normalized(opts) && Invariant(opts, rs) && now != 0
    ensures Linked(rs) && Invariant(opts, DelegateStep(opts, rs, bearer, req, now, draws, pruning, issuing).0)
  {
    hide Invariant;
    PruneStepKeeps(opts, rs, now, pruning);
    var kept := PruneStep(opts, rs, now, pruning).0;
    if DelegateRequestOk(opts, req) && Validates(kept, bearer, Binding(req.callerWorkload, req.audience), now) {
      var parent, h := kept[bearer.hash], FreshHash(kept, draws, MAX_DRAWS);
      if Refusal(opts, kept, parent, req, now).None? && h.Some? {
        ChildIssueKeeps(opts, kept, parent, req, h.value, now, issuing);
      }
    }
  }

  lemma ChildIssueKeeps(opts: Options, rs: Records, parent: Record, req: DelegateRequest, h: Hash, now: Time,
                        outcome: WriteOutcome)
    requires Normalized(opts) && Invariant(opts, rs) && Linked(rs) && now != 0 && DelegateRequestOk(opts, req)
    requires parent.hash in rs && rs[parent.hash] == parent && parent.revokedAt.None? && h !in rs
    requires Refusal(opts, rs, parent, req, now).None?
    ensures Attaches(rs, ChildRecord(req, parent, h, now))
    ensures Invariant(opts, IssueStep(opts, rs, ChildRecord(req, parent, h, now), outcome).0)
  {
    hide IssueStep;
    assert RecordOk(opts, parent);
    ChildAttaches(opts, rs, parent, req, h, now);
    IssueStepKeeps(opts, rs, ChildRecord(req, parent, h, now), outcome);
  }

  // ----- revoking -----

  ghost function RevokeStep(opts: Options, rs: Records, target: Hash, now: Time,
                            pruning: WriteOutcome, revoking: WriteOutcome): (r: (Records, Reply))
    requires Linked(rs)
    ensures Linked(PruneStep(opts, rs, now, pruning).0)
    ensures r.0 == PruneStep(opts, rs, now, pruning).0 || r.0 == Revoked(PruneStep(opts, rs, now, pruning).0, target, now)
    ensures r.1 == Done ==>
              && PruneStep(opts, rs, now, pruning).1
              && (target in r.0 ==> r.0 == Revoked(PruneStep(opts, rs, now, pruning).0, target, now))
  {
    var wasInactive := target in rs && InactiveLineage(rs, target, now);
    var (kept, ok) := PruneStep(opts, rs, now, pruning);
    PrunedLinked(rs, now);
    if !ok then (kept, Failed(PersistFailed))
    else if target !in kept then (kept, if wasInactive then Done else Failed(InvalidToken))
    else
      var next := Revoked(kept, target, now);
      if next == kept then (kept, Done)
      else
        (AfterWrite(opts, kept, next, revoking),
         if Persist(opts, next, revoking).failed then Failed(PersistFailed) else Done)
  }

  lemma RevokeStepKeepsInvariant(opts: Options, rs: Records, target: Hash, now: Time,
                                 pruning: WriteOutcome, revoking: WriteOutcome)
    requires Invariant(opts, rs) && now != 0
    ensures Linked(rs) && Invariant(opts, RevokeStep(opts, rs, target, now, pruning, revoking).0)
  {
    hide Invariant;
    PruneStepKeeps(opts, rs, now, pruning);
    RevokeKeepsInvariant(opts, PruneStep(opts, rs, now, pruning).0, target, now);
  }

  /**
   No revocation ever fails for size: from any state that keeps the invariant, if the disk
   accepts the two writes then revoking a stored token succeeds, and so does its pruning.
   */
  lemma RevocationAlwaysFits(opts: Options, rs: Records, target: Hash, now: Time)
    requires Normalized(opts) && Invariant(opts, rs) && now != 0 && target in rs
    ensures Linked(rs)
    ensures RevokeStep(opts, rs, target, now, Committed, Committed).1 == Done
    ensures !Persist(opts, Pruned(rs, now), Committed).failed
    ensures !Persist(opts, Revoked(rs, target, now), Committed).failed
  {
    hide Invariant;
    hide Revoked;
    PruneStepKeeps(opts, rs, now, Committed);
    InvariantFits(opts, Pruned(rs, now), Committed) by {
      PruneKeepsInvariant(opts, rs, now);
    }
    InvariantFits(opts, Revoked(rs, target, now), Committed) by {
      RevokeKeepsInvariant(opts, rs, target, now);
    }
    var kept := PruneStep(opts, rs, now, Committed).0;
    InvariantFits(opts, Revoked(kept, target, now), Committed) by {
      RevokeKeepsInvariant(opts, kept, target, now);
    }
  }

  /** What keeps the invariant can be written. */
  lemma InvariantFits(opts: Options, rs: Records, outcome: WriteOutcome)
    requires Normalized(opts) && Invariant(opts, rs)
    ensures Persist(opts, rs, outcome) == Persisted(!outcome.NotCommitted?, !outcome.Committed?)
  {
    HeadroomFits(opts, rs);
  }

  // ----- opening -----

  /** `Open` on a file holding `disk`, or on no file at all. */
  ghost function OpenStep(opts: Options, disk: Option<Records>, now: Time, outcome: WriteOutcome): Option<Records> {
    if disk.Some? && (EncodedSize(opts, disk.value) > opts.fileSizeLimit
                      || |disk.value| > HARD_MAX_RECORDS || !Sound(opts, disk.value)) then None
    else
      var loaded := if disk.Some? then disk.value else map[];
      SoundIsLinked(opts, loaded);
      var kept := Pruned(loaded, now);
      if !WithinBounds(opts, kept) || !RevocationCapacity(opts, kept) then None
      else if (disk.None? || kept != loaded) && Persist(opts, kept, outcome).failed then None
      else Some(kept)
  }

  lemma PrunedIsUnrevoked(rs: Records, now: Time)
    requires Linked(rs)
    ensures forall h :: h in Pruned(rs, now) ==> Pruned(rs, now)[h].revokedAt.None?
  {
  }

  /** A store that opens keeps the invariant. */
  lemma OpenEstablishesInvariant(opts: Options, disk: Option<Records>, now: Time, outcome: WriteOutcome)
    requires Normalized(opts)
    ensures OpenStep(opts, disk, now, outcome).Some? ==> Invariant(opts, OpenStep(opts, disk, now, outcome).value)
  {
    if OpenStep(opts, disk, now, outcome).Some? {
      var loaded := if disk.Some? then disk.value else map[];
      SoundIsLinked(opts, loaded);
      SoundPruned(opts, loaded, now);
      CapacityGivesHeadroom(opts, Pruned(loaded, now));
    }
  }

  /**
   Crash and reopen: what was on disk passes every check of the loader, the reopened records
   are the pruned ones, and no later question gets a different answer than it would have got.
   */
  lemma ReopenSucceeds(opts: Options, rs: Records, now: Time)
    requires Normalized(opts) && Invariant(opts, rs)
    ensures Linked(rs) && OpenStep(opts, Some(rs), now, Committed) == Some(Pruned(rs, now))
    ensures Linked(Pruned(rs, now))
    ensures forall bearer, req, t :: now <= t ==> Answer(Pruned(rs, now), bearer, req, t) == Answer(rs, bearer, req, t)
  {
    PruneKeepsInvariant(opts, rs, now);
    PrunedIsUnrevoked(rs, now);
    HeadroomFits(opts, rs);
    HeadroomFits(opts, Pruned(rs, now));
    HeadroomGivesCapacity(opts, Pruned(rs, now));
    PrunedLinked(rs, now);
    forall bearer, req, t | now <= t ensures Answer(Pruned(rs, now), bearer, req, t) == Answer(rs, bearer, req, t) {
      PruneIsInvisible(rs, now, bearer, req, t);
    }
  }

  lemma ReopenChecksPass(opts: Options, rs: Records, now: Time)
    requires Normalized(opts) && Invariant(opts, rs)
    ensures Linked(rs) && Sound(opts, rs) && |rs| <= HARD_MAX_RECORDS && EncodedSize(opts, rs) <= opts.fileSizeLimit
    ensures WithinBounds(opts, Pruned(rs, now)) && RevocationCapacity(opts, Pruned(rs, now))
  {
    PruneKeepsInvariant(opts, rs, now);
    PrunedIsUnrevoked(rs, now);
    HeadroomFits(opts, rs);
    HeadroomGivesCapacity(opts, Pruned(rs, now));
  }

  /**
   Reopening is a prune, for every outcome of its write: the store opens exactly when the prune
   succeeds, and then with the pruned records.
   */
  lemma ReopenIsPrune(opts: Options, rs: Records, now: Time, outcome: WriteOutcome)
    requires Normalized(opts) && Invariant(opts, rs)
    ensures Linked(rs)
    ensures OpenStep(opts, Some(rs), now, outcome).Some? <==> PruneStep(opts, rs, now, outcome).1
    ensures OpenStep(opts, Some(rs), now, outcome).Some? ==>
              OpenStep(opts, Some(rs), now, outcome).value == PruneStep(opts, rs, now, outcome).0
  {
    hide Normalized;
    hide Invariant;
    hide Sound;
    hide Linked;
    hide WithinBounds;
    hide RevocationCapacity;
    hide Pruned;
    hide EncodedSize;
    ReopenChecksPass(opts, rs, now);
  }
}
