/**
 Whole runs of the token store: any sequence of mints, delegations, revocations and
 crash-and-reopens, with any outcome of every write.
 */
module TokenRuns {
  import opened Octets
  import opened Tokens
  import opened TokenForest
  import opened TokenRules
  import opened TokenSteps

  datatype Event =
    | Mint(mint: MintRequest, now: Time, draws: seq<Hash>, pruning: WriteOutcome, writing: WriteOutcome)
    | Delegate(bearer: Bearer, child: DelegateRequest, now: Time, draws: seq<Hash>, pruning: WriteOutcome, writing: WriteOutcome)
    | Revoke(target: Hash, now: Time, pruning: WriteOutcome, writing: WriteOutcome)
    | Reopen(now: Time, pruning: WriteOutcome)

  function DrawsOf(e: Event): seq<Hash> {
    if e.Mint? || e.Delegate? then e.draws else []
  }

  /** The records on disk, and in memory if the store is up, after one event; reopening is a prune. */
  ghost function Apply(opts: Options, rs: Records, e: Event): Records
    requires Linked(rs)
  {
    match e
    case Mint(req, now, draws, pruning, writing) => MintStep(opts, rs, req, now, draws, pruning, writing).0
    case Delegate(bearer, req, now, draws, pruning, writing) =>
      DelegateStep(opts, rs, bearer, req, now, draws, pruning, writing).0
    case Revoke(target, now, pruning, writing) => RevokeStep(opts, rs, target, now, pruning, writing).0
    case Reopen(now, pruning) => PruneStep(opts, rs, now, pruning).0
  }

  lemma ApplyKeepsInvariant(opts: Options, rs: Records, e: Event)
    requires Normalized(opts) && Invariant(opts, rs) && e.now != 0
    ensures Linked(rs) && Invariant(opts, Apply(opts, rs, e)) && Linked(Apply(opts, rs, e))
  {
    hide Invariant;
    InvariantIsLinked(opts, rs);
    match e {
      case Mint(req, now, draws, pruning, writing) => MintKeepsInvariant(opts, rs, req, now, draws, pruning, writing);
      case Delegate(bearer, req, now, draws, pruning, writing) =>
        DelegateKeepsInvariant(opts, rs, bearer, req, now, draws, pruning, writing);
      case Revoke(target, now, pruning, writing) => RevokeStepKeepsInvariant(opts, rs, target, now, pruning, writing);
      case Reopen(now, pruning) => PruneStepKeeps(opts, rs, now, pruning);
    }
    InvariantIsLinked(opts, Apply(opts, rs, e));
  }

  lemma InvariantIsLinked(opts: Options, rs: Records)
    requires Invariant(opts, rs)
    ensures Linked(rs)
  {
    SoundIsLinked(opts, rs);
  }

  /** The clock never shows Go's zero time. */
  predicate Clocked(events: seq<Event>) {
    forall i :: 0 <= i < |events| ==> events[i].now != 0
  }

  /** Every state of every run keeps the loader's demands, the bounds and the head-room. */
  ghost function After(opts: Options, rs: Records, events: seq<Event>): (end: Records)
    requires Normalized(opts) && Invariant(opts, rs) && Clocked(events)
    ensures Invariant(opts, end) && Linked(end)
    decreases |events|
  {
    InvariantIsLinked(opts, rs);
    if events == [] then rs
    else
      ApplyKeepsInvariant(opts, rs, events[0]);
      After(opts, Apply(opts, rs, events[0]), events[1..])
  }

  /** Wherever a run stops, reopening the file succeeds and no later question is answered differently. */
  lemma CrashIsInvisible(opts: Options, rs: Records, events: seq<Event>, now: Time)
    requires Normalized(opts) && Invariant(opts, rs) && Clocked(events)
    ensures OpenStep(opts, Some(After(opts, rs, events)), now, Committed)
         == Some(Pruned(After(opts, rs, events), now))
    ensures Linked(Pruned(After(opts, rs, events), now))
    ensures forall bearer, req, t :: now <= t ==>
              Answer(Pruned(After(opts, rs, events), now), bearer, req, t) == Answer(After(opts, rs, events), bearer, req, t)
  {
    ReopenSucceeds(opts, After(opts, rs, events), now);
  }

  // ----- revocation is for ever -----

  /** The token is no longer stored, or is stored as revoked. */
  predicate Gone(rs: Records, h: Hash) {
    h in rs ==> rs[h].revokedAt.Some?
  }

  lemma GoneNeverValidates(rs: Records, h: Hash, req: Binding, t: Time)
    requires Linked(rs) && Gone(rs, h)
    ensures Answer(rs, WellFormed(h), req, t) == None
  {
  }

  lemma IssueStepKeepsGone(opts: Options, rs: Records, rec: Record, outcome: WriteOutcome, h: Hash)
    requires Linked(rs) && Attaches(rs, rec) && Gone(rs, h) && h != rec.hash
    ensures Gone(IssueStep(opts, rs, rec, outcome).0, h)
  {
  }

  lemma GoneStaysGone(opts: Options, rs: Records, e: Event, h: Hash)
    requires Linked(rs) && Gone(rs, h) && h !in DrawsOf(e)
    ensures Gone(Apply(opts, rs, e), h)
  {
    hide EncodedSize;
    hide RevocationCapacity;
    match e {
      case Mint(req, now, draws, pruning, writing) =>
        var kept := PruneStep(opts, rs, now, pruning).0;
        PrunedLinked(rs, now);
        var fresh' := FreshHash(kept, draws, MAX_DRAWS);
        if fresh'.Some? {
          IssueStepKeepsGone(opts, kept, RootRecord(req, fresh'.value, now), writing, h);
        }
      case Delegate(bearer, req, now, draws, pruning, writing) =>
        DelegateKeepsGone(opts, rs, e, h);
      case Revoke(_, _, _, _) =>
      case Reopen(_, _) =>
    }
  }

  lemma DelegateKeepsGone(opts: Options, rs: Records, e: Event, h: Hash)
    requires Linked(rs) && Gone(rs, h) && h !in DrawsOf(e) && e.Delegate?
    ensures Gone(Apply(opts, rs, e), h)
  {
    hide EncodedSize;
    hide RevocationCapacity;
    var kept := PruneStep(opts, rs, e.now, e.pruning).0;
    PrunedLinked(rs, e.now);
    if Validates(kept, e.bearer, Binding(e.child.callerWorkload, e.child.audience), e.now) {
      var parent, drawn := kept[e.bearer.hash], FreshHash(kept, e.draws, MAX_DRAWS);
      if Refusal(opts, kept, parent, e.child, e.now).None? && drawn.Some? {
        ChildAttaches(opts, kept, parent, e.child, drawn.value, e.now);
        IssueStepKeepsGone(opts, kept, ChildRecord(e.child, parent, drawn.value, e.now), e.writing, h);
      }
    }
  }

  lemma {:induction false} GoneForEver(opts: Options, rs: Records, events: seq<Event>, h: Hash)
    requires Normalized(opts) && Invariant(opts, rs) && Clocked(events) && Gone(rs, h)
    requires forall i :: 0 <= i < |events| ==> h !in DrawsOf(events[i])
    ensures Gone(After(opts, rs, events), h)
    decreases |events|
  {
    if events != [] {
      ApplyKeepsInvariant(opts, rs, events[0]);
      GoneStaysGone(opts, rs, events[0], h);
      GoneForEver(opts, Apply(opts, rs, events[0]), events[1..], h);
    }
  }

  lemma {:induction false} SurvivorsKeepAncestors(rs: Records, now: Time, h: Hash, ancestor: Hash)
    requires Linked(rs) && h in Pruned(rs, now)
    ensures Linked(Pruned(rs, now))
    ensures Descends(Pruned(rs, now), h, ancestor) <==> Descends(rs, h, ancestor)
    ensures Descends(rs, h, ancestor) ==> ancestor in Pruned(rs, now)
    decreases rs[h].depth
  {
    PrunedLinked(rs, now);
    if rs[h].depth > 0 {
      SurvivorsKeepAncestors(rs, now, rs[h].parent, ancestor);
    }
  }

  /**
   A revocation took effect: it pruned, and its marks reached the disk or there were none to
   write. The caller may have seen an error all the same, when the directory was not synced.
   */
  ghost predicate TookEffect(opts: Options, rs: Records, target: Hash, now: Time,
                             pruning: WriteOutcome, revoking: WriteOutcome)
    requires Linked(rs)
  {
    PruneStep(opts, rs, now, pruning).1
    && (!revoking.NotCommitted? || RevokeStep(opts, rs, target, now, pruning, revoking).1 == Done)
  }

  /** What a committed revocation leaves, whatever it reported: the marks, on the pruned records. */
  lemma CommittedRevokeMarks(opts: Options, rs: Records, target: Hash, now: Time,
                             pruning: WriteOutcome, revoking: WriteOutcome)
    requires Normalized(opts) && Invariant(opts, rs) && Linked(rs) && now != 0
    requires TookEffect(opts, rs, target, now, pruning, revoking)
    ensures Linked(Pruned(rs, now))
    ensures RevokeStep(opts, rs, target, now, pruning, revoking).0 == Revoked(Pruned(rs, now), target, now)
  {
    hide Invariant;
    hide Normalized;
    hide InactiveLineage;
    PruneStepKeeps(opts, rs, now, pruning);
    var kept := Pruned(rs, now);
    RevokeKeepsInvariant(opts, kept, target, now);
    InvariantFits(opts, Revoked(kept, target, now), revoking);
    if target !in kept {
      MarkingNothing(kept, target, now);
    }
  }

  lemma MarkingNothing(rs: Records, target: Hash, now: Time)
    requires Linked(rs) && target !in rs
    ensures Revoked(rs, target, now) == rs
  {
    forall h | h in rs ensures !Descends(rs, h, target) {
      AncestorsAreStored(rs, h, target);
    }
  }

  lemma {:induction false} AncestorsAreStored(rs: Records, h: Hash, ancestor: Hash)
    requires Linked(rs) && h in rs
    ensures Descends(rs, h, ancestor) ==> ancestor in rs
    decreases rs[h].depth
  {
    if rs[h].depth > 0 {
      AncestorsAreStored(rs, rs[h].parent, ancestor);
    }
  }

  /** Every committed revocation leaves nothing of the subtree, also one that was reported as failed. */
  lemma RevokeClearsSubtree(opts: Options, rs: Records, target: Hash, now: Time,
                            pruning: WriteOutcome, revoking: WriteOutcome, h: Hash)
    requires Normalized(opts) && Invariant(opts, rs) && Linked(rs) && now != 0
    requires h in rs && Descends(rs, h, target)
    requires TookEffect(opts, rs, target, now, pruning, revoking)
    ensures Gone(RevokeStep(opts, rs, target, now, pruning, revoking).0, h)
  {
    hide RevokeStep;
    hide PruneStep;
    hide Invariant;
    CommittedRevokeMarks(opts, rs, target, now, pruning, revoking);
    if h in Pruned(rs, now) {
      SurvivorsKeepAncestors(rs, now, h, target);
    }
  }

  /** In particular one that reports success. */
  lemma SuccessTookEffect(opts: Options, rs: Records, target: Hash, now: Time,
                          pruning: WriteOutcome, revoking: WriteOutcome)
    requires Linked(rs)
    ensures RevokeStep(opts, rs, target, now, pruning, revoking).1 == Done
            ==> TookEffect(opts, rs, target, now, pruning, revoking)
  {
    hide RevokeStep;
    hide PruneStep;
  }

  /**
   Cascading revocation over whole runs: once a revocation of `target` was committed, no token
   delegated from it validates in any later state, for any binding and at any time, unless the
   random source draws that very token again.
   */
  lemma RevokedForEver(opts: Options, rs: Records, target: Hash, now: Time, pruning: WriteOutcome,
                       revoking: WriteOutcome, later: seq<Event>, h: Hash, req: Binding, t: Time)
    requires Normalized(opts) && Invariant(opts, rs) && now != 0 && Clocked(later)
    requires Linked(rs) && h in rs && Descends(rs, h, target)
    requires TookEffect(opts, rs, target, now, pruning, revoking)
    requires forall i :: 0 <= i < |later| ==> h !in DrawsOf(later[i])
    ensures Invariant(opts, RevokeStep(opts, rs, target, now, pruning, revoking).0)
    ensures Answer(After(opts, RevokeStep(opts, rs, target, now, pruning, revoking).0, later), WellFormed(h), req, t) == None
  {
    hide Invariant;
    hide RevokeStep;
    hide TookEffect;
    var next := RevokeStep(opts, rs, target, now, pruning, revoking).0;
    RevokeStepKeepsInvariant(opts, rs, target, now, pruning, revoking);
    RevokeClearsSubtree(opts, rs, target, now, pruning, revoking, h);
    GoneForEver(opts, next, later, h);
    GoneNeverValidates(After(opts, next, later), h, req, t);
  }

  lemma MarkingSparesOthers(rs: Records, target: Hash, now: Time, h: Hash, req: Binding, t: Time)
    requires Linked(rs) && (h in rs ==> !Descends(rs, h, target))
    ensures Linked(Revoked(rs, target, now))
    ensures Answer(Revoked(rs, target, now), WellFormed(h), req, t) == Answer(rs, WellFormed(h), req, t)
  {
    RevokedLinked(rs, target, now);
    if h in rs {
      RevokeIsExact(rs, target, now, h, req, t);
    } else {
      AbsentNeverValidates(rs, h, req, t);
      AbsentNeverValidates(Revoked(rs, target, now), h, req, t);
    }
  }

  /** Revoking answers every token outside the subtree as before, whatever the writes did. */
  lemma RevokeSparesOthers(opts: Options, rs: Records, target: Hash, now: Time,
                           pruning: WriteOutcome, revoking: WriteOutcome, h: Hash, req: Binding, t: Time)
    requires Linked(rs) && h in rs && !Descends(rs, h, target) && now <= t
    ensures Linked(RevokeStep(opts, rs, target, now, pruning, revoking).0)
    ensures Answer(RevokeStep(opts, rs, target, now, pruning, revoking).0, WellFormed(h), req, t)
         == Answer(rs, WellFormed(h), req, t)
  {
    hide RevokeStep;
    hide PruneStep;
    hide Answer;
    var kept := PruneStep(opts, rs, now, pruning).0;
    PruneIsInvisible(rs, now, WellFormed(h), req, t);
    if kept == Pruned(rs, now) && h in kept {
      SurvivorsKeepAncestors(rs, now, h, target);
    }
    MarkingSparesOthers(kept, target, now, h, req, t);
  }

  lemma AbsentNeverValidates(rs: Records, h: Hash, req: Binding, t: Time)
    requires Linked(rs) && h !in rs
    ensures Answer(rs, WellFormed(h), req, t) == None
  {
  }

  // ----- issuing -----

  lemma {:induction false} IssuingSparesLineage(rs: Records, rec: Record, h: Hash, t: Time, root: Hash)
    requires Linked(rs) && Attaches(rs, rec) && h in rs
    ensures Linked(rs[rec.hash := rec])
    ensures InactiveLineage(rs[rec.hash := rec], h, t) <==> InactiveLineage(rs, h, t)
    ensures RootAgrees(rs[rec.hash := rec], h, root) <==> RootAgrees(rs, h, root)
    ensures Chain(rs[rec.hash := rec], h) == Chain(rs, h)
    decreases rs[h].depth
  {
    IssuedLinked(rs, rec);
    if rs[h].depth > 0 {
      IssuingSparesLineage(rs, rec, rs[h].parent, t, root);
    }
  }

  /** Ancestors live at least as long as a token that keeps within them. */
  lemma {:induction false} LineageOutlives(opts: Options, rs: Records, h: Hash, now: Time, t: Time)
    requires Sound(opts, rs) && Linked(rs) && h in rs && !InactiveLineage(rs, h, now) && t < rs[h].expiresAt
    ensures !InactiveLineage(rs, h, t)
    decreases rs[h].depth
  {
    if rs[h].depth > 0 {
      assert LineageOk(rs, h);
      LineageOutlives(opts, rs, rs[h].parent, now, t);
    }
  }

  /** A token just issued validates for its own workload and audience until it expires. */
  lemma IssuedValidates(opts: Options, rs: Records, rec: Record, now: Time, t: Time)
    requires Normalized(opts) && Sound(opts, rs) && Linked(rs) && Attaches(rs, rec) && RecordOk(opts, rec)
    requires rec.depth > 0 ==> !InactiveLineage(rs, rec.parent, now)
    requires t < rec.expiresAt
    ensures Linked(rs[rec.hash := rec])
    ensures Answer(rs[rec.hash := rec], WellFormed(rec.hash), Binding(rec.workload, rec.audience), t)
         == Some(ClaimsOf(rs[rec.hash := rec], rec.hash))
  {
    var next := rs[rec.hash := rec];
    IssuedLinked(rs, rec);
    if rec.depth > 0 {
      LineageOutlives(opts, rs, rec.parent, now, t);
      RootLives(opts, rs, rec.parent, t);
      IssuingSparesLineage(rs, rec, rec.parent, t, rec.root);
    }
    assert 0 < |rec.workload| <= MAX_BINDING_BYTES;
    assert 0 < |rec.audience| <= MAX_BINDING_BYTES;
  }
}
