/**
 What a token is worth is what was asked for: over every run, the store answers for a token
 exactly the terms of the request that issued it, to exactly the binding of that request.
 */
module TokenOrigins {
  import opened Octets
  import opened Tokens
  import opened TokenForest
  import opened TokenWalks
  import opened TokenRules
  import opened TokenSteps
  import opened TokenRuns

  /** The terms of a request for a token. */
  datatype Terms = Terms(
    workload: string, audience: string, issuedAt: Time, expiresAt: Time, grants: seq<Grant>,
    allowDelegation: bool, parent: Option<Hash>)

  /** What an event asks for; a delegation is asked of the bearer's token, for the caller's audience. */
  function TermsOf(e: Event): Option<Terms> {
    match e
    case Mint(req, now, _, _, _) =>
      Some(Terms(req.workload, req.audience, now, req.expiresAt, req.grants, req.allowDelegation, None))
    case Delegate(bearer, req, now, _, _, _) =>
      if bearer.WellFormed? then
        Some(Terms(req.workload, req.audience, now, req.expiresAt, req.grants, req.allowDelegation, Some(bearer.hash)))
      else None
    case _ => None
  }

  predicate Grants(terms: Terms, claims: Claims) {
    && claims.workload == terms.workload && claims.audience == terms.audience
    && claims.issuedAt == terms.issuedAt && claims.expiresAt == terms.expiresAt
    && claims.grants == terms.grants && claims.allowDelegation == terms.allowDelegation
    && claims.parentTokenID == terms.parent
  }

  /** The reply to an event that may issue a token. */
  ghost function ReplyTo(opts: Options, rs: Records, e: Event): Reply
    requires Linked(rs) && (e.Mint? || e.Delegate?)
  {
    if e.Mint? then MintStep(opts, rs, e.mint, e.now, e.draws, e.pruning, e.writing).1
    else DelegateStep(opts, rs, e.bearer, e.child, e.now, e.draws, e.pruning, e.writing).1
  }

  // ----- one event -----

  /** Stored before, or issued by this event on its terms; revocation aside. */
  ghost predicate Explained(rs: Records, next: Records, e: Event, h: Hash)
    requires Linked(rs) && Linked(next) && h in next
  {
    || (h in rs && Unrevoked(next[h]) == Unrevoked(rs[h]))
    || (h in DrawsOf(e) && TermsOf(e).Some? && Grants(TermsOf(e).value, ClaimsOf(next, h)) && e.now < next[h].expiresAt)
  }

  lemma IssuedExplained(opts: Options, rs: Records, kept: Records, rec: Record, outcome: WriteOutcome, e: Event, h: Hash)
    requires Linked(rs) && Linked(kept) && Attaches(kept, rec)
    requires forall k :: k in kept ==> k in rs && kept[k] == rs[k]
    requires rec.hash in DrawsOf(e) && TermsOf(e).Some? && Grants(TermsOf(e).value, ClaimsWith(rec, []))
    requires e.now < rec.expiresAt
    requires h in IssueStep(opts, kept, rec, outcome).0
    ensures Linked(IssueStep(opts, kept, rec, outcome).0)
    ensures Explained(rs, IssueStep(opts, kept, rec, outcome).0, e, h)
  {
    hide EncodedSize;
    hide RevocationCapacity;
    hide Attaches;
    hide Linked;
    hide Chain;
    IssuedLinked(kept, rec);
  }

  lemma MintExplained(opts: Options, rs: Records, e: Event, h: Hash)
    requires Linked(rs) && e.Mint? && h in Apply(opts, rs, e)
    ensures Linked(Apply(opts, rs, e)) && Explained(rs, Apply(opts, rs, e), e, h)
  {
    hide IssueStep;
    hide InactiveLineage;
    PrunedLinked(rs, e.now);
    var kept := PruneStep(opts, rs, e.now, e.pruning).0;
    var drawn := FreshHash(kept, e.draws, MAX_DRAWS);
    if MintRequestOk(opts, e.mint) && PruneStep(opts, rs, e.now, e.pruning).1 && drawn.Some?
       && e.mint.expiresAt != 0 && e.mint.expiresAt > e.now {
      IssuedExplained(opts, rs, kept, RootRecord(e.mint, drawn.value, e.now), e.writing, e, h);
    }
  }

  lemma DelegateExplained(opts: Options, rs: Records, e: Event, h: Hash)
    requires Linked(rs) && e.Delegate? && h in Apply(opts, rs, e)
    ensures Linked(Apply(opts, rs, e)) && Explained(rs, Apply(opts, rs, e), e, h)
  {
    hide IssueStep;
    hide InactiveLineage;
    PrunedLinked(rs, e.now);
    var kept := PruneStep(opts, rs, e.now, e.pruning).0;
    if Validates(kept, e.bearer, Binding(e.child.callerWorkload, e.child.audience), e.now) {
      var parent, drawn := kept[e.bearer.hash], FreshHash(kept, e.draws, MAX_DRAWS);
      if DelegateRequestOk(opts, e.child) && PruneStep(opts, rs, e.now, e.pruning).1
         && Refusal(opts, kept, parent, e.child, e.now).None? && drawn.Some? {
        NotRevoked(kept, e.bearer.hash, e.now);
        ChildAttaches(opts, kept, parent, e.child, drawn.value, e.now);
        IssuedExplained(opts, rs, kept, ChildRecord(e.child, parent, drawn.value, e.now), e.writing, e, h);
      }
    }
  }

  lemma NotRevoked(rs: Records, h: Hash, now: Time)
    requires Linked(rs) && h in rs && !InactiveLineage(rs, h, now)
    ensures rs[h].revokedAt.None?
  {
  }

  lemma ApplyExplained(opts: Options, rs: Records, e: Event, h: Hash)
    requires Linked(rs) && h in Apply(opts, rs, e)
    ensures Linked(Apply(opts, rs, e)) && Explained(rs, Apply(opts, rs, e), e, h)
  {
    hide InactiveLineage;
    hide EncodedSize;
    hide RevocationCapacity;
    match e {
      case Mint(_, _, _, _, _) => MintExplained(opts, rs, e, h);
      case Delegate(_, _, _, _, _, _) => DelegateExplained(opts, rs, e, h);
      case Revoke(target, now, pruning, _) =>
        PrunedLinked(rs, now);
        RevokedLinked(PruneStep(opts, rs, now, pruning).0, target, now);
      case Reopen(now, _) => PrunedLinked(rs, now);
    }
  }

  // ----- whole runs: every answer has an origin -----

  predicate AskedFor(e: Event, h: Hash, req: Binding) {
    h in DrawsOf(e)
    && ((e.Mint? && e.mint.workload == req.workload && e.mint.audience == req.audience)
        || (e.Delegate? && e.child.workload == req.workload && e.child.audience == req.audience))
  }

  ghost predicate IssuedAmong(events: seq<Event>, h: Hash, claims: Claims) {
    exists i :: 0 <= i < |events| && IssuedBy(events[i], h, claims)
  }

  predicate IssuedBy(e: Event, h: Hash, claims: Claims) {
    h in DrawsOf(e) && TermsOf(e).Some? && Grants(TermsOf(e).value, claims) && e.now < claims.expiresAt
  }

  lemma {:induction false} RecordsHaveOrigin(opts: Options, rs: Records, events: seq<Event>, h: Hash)
    requires Normalized(opts) && Invariant(opts, rs) && Clocked(events) && h in After(opts, rs, events)
    ensures (h in rs && Unrevoked(After(opts, rs, events)[h]) == Unrevoked(rs[h]))
            || IssuedAmong(events, h, ClaimsOf(After(opts, rs, events), h))
    decreases |events|
  {
    hide Normalized;
    hide Invariant;
    if events != [] {
      ApplyKeepsInvariant(opts, rs, events[0]);
      var middle, end := Apply(opts, rs, events[0]), After(opts, rs, events);
      RecordsHaveOrigin(opts, middle, events[1..], h);
      if h in middle && Unrevoked(end[h]) == Unrevoked(middle[h]) {
        ApplyExplained(opts, rs, events[0], h);
        SameTerms(middle, end, events[0], h);
      } else {
        var i :| 0 <= i < |events[1..]| && IssuedBy(events[1..][i], h, ClaimsOf(end, h));
        assert IssuedBy(events[i + 1], h, ClaimsOf(end, h));
      }
    }
  }

  lemma SameTerms(before: Records, end: Records, e: Event, h: Hash)
    requires Linked(before) && Linked(end) && h in before && h in end && Unrevoked(end[h]) == Unrevoked(before[h])
    ensures IssuedBy(e, h, ClaimsOf(before, h)) ==> IssuedBy(e, h, ClaimsOf(end, h))
  {
    hide Chain;
    var a, b := Unrevoked(before[h]), Unrevoked(end[h]);
    assert a.workload == before[h].workload && b.workload == end[h].workload;
    assert a.audience == before[h].audience && b.audience == end[h].audience;
  }

  /** A token validates only for the workload and the audience that the request which issued it named. */
  lemma AnswersHaveOrigin(opts: Options, rs: Records, events: seq<Event>, h: Hash, req: Binding, t: Time)
    requires Normalized(opts) && Invariant(opts, rs) && Clocked(events) && h !in rs
    ensures var answer := Answer(After(opts, rs, events), WellFormed(h), req, t);
            answer.Some? ==>
              exists i :: 0 <= i < |events| && AskedFor(events[i], h, req) && IssuedBy(events[i], h, answer.value)
  {
    hide Normalized;
    hide Invariant;
    hide InactiveLineage;
    hide RootAgrees;
    var end := After(opts, rs, events);
    if Answer(end, WellFormed(h), req, t).Some? {
      RecordsHaveOrigin(opts, rs, events, h);
      var i :| 0 <= i < |events| && IssuedBy(events[i], h, ClaimsOf(end, h));
      assert AskedFor(events[i], h, req);
    }
  }

  // ----- what a reply promises -----

  lemma IssueReplies(opts: Options, kept: Records, rec: Record, outcome: WriteOutcome)
    requires Linked(kept) && Attaches(kept, rec)
    ensures Linked(IssueStep(opts, kept, rec, outcome).0)
    ensures IssueStep(opts, kept, rec, outcome).1.Issued? ==>
              var (next, reply) := IssueStep(opts, kept, rec, outcome);
              next == kept[rec.hash := rec] && reply == Issued(rec.hash, ClaimsOf(next, rec.hash))
  {
    hide EncodedSize;
    hide RevocationCapacity;
    hide Linked;
    hide Attaches;
    hide Chain;
    IssuedLinked(kept, rec);
  }

  /** A reply that issues a token carries the request's terms, and the store holds just that token's claims. */
  lemma IssuedOnTerms(opts: Options, rs: Records, e: Event)
    requires Linked(rs) && (e.Mint? || e.Delegate?) && ReplyTo(opts, rs, e).Issued?
    ensures Linked(Apply(opts, rs, e))
    ensures var h, claims := ReplyTo(opts, rs, e).hash, ReplyTo(opts, rs, e).claims;
            && claims.tokenID == h && IssuedBy(e, h, claims) && claims.revokedAt.None?
            && h in Apply(opts, rs, e) && claims == ClaimsOf(Apply(opts, rs, e), h)
            && (e.Mint? ==> claims.rootTokenID == h && claims.depth == 0)
    ensures e.Delegate? ==> e.bearer.hash in rs
    ensures e.Delegate? ==> ReplyTo(opts, rs, e).claims.rootTokenID == rs[e.bearer.hash].root
    ensures e.Delegate? ==> ReplyTo(opts, rs, e).claims.depth == rs[e.bearer.hash].depth + 1
  {
    hide IssueStep;
    hide InactiveLineage;
    hide Chain;
    PrunedLinked(rs, e.now);
    var kept := PruneStep(opts, rs, e.now, e.pruning).0;
    var drawn := FreshHash(kept, e.draws, MAX_DRAWS).value;
    if e.Mint? {
      IssueReplies(opts, kept, RootRecord(e.mint, drawn, e.now), e.writing);
    } else {
      var parent := kept[e.bearer.hash];
      NotRevoked(kept, e.bearer.hash, e.now);
      ChildAttaches(opts, kept, parent, e.child, drawn, e.now);
      IssueReplies(opts, kept, ChildRecord(e.child, parent, drawn, e.now), e.writing);
    }
  }

  // ----- and keeps promising -----

  /** Gone, or answered for with these very claims. */
  ghost predicate Keeps(rs: Records, h: Hash, claims: Claims)
    requires Linked(rs)
  {
    Gone(rs, h) || (h in rs && ClaimsOf(rs, h) == claims)
  }

  lemma PrunedKeepsClaims(rs: Records, now: Time, h: Hash, claims: Claims)
    requires Linked(rs) && Keeps(rs, h, claims)
    ensures Linked(Pruned(rs, now)) && Keeps(Pruned(rs, now), h, claims)
  {
    PrunedLinked(rs, now);
    if h in Pruned(rs, now) {
      PrunedKeepsRoot(rs, now, h, rs[h].root);
    }
  }

  lemma RevokedKeepsClaims(rs: Records, target: Hash, now: Time, h: Hash, claims: Claims)
    requires Linked(rs) && Keeps(rs, h, claims)
    ensures Linked(Revoked(rs, target, now)) && Keeps(Revoked(rs, target, now), h, claims)
  {
    RevokedLinked(rs, target, now);
    if h in rs && !Descends(rs, h, target) {
      OutsideUnaffected(rs, target, now, h, now, rs[h].root);
    }
  }

  lemma IssuedKeepsClaims(opts: Options, rs: Records, rec: Record, outcome: WriteOutcome, h: Hash, claims: Claims)
    requires Linked(rs) && Attaches(rs, rec) && Keeps(rs, h, claims) && h != rec.hash
    ensures Linked(IssueStep(opts, rs, rec, outcome).0) && Keeps(IssueStep(opts, rs, rec, outcome).0, h, claims)
  {
    hide EncodedSize;
    hide RevocationCapacity;
    hide Attaches;
    hide Linked;
    IssuedLinked(rs, rec);
    if h in rs {
      IssuingSparesLineage(rs, rec, h, 0, rs[h].root);
    }
  }

  lemma PruneStepKeepsClaims(opts: Options, rs: Records, now: Time, outcome: WriteOutcome, h: Hash, claims: Claims)
    requires Linked(rs) && Keeps(rs, h, claims)
    ensures Linked(PruneStep(opts, rs, now, outcome).0) && Keeps(PruneStep(opts, rs, now, outcome).0, h, claims)
  {
    hide PruneStep;
    hide Keeps;
    PrunedKeepsClaims(rs, now, h, claims);
  }

  lemma ApplyKeepsClaims(opts: Options, rs: Records, e: Event, h: Hash, claims: Claims)
    requires Linked(rs) && Keeps(rs, h, claims) && h !in DrawsOf(e)
    ensures Linked(Apply(opts, rs, e)) && Keeps(Apply(opts, rs, e), h, claims)
  {
    hide IssueStep;
    hide PruneStep;
    hide Keeps;
    hide Linked;
    hide InactiveLineage;
    hide EncodedSize;
    PruneStepKeepsClaims(opts, rs, e.now, e.pruning, h, claims);
    var kept := PruneStep(opts, rs, e.now, e.pruning).0;
    match e {
      case Mint(req, now, draws, _, writing) =>
        var drawn := FreshHash(kept, draws, MAX_DRAWS);
        if drawn.Some? {
          IssuedKeepsClaims(opts, kept, RootRecord(req, drawn.value, now), writing, h, claims);
        }
      case Delegate(bearer, req, now, draws, _, writing) =>
        DelegateKeepsClaims(opts, kept, e, h, claims);
      case Revoke(target, now, _, _) => RevokedKeepsClaims(kept, target, now, h, claims);
      case Reopen(_, _) =>
    }
  }

  lemma DelegateKeepsClaims(opts: Options, kept: Records, e: Event, h: Hash, claims: Claims)
    requires Linked(kept) && Keeps(kept, h, claims) && e.Delegate? && h !in DrawsOf(e)
    requires Validates(kept, e.bearer, Binding(e.child.callerWorkload, e.child.audience), e.now) ==>
               e.bearer.hash in kept
    ensures var drawn := FreshHash(kept, e.draws, MAX_DRAWS);
            Validates(kept, e.bearer, Binding(e.child.callerWorkload, e.child.audience), e.now)
            && Refusal(opts, kept, kept[e.bearer.hash], e.child, e.now).None? && drawn.Some? ==>
              var rec := ChildRecord(e.child, kept[e.bearer.hash], drawn.value, e.now);
              Attaches(kept, rec) && Linked(IssueStep(opts, kept, rec, e.writing).0)
              && Keeps(IssueStep(opts, kept, rec, e.writing).0, h, claims)
  {
    hide IssueStep;
    hide Keeps;
    hide Linked;
    var drawn := FreshHash(kept, e.draws, MAX_DRAWS);
    if Validates(kept, e.bearer, Binding(e.child.callerWorkload, e.child.audience), e.now) {
      var parent := kept[e.bearer.hash];
      if Refusal(opts, kept, parent, e.child, e.now).None? && drawn.Some? {
        NotRevoked(kept, e.bearer.hash, e.now);
        FiledUnder(kept, e.bearer.hash);
        ChildAttaches(opts, kept, parent, e.child, drawn.value, e.now);
        IssuedKeepsClaims(opts, kept, ChildRecord(e.child, parent, drawn.value, e.now), e.writing, h, claims);
      }
    }
  }

  lemma FiledUnder(rs: Records, h: Hash)
    requires Linked(rs) && h in rs
    ensures rs[h].hash == h
  {
  }

  lemma {:induction false} RunKeepsClaims(opts: Options, rs: Records, later: seq<Event>, h: Hash, claims: Claims)
    requires Normalized(opts) && Invariant(opts, rs) && Linked(rs) && Clocked(later) && Keeps(rs, h, claims)
    requires forall i :: 0 <= i < |later| ==> h !in DrawsOf(later[i])
    ensures Keeps(After(opts, rs, later), h, claims)
    decreases |later|
  {
    hide Normalized;
    hide Invariant;
    hide Keeps;
    if later != [] {
      ApplyKeepsInvariant(opts, rs, later[0]);
      ApplyKeepsClaims(opts, rs, later[0], h, claims);
      RunKeepsClaims(opts, Apply(opts, rs, later[0]), later[1..], h, claims);
    }
  }

  /** A stored token that is not revoked is live until it expires: no ancestor is revoked or expires before. */
  lemma {:induction false} UnrevokedIsLive(opts: Options, rs: Records, h: Hash, t: Time)
    requires Sound(opts, rs) && Linked(rs) && h in rs && rs[h].revokedAt.None? && t < rs[h].expiresAt
    ensures !InactiveLineage(rs, h, t)
    decreases rs[h].depth
  {
    assert LineageOk(rs, h);
    if rs[h].depth > 0 {
      UnrevokedIsLive(opts, rs, rs[h].parent, t);
    }
  }

  /**
   From the reply that issued a token on, through every later run that does not draw it again, the
   store answers for it exactly so: the claims of that reply, to the binding of that request, while
   the token is neither gone nor expired; and nothing otherwise.
   */
  lemma IssuedIsAnsweredFor(opts: Options, rs: Records, e: Event, later: seq<Event>, req: Binding, t: Time)
    requires Normalized(opts) && Invariant(opts, rs) && Linked(rs) && e.now != 0 && Clocked(later)
    requires (e.Mint? || e.Delegate?) && ReplyTo(opts, rs, e).Issued?
    requires forall i :: 0 <= i < |later| ==> ReplyTo(opts, rs, e).hash !in DrawsOf(later[i])
    ensures Invariant(opts, Apply(opts, rs, e))
    ensures var h, claims := ReplyTo(opts, rs, e).hash, ReplyTo(opts, rs, e).claims;
            var end := After(opts, Apply(opts, rs, e), later);
            Answer(end, WellFormed(h), req, t)
            == if AskedFor(e, h, req) && !Gone(end, h) && t < claims.expiresAt then Some(claims) else None
  {
    hide Normalized;
    hide Invariant;
    hide Apply;
    hide ReplyTo;
    hide Linked;
    ApplyKeepsInvariant(opts, rs, e);
    IssuedOnTerms(opts, rs, e);
    var h, claims := ReplyTo(opts, rs, e).hash, ReplyTo(opts, rs, e).claims;
    var end := After(opts, Apply(opts, rs, e), later);
    RunKeepsClaims(opts, Apply(opts, rs, e), later, h, claims);
    if Gone(end, h) {
      GoneNeverValidates(end, h, req, t);
    } else {
      AnswersItsBinding(opts, end, h, req, t);
    }
  }

  lemma AnswersItsBinding(opts: Options, rs: Records, h: Hash, req: Binding, t: Time)
    requires Normalized(opts) && Invariant(opts, rs) && Linked(rs) && h in rs && rs[h].revokedAt.None?
    ensures Answer(rs, WellFormed(h), req, t)
         == if req.workload == rs[h].workload && req.audience == rs[h].audience && t < rs[h].expiresAt
            then Some(ClaimsOf(rs, h)) else None
  {
    hide Chain;
    assert RecordOk(opts, rs[h]);
    assert 0 < |rs[h].workload| <= MAX_BINDING_BYTES;
    assert 0 < |rs[h].audience| <= MAX_BINDING_BYTES;
    RootLives(opts, rs, h, t);
    if t < rs[h].expiresAt {
      UnrevokedIsLive(opts, rs, h, t);
    }
  }

  // ----- when a token is issued -----

  /** One of the draws that are looked at is not in use. */
  ghost predicate DrawsFresh(rs: Records, draws: seq<Hash>) {
    exists i :: 0 <= i < |draws| && i < MAX_DRAWS && draws[i] !in rs
  }

  lemma {:induction false} FreshIff(rs: Records, draws: seq<Hash>, tries: nat)
    ensures FreshHash(rs, draws, tries).Some? <==> exists i :: 0 <= i < |draws| && i < tries && draws[i] !in rs
    decreases tries
  {
    if tries > 0 && draws != [] && draws[0] in rs {
      FreshIff(rs, draws[1..], tries - 1);
      if i :| 0 <= i < |draws| && i < tries && draws[i] !in rs {
        assert draws[1..][i - 1] == draws[i];
      }
      if i :| 0 <= i < |draws[1..]| && i < tries - 1 && draws[1..][i] !in rs {
        assert draws[i + 1] !in rs;
      }
    }
  }

  lemma CommittedWrites(opts: Options, rs: Records, now: Time)
    requires Normalized(opts) && Invariant(opts, rs)
    ensures Linked(rs) && Linked(Pruned(rs, now))
    ensures PruneStep(opts, rs, now, Committed) == (Pruned(rs, now), true)
  {
    hide Normalized;
    hide Invariant;
    PruneKeepsInvariant(opts, rs, now);
    InvariantFits(opts, Pruned(rs, now), Committed);
    InvariantIsLinked(opts, rs);
    PrunedLinked(rs, now);
  }

  /** The record that is filed for a request on these terms. */
  function Filed(terms: Terms, h: Hash, root: Hash, depth: nat): Record {
    Record(h, if terms.parent.Some? then terms.parent.value else ZERO_HASH, root, terms.workload, terms.audience, terms.issuedAt, terms.expiresAt,
           terms.grants, terms.allowDelegation, depth, None)
  }

  /** One more record is within the number of records and leaves the file room for every revocation. */
  ghost predicate HasRoom(opts: Options, kept: Records, rec: Record) {
    |kept| < opts.maxRecords && RevocationCapacity(opts, kept[rec.hash := rec])
  }

  lemma CommittedIssue(opts: Options, kept: Records, rec: Record)
    requires Normalized(opts) && Linked(kept) && Attaches(kept, rec)
    ensures var reply := IssueStep(opts, kept, rec, Committed).1;
            if HasRoom(opts, kept, rec) then reply.Issued? else reply == Failed(RecordLimit)
  {
    hide EncodedSize;
    hide Linked;
    hide RevocationCapacity;
    var next := kept[rec.hash := rec];
    OneMore(kept, rec);
    if RevocationCapacity(opts, next) {
      CapacityGivesHeadroom(opts, next);
      HeadroomFits(opts, next);
    }
  }

  lemma OneMore(kept: Records, rec: Record)
    requires rec.hash !in kept
    ensures |kept[rec.hash := rec]| == |kept| + 1
  {
    assert kept[rec.hash := rec].Keys == kept.Keys + {rec.hash};
  }

  /** What a mint asks of its request, of the store and of the draws. */
  ghost predicate MayMint(opts: Options, rs: Records, req: MintRequest, now: Time, draws: seq<Hash>)
    requires Linked(rs)
  {
    && opts.rule(req.workload, 512) && opts.rule(req.audience, 512)
    && ValidGrantSet(req.grants, opts.maxGrantsPerToken, opts.rule)
    && req.expiresAt > now && req.expiresAt != 0
    && DrawsFresh(Pruned(rs, now), draws)
  }

  /** When its writes commit, a mint fails only for what the request says, for spent draws, or for a full store. */
  lemma MintedIff(opts: Options, rs: Records, req: MintRequest, now: Time, draws: seq<Hash>)
    requires Normalized(opts) && Invariant(opts, rs) && Linked(rs) && now != 0
    ensures var e := Mint(req, now, draws, Committed, Committed);
            var kept, h := Pruned(rs, now), FreshHash(Pruned(rs, now), draws, MAX_DRAWS);
            ReplyTo(opts, rs, e).Issued?
            <==> && MayMint(opts, rs, req, now, draws)
                 && h.Some? && HasRoom(opts, kept, Filed(TermsOf(e).value, h.value, h.value, 0))
    ensures var reply := ReplyTo(opts, rs, Mint(req, now, draws, Committed, Committed));
            MayMint(opts, rs, req, now, draws) ==> reply.Issued? || reply == Failed(RecordLimit)
  {
    hide Normalized;
    hide Invariant;
    hide IssueStep;
    hide PruneStep;
    hide HasRoom;
    CommittedWrites(opts, rs, now);
    var kept := Pruned(rs, now);
    FreshIff(kept, draws, MAX_DRAWS);
    var h := FreshHash(kept, draws, MAX_DRAWS);
    if h.Some? {
      CommittedIssue(opts, kept, RootRecord(req, h.value, now));
    }
  }

  /** The bearer is answered for and may delegate what is asked: later than now, no later and no broader than it. */
  ghost predicate MayDelegate(opts: Options, rs: Records, bearer: Bearer, req: DelegateRequest, now: Time)
    requires Linked(rs) && Linked(Pruned(rs, now))
  {
    var parent := Answer(rs, bearer, Binding(req.callerWorkload, req.audience), now);
    && parent.Some? && parent.value.allowDelegation && parent.value.depth < opts.maxDelegationDepth
    && req.expiresAt != 0 && now < req.expiresAt <= parent.value.expiresAt
    && GrantsSubset(req.grants, parent.value.grants)
    && |ChildrenOf(Pruned(rs, now), parent.value.tokenID)| < opts.maxChildrenPerToken
    && |TokensOfRoot(Pruned(rs, now), parent.value.rootTokenID)| < opts.maxTokensPerRoot
  }

  predicate Delegable(opts: Options, req: DelegateRequest) {
    && opts.rule(req.callerWorkload, 512) && opts.rule(req.audience, 512) && opts.rule(req.workload, 512)
    && ValidGrantSet(req.grants, opts.maxGrantsPerToken, opts.rule)
  }

  /** There is room for the child that is asked for. */
  ghost predicate HasRoomForChild(opts: Options, kept: Records, e: Event)
    requires e.Delegate?
  {
    var h := FreshHash(kept, e.draws, MAX_DRAWS);
    && h.Some? && TermsOf(e).Some? && e.bearer.hash in kept
    && HasRoom(opts, kept, Filed(TermsOf(e).value, h.value, kept[e.bearer.hash].root, kept[e.bearer.hash].depth + 1))
  }

  /** So does a delegation, beside what the bearer's own claims do not allow. */
  lemma DelegatedIff(opts: Options, rs: Records, bearer: Bearer, req: DelegateRequest, now: Time, draws: seq<Hash>)
    requires Normalized(opts) && Invariant(opts, rs) && Linked(rs) && now != 0
    ensures Linked(Pruned(rs, now))
    ensures var e := Delegate(bearer, req, now, draws, Committed, Committed);
            var asked := Delegable(opts, req) && MayDelegate(opts, rs, bearer, req, now) && DrawsFresh(Pruned(rs, now), draws);
            && (ReplyTo(opts, rs, e).Issued? <==> asked && HasRoomForChild(opts, Pruned(rs, now), e))
            && (asked ==> ReplyTo(opts, rs, e).Issued? || ReplyTo(opts, rs, e) == Failed(RecordLimit))
  {
    hide Normalized;
    hide Invariant;
    hide IssueStep;
    hide PruneStep;
    hide InactiveLineage;
    hide Chain;
    hide HasRoom;
    hide DrawsFresh;
    hide FreshHash;
    hide Linked;
    CommittedWrites(opts, rs, now);
    var kept := Pruned(rs, now);
    FreshOrSpent(kept, draws);
    PruneIsInvisible(rs, now, bearer, Binding(req.callerWorkload, req.audience), now);
    var h := FreshHash(kept, draws, MAX_DRAWS);
    if Validates(kept, bearer, Binding(req.callerWorkload, req.audience), now) {
      var parent := kept[bearer.hash];
      NotRevoked(kept, bearer.hash, now);
      FiledUnder(kept, bearer.hash);
      if h.Some? && Refusal(opts, kept, parent, req, now).None? {
        ChildAttaches(opts, kept, parent, req, h.value, now);
        CommittedIssue(opts, kept, ChildRecord(req, parent, h.value, now));
      }
    }
  }

  lemma FreshOrSpent(kept: Records, draws: seq<Hash>)
    ensures FreshHash(kept, draws, MAX_DRAWS).Some? <==> DrawsFresh(kept, draws)
    ensures FreshHash(kept, draws, MAX_DRAWS).Some? ==> FreshHash(kept, draws, MAX_DRAWS).value !in kept
  {
    FreshIff(kept, draws, MAX_DRAWS);
  }
}
