/**
 The forest of delegated tokens as a value: lineage, liveness, pruning, cascading
 revocation and validation, and what pruning and revoking do to validation.
 */
module TokenForest {
  import opened Octets
  import opened Tokens

  datatype Record = Record(
    hash: Hash,
    parent: Hash,
    root: Hash,
    workload: string,
    audience: string,
    issuedAt: Time,
    expiresAt: Time,
    grants: seq<Grant>,
    allowDelegation: bool,
    depth: nat,
    revokedAt: Option<Time>)

  type Records = map<Hash, Record>

  /** Every record is filed under its hash and hangs one level below a stored parent, or is a root. */
  ghost predicate Linked(rs: Records) {
    forall h :: h in rs ==>
      && rs[h].hash == h
      && (rs[h].depth > 0 ==> rs[h].parent in rs && rs[rs[h].parent].depth + 1 == rs[h].depth)
  }

  predicate Inactive(rec: Record, now: Time) {
    rec.revokedAt.Some? || now >= rec.expiresAt
  }

  /** The record or one of its ancestors is revoked or expired. */
  ghost predicate InactiveLineage(rs: Records, h: Hash, now: Time)
    requires Linked(rs) && h in rs
    decreases rs[h].depth
  {
    Inactive(rs[h], now) || (rs[h].depth > 0 && InactiveLineage(rs, rs[h].parent, now))
  }

  /** `h` is `ancestor` or was delegated, in any number of steps, from it. */
  ghost predicate Descends(rs: Records, h: Hash, ancestor: Hash)
    requires Linked(rs) && h in rs
    decreases rs[h].depth
  {
    h == ancestor || (rs[h].depth > 0 && Descends(rs, rs[h].parent, ancestor))
  }

  // ----- pruning -----

  ghost function Pruned(rs: Records, now: Time): Records
    requires Linked(rs)
  {
    map h | h in rs && !InactiveLineage(rs, h, now) :: rs[h]
  }

  lemma PrunedLinked(rs: Records, now: Time)
    requires Linked(rs)
    ensures Linked(Pruned(rs, now))
  {
  }

  /** Among the survivors of a prune, lineage liveness is what it was, at every time. */
  lemma {:induction false} PrunedKeepsLineage(rs: Records, now: Time, h: Hash, t: Time)
    requires Linked(rs) && h in Pruned(rs, now)
    ensures Linked(Pruned(rs, now))
    ensures InactiveLineage(Pruned(rs, now), h, t) <==> InactiveLineage(rs, h, t)
    decreases rs[h].depth
  {
    PrunedLinked(rs, now);
    if rs[h].depth > 0 {
      PrunedKeepsLineage(rs, now, rs[h].parent, t);
    }
  }

  /** Being dead is for ever. */
  lemma {:induction false} InactiveStaysInactive(rs: Records, h: Hash, now: Time, t: Time)
    requires Linked(rs) && h in rs && now <= t && InactiveLineage(rs, h, now)
    ensures InactiveLineage(rs, h, t)
    decreases rs[h].depth
  {
    if !Inactive(rs[h], now) {
      InactiveStaysInactive(rs, rs[h].parent, now, t);
    }
  }

  // ----- validation -----

  /** A bearer is either malformed or, its digest being collision free, one token's. */
  datatype Bearer = Malformed | WellFormed(hash: Hash)

  datatype Binding = Binding(workload: string, audience: string)

  /** All ancestors name the same root, and the topmost is that root's record. */
  ghost predicate RootAgrees(rs: Records, h: Hash, root: Hash)
    requires Linked(rs) && h in rs
    decreases rs[h].depth
  {
    rs[h].root == root && (rs[h].depth > 0 ==> RootAgrees(rs, rs[h].parent, root))
  }

  const MAX_BINDING_BYTES := 512

  predicate BindingEqual(stored: string, supplied: string) {
    |supplied| <= MAX_BINDING_BYTES && stored == supplied
  }

  predicate Bound(rec: Record, req: Binding) {
    && BindingEqual(rec.workload, req.workload) && BindingEqual(rec.audience, req.audience)
    && req.workload != "" && req.audience != ""
  }

  /** The bearer is a stored token of that binding, and its whole lineage is live. */
  ghost predicate Validates(rs: Records, bearer: Bearer, req: Binding, now: Time)
    requires Linked(rs)
  {
    && bearer.WellFormed? && bearer.hash in rs
    && Bound(rs[bearer.hash], req)
    && !InactiveLineage(rs, bearer.hash, now)
    && RootAgrees(rs, bearer.hash, rs[bearer.hash].root)
  }

  datatype LimitScope = LimitScope(tokenID: Hash, expiresAt: Time, grants: seq<Grant>)

  function ScopeOf(rec: Record): LimitScope {
    LimitScope(rec.hash, rec.expiresAt, rec.grants)
  }

  /** The delegation chain of a record, root first. */
  ghost function Chain(rs: Records, h: Hash): (chain: seq<LimitScope>)
    requires Linked(rs) && h in rs
    ensures |chain| == rs[h].depth + 1
    decreases rs[h].depth
  {
    (if rs[h].depth == 0 then [] else Chain(rs, rs[h].parent)) + [ScopeOf(rs[h])]
  }

  datatype Claims = Claims(
    tokenID: Hash,
    rootTokenID: Hash,
    parentTokenID: Option<Hash>,
    workload: string,
    audience: string,
    issuedAt: Time,
    expiresAt: Time,
    grants: seq<Grant>,
    allowDelegation: bool,
    depth: nat,
    revokedAt: Option<Time>,
    limitChain: seq<LimitScope>)

  ghost function ClaimsOf(rs: Records, h: Hash): Claims
    requires Linked(rs) && h in rs
  {
    ClaimsWith(rs[h], Chain(rs, h))
  }

  function ClaimsWith(rec: Record, chain: seq<LimitScope>): Claims {
    Claims(rec.hash, rec.root, if rec.depth > 0 then Some(rec.parent) else None, rec.workload, rec.audience,
           rec.issuedAt, rec.expiresAt, rec.grants, rec.allowDelegation, rec.depth, rec.revokedAt, chain)
  }

  /** The answer of `Validate`: claims, or a refusal that does not say why. */
  ghost function Answer(rs: Records, bearer: Bearer, req: Binding, now: Time): Option<Claims>
    requires Linked(rs)
  {
    if Validates(rs, bearer, req, now) then Some(ClaimsOf(rs, bearer.hash)) else None
  }

  lemma {:induction false} PrunedKeepsRoot(rs: Records, now: Time, h: Hash, root: Hash)
    requires Linked(rs) && h in Pruned(rs, now)
    ensures Linked(Pruned(rs, now))
    ensures RootAgrees(Pruned(rs, now), h, root) <==> RootAgrees(rs, h, root)
    ensures Chain(Pruned(rs, now), h) == Chain(rs, h)
    decreases rs[h].depth
  {
    PrunedLinked(rs, now);
    if rs[h].depth > 0 {
      PrunedKeepsRoot(rs, now, rs[h].parent, root);
    }
  }

  /** Pruning is invisible: no later question of any bearer gets a different answer. */
  lemma PruneIsInvisible(rs: Records, now: Time, bearer: Bearer, req: Binding, t: Time)
    requires Linked(rs) && now <= t
    ensures Linked(Pruned(rs, now))
    ensures Answer(Pruned(rs, now), bearer, req, t) == Answer(rs, bearer, req, t)
  {
    PrunedLinked(rs, now);
    if bearer.WellFormed? && bearer.hash in rs {
      var h := bearer.hash;
      if h in Pruned(rs, now) {
        PrunedKeepsLineage(rs, now, h, t);
        PrunedKeepsRoot(rs, now, h, rs[h].root);
      } else {
        InactiveStaysInactive(rs, h, now, t);
      }
    }
  }

  // ----- revocation -----

  /** Marks the target and everything delegated from it, keeping earlier revocation times. */
  ghost function Revoked(rs: Records, target: Hash, now: Time): Records
    requires Linked(rs)
  {
    map h | h in rs ::
      if Descends(rs, h, target) && rs[h].revokedAt.None? then rs[h].(revokedAt := Some(now)) else rs[h]
  }

  lemma RevokedLinked(rs: Records, target: Hash, now: Time)
    requires Linked(rs)
    ensures Linked(Revoked(rs, target, now))
  {
  }

  /** Exactly the tokens outside the subtree keep their answers; those inside never validate. */
  lemma RevokeIsExact(rs: Records, target: Hash, now: Time, h: Hash, req: Binding, t: Time)
    requires Linked(rs) && h in rs
    ensures Linked(Revoked(rs, target, now))
    ensures Descends(rs, h, target) ==> Answer(Revoked(rs, target, now), WellFormed(h), req, t) == None
    ensures !Descends(rs, h, target) ==>
              Answer(Revoked(rs, target, now), WellFormed(h), req, t) == Answer(rs, WellFormed(h), req, t)
  {
    RevokedLinked(rs, target, now);
    if !Descends(rs, h, target) {
      OutsideUnaffected(rs, target, now, h, t, rs[h].root);
    }
  }

  lemma {:induction false} OutsideUnaffected(rs: Records, target: Hash, now: Time, h: Hash, t: Time, root: Hash)
    requires Linked(rs) && h in rs && !Descends(rs, h, target)
    ensures Linked(Revoked(rs, target, now))
    ensures InactiveLineage(Revoked(rs, target, now), h, t) <==> InactiveLineage(rs, h, t)
    ensures RootAgrees(Revoked(rs, target, now), h, root) <==> RootAgrees(rs, h, root)
    ensures Chain(Revoked(rs, target, now), h) == Chain(rs, h)
    decreases rs[h].depth
  {
    RevokedLinked(rs, target, now);
    if rs[h].depth > 0 {
      OutsideUnaffected(rs, target, now, rs[h].parent, t, root);
    }
  }

  // ----- depth facts used by the subtree walk -----

  lemma {:induction false} DescendantsAreDeeper(rs: Records, h: Hash, ancestor: Hash)
    requires Linked(rs) && h in rs && Descends(rs, h, ancestor)
    ensures ancestor in rs && rs[ancestor].depth <= rs[h].depth
    ensures h != ancestor ==> rs[ancestor].depth < rs[h].depth
    decreases rs[h].depth
  {
    if h != ancestor {
      DescendantsAreDeeper(rs, rs[h].parent, ancestor);
    }
  }
}
