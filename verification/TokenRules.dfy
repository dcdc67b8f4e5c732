/**
 What the loader demands of a stored forest, how large its file is, and how pruning,
 revoking and issuing act on both.
 */
module TokenRules {
  import opened Octets
  import Text
  import opened Tokens
  import opened TokenForest
  import opened TokenWalks
  import opened Sums

  const FIXED_HEADROOM: nat := 4096
  const PER_RECORD_HEADROOM: nat := 128
  const HARD_MAX_RECORDS: nat := 65536
  const MIN_FILE_SIZE: nat := 4096
  const MAX_FILE_SIZE: nat := 0x400_0000

  /** Length of `{"version":1,"records":[]}` and a newline. */
  const ENVELOPE: nat := 27
  /** Length of `,"revoked_at":""`, to which the timestamp is added. */
  const REVOKED_FIELD: nat := 16
  /** A UTC timestamp in RFC 3339 form with nanoseconds has at most this many bytes. */
  const MAX_STAMP: nat := 30

  /** The encoder's and the identifier rule's details are parameters. */
  datatype Options = Options(
    maxDelegationDepth: nat,
    maxChildrenPerToken: nat,
    maxTokensPerRoot: nat,
    maxGrantsPerToken: nat,
    maxRecords: nat,
    fileSizeLimit: nat,
    rule: IdentifierRule,
    baseSize: Record -> nat,   // encoded length of a record without a revocation
    stampSize: Time -> nat)    // encoded length of a timestamp

  ghost predicate Normalized(opts: Options) {
    && 1 <= opts.maxDelegationDepth <= 64
    && 1 <= opts.maxChildrenPerToken <= 1_000_000
    && 1 <= opts.maxTokensPerRoot <= 1_000_000
    && 1 <= opts.maxGrantsPerToken <= 4096
    && 1 <= opts.maxRecords <= HARD_MAX_RECORDS
    && MIN_FILE_SIZE <= opts.fileSizeLimit <= MAX_FILE_SIZE
    && (forall t :: opts.stampSize(t) <= MAX_STAMP)
    && (forall s, n :: opts.rule(s, n) ==> 0 < |s| <= n && Text.NUL !in s)
  }

  // ----- the size of the file -----

  function Unrevoked(rec: Record): Record {
    rec.(revokedAt := None)
  }

  function RecordSize(opts: Options, rec: Record): nat {
    opts.baseSize(Unrevoked(rec))
    + (if rec.revokedAt.Some? then REVOKED_FIELD + opts.stampSize(rec.revokedAt.value) else 0)
  }

  function Separators(count: nat): nat {
    if count == 0 then 0 else count - 1
  }

  ghost function Sizes(opts: Options, rs: Records): map<Hash, nat> {
    map h | h in rs :: RecordSize(opts, rs[h])
  }

  ghost function EncodedSize(opts: Options, rs: Records): nat {
    ENVELOPE + Separators(|rs|) + Total(Sizes(opts, rs))
  }

  ghost function BaseSizes(opts: Options, rs: Records): map<Hash, nat> {
    map h | h in rs :: opts.baseSize(Unrevoked(rs[h]))
  }

  ghost function BaseSize(opts: Options, rs: Records): nat {
    ENVELOPE + Separators(|rs|) + Total(BaseSizes(opts, rs))
  }

  /** Even were every record revoked, the file would fit with the whole reserve to spare. */
  ghost predicate HasHeadroom(opts: Options, rs: Records) {
    BaseSize(opts, rs) + FIXED_HEADROOM + |rs| * PER_RECORD_HEADROOM <= opts.fileSizeLimit
  }

  /** A revocation adds at most 46 bytes to each record. */
  lemma EncodedNearBase(opts: Options, rs: Records)
    requires Normalized(opts)
    ensures BaseSize(opts, rs) <= EncodedSize(opts, rs) <= BaseSize(opts, rs) + (REVOKED_FIELD + MAX_STAMP) * |rs|
  {
    var base, sizes := BaseSizes(opts, rs), Sizes(opts, rs);
    assert base.Keys == sizes.Keys == rs.Keys;
    forall h | h in rs ensures base[h] <= sizes[h] <= base[h] + (REVOKED_FIELD + MAX_STAMP) {
      if rs[h].revokedAt.Some? {
        var t := rs[h].revokedAt.value;
        assert opts.stampSize(t) <= MAX_STAMP;
      }
    }
    TotalMonotone(base, sizes);
    TotalRaised(base, sizes, REVOKED_FIELD + MAX_STAMP);
  }

  lemma EncodedIsBase(opts: Options, rs: Records)
    requires forall h :: h in rs ==> rs[h].revokedAt.None?
    ensures EncodedSize(opts, rs) == BaseSize(opts, rs)
  {
    assert Sizes(opts, rs) == BaseSizes(opts, rs);
  }

  /** With head-room, the forest fits its file however much of it is revoked. */
  lemma HeadroomFits(opts: Options, rs: Records)
    requires Normalized(opts) && HasHeadroom(opts, rs)
    ensures EncodedSize(opts, rs) <= opts.fileSizeLimit
  {
    EncodedNearBase(opts, rs);
  }

  lemma HeadroomRevoked(opts: Options, rs: Records, target: Hash, now: Time)
    requires Linked(rs) && HasHeadroom(opts, rs)
    ensures HasHeadroom(opts, Revoked(rs, target, now))
  {
    hide Linked;
    hide Descends;
    var next := Revoked(rs, target, now);
    assert next.Keys == rs.Keys;
    assert BaseSizes(opts, next) == BaseSizes(opts, rs);
  }

  lemma SubsetSize<V>(m: map<Hash, V>, n: map<Hash, V>)
    requires m.Keys <= n.Keys
    ensures |m| <= |n|
  {
    SubsetCardinality(m.Keys, n.Keys);
  }

  lemma HeadroomShrinks(opts: Options, rs: Records, kept: Records)
    requires HasHeadroom(opts, rs)
    requires kept.Keys <= rs.Keys && forall h :: h in kept ==> kept[h] == rs[h]
    ensures HasHeadroom(opts, kept)
  {
    SubsetSize(kept, rs);
    TotalMonotone(BaseSizes(opts, kept), BaseSizes(opts, rs));
  }

  /** The reserve that issuing and opening insist on gives head-room, and head-room passes that test. */
  ghost predicate RevocationCapacity(opts: Options, rs: Records) {
    var reserve := FIXED_HEADROOM + |rs| * PER_RECORD_HEADROOM;
    reserve < opts.fileSizeLimit && EncodedSize(opts, rs) <= opts.fileSizeLimit - reserve
  }

  lemma CapacityGivesHeadroom(opts: Options, rs: Records)
    requires Normalized(opts) && RevocationCapacity(opts, rs)
    ensures HasHeadroom(opts, rs)
  {
    EncodedNearBase(opts, rs);
  }

  lemma HeadroomGivesCapacity(opts: Options, rs: Records)
    requires HasHeadroom(opts, rs) && forall h :: h in rs ==> rs[h].revokedAt.None?
    ensures RevocationCapacity(opts, rs)
  {
    EncodedIsBase(opts, rs);
  }

  /** The length of the encoding, added up record by record. */
  method MeasureEncoding(opts: Options, rs: Records) returns (size: nat)
    ensures size == EncodedSize(opts, rs)
  {
    size := ENVELOPE + Separators(|rs|);
    var todo := rs.Keys;
    ghost var done: map<Hash, nat> := map[];
    while todo != {}
      invariant todo <= rs.Keys
      invariant done == map h | h in rs && h !in todo :: RecordSize(opts, rs[h])
      invariant size == ENVELOPE + Separators(|rs|) + Total(done)
      decreases todo
    {
      var h :| h in todo;
      TotalInsert(done, h, RecordSize(opts, rs[h]));
      size := size + RecordSize(opts, rs[h]);
      done := done[h := RecordSize(opts, rs[h])];
      todo := todo - {h};
    }
    assert done == Sizes(opts, rs);
  }

  method EnsureRevocationCapacity(opts: Options, rs: Records) returns (ok: bool)
    ensures ok <==> RevocationCapacity(opts, rs)
  {
    var size := MeasureEncoding(opts, rs);
    var reserve := FIXED_HEADROOM + |rs| * PER_RECORD_HEADROOM;
    return !(reserve >= opts.fileSizeLimit || size > opts.fileSizeLimit - reserve);
  }

  // ----- what the loader demands -----

  predicate RecordOk(opts: Options, rec: Record) {
    && rec.depth <= opts.maxDelegationDepth
    && opts.rule(rec.workload, MAX_BINDING_BYTES) && opts.rule(rec.audience, MAX_BINDING_BYTES)
    && ValidGrantSet(rec.grants, opts.maxGrantsPerToken, opts.rule)
    && rec.issuedAt != 0 && rec.expiresAt != 0 && rec.expiresAt > rec.issuedAt
    && rec.revokedAt != Some(0)
  }

  /** The child keeps within its parent and shares its fate. */
  predicate Attenuates(child: Record, parent: Record) {
    && parent.depth + 1 == child.depth && parent.root == child.root
    && parent.allowDelegation
    && child.audience == parent.audience
    && child.expiresAt <= parent.expiresAt
    && GrantsSubset(child.grants, parent.grants)
    && (parent.revokedAt.Some? ==> child.revokedAt.Some?)
  }

  predicate LineageOk(rs: Records, h: Hash)
    requires h in rs
  {
    var rec := rs[h];
    && rec.hash == h
    && (rec.depth == 0 ==> rec.root == h && rec.parent == ZERO_HASH)
    && (rec.depth > 0 ==> rec.parent in rs && Attenuates(rec, rs[rec.parent]))
    && rec.root in rs && rs[rec.root].depth == 0 && rs[rec.root].root == rec.root
  }

  ghost predicate Sound(opts: Options, rs: Records) {
    forall h :: h in rs ==> RecordOk(opts, rs[h]) && LineageOk(rs, h)
  }

  lemma SoundIsLinked(opts: Options, rs: Records)
    requires Sound(opts, rs)
    ensures Linked(rs)
  {
    forall h | h in rs
      ensures rs[h].hash == h
      ensures rs[h].depth > 0 ==> rs[h].parent in rs && rs[rs[h].parent].depth + 1 == rs[h].depth
    {
      assert LineageOk(rs, h);
    }
  }

  method ValidateLoadedRecords(opts: Options, rs: Records) returns (ok: bool)
    ensures ok <==> Sound(opts, rs)
  {
    var todo := rs.Keys;
    while todo != {}
      invariant todo <= rs.Keys
      invariant forall h :: h in rs && h !in todo ==> RecordOk(opts, rs[h]) && LineageOk(rs, h)
      decreases todo
    {
      var h :| h in todo;
      if !RecordOk(opts, rs[h]) || !LineageOk(rs, h) {
        return false;
      }
      todo := todo - {h};
    }
    return true;
  }

  ghost predicate WithinBounds(opts: Options, rs: Records) {
    && |rs| <= opts.maxRecords
    && (forall p :: |ChildrenOf(rs, p)| <= opts.maxChildrenPerToken)
    && (forall r :: |TokensOfRoot(rs, r)| <= opts.maxTokensPerRoot)
  }

  function Count(counts: map<Hash, nat>, h: Hash): nat {
    if h in counts then counts[h] else 0
  }

  /** Counts children and root members in one pass over the records. */
  method CountMembers(rs: Records) returns (children: map<Hash, nat>, roots: map<Hash, nat>)
    ensures forall p :: Count(children, p) == |ChildrenOf(rs, p)|
    ensures forall r :: Count(roots, r) == |TokensOfRoot(rs, r)|
  {
    children, roots := map[], map[];
    var todo := rs.Keys;
    ghost var seen: Records := map[];
    assert forall p :: ChildrenOf(seen, p) == {} && TokensOfRoot(seen, p) == {};
    while todo != {}
      invariant todo <= rs.Keys
      invariant seen == map h | h in rs && h !in todo :: rs[h]
      invariant forall p :: Count(children, p) == |ChildrenOf(seen, p)|
      invariant forall r :: Count(roots, r) == |TokensOfRoot(seen, r)|
      decreases todo
    {
      var h :| h in todo;
      var rec := rs[h];
      CountsAfterInsert(seen, h, rec);
      ghost var roots0, children0 := roots, children;
      roots := roots[rec.root := Count(roots, rec.root) + 1];
      assert forall r :: Count(roots, r) == Count(roots0, r) + (if rec.root == r then 1 else 0);
      if rec.depth > 0 {
        children := children[rec.parent := Count(children, rec.parent) + 1];
      }
      assert forall p :: Count(children, p) == Count(children0, p) + (if rec.depth > 0 && rec.parent == p then 1 else 0);
      seen := seen[h := rec];
      todo := todo - {h};
    }
    assert seen == rs;
  }

  lemma ChildrenAfterInsert(rs: Records, h: Hash, rec: Record, p: Hash)
    requires h !in rs
    ensures |ChildrenOf(rs[h := rec], p)|
         == |ChildrenOf(rs, p)| + (if rec.depth > 0 && rec.parent == p then 1 else 0)
  {
    var next := rs[h := rec];
    if rec.depth > 0 && rec.parent == p {
      assert ChildrenOf(next, p) == ChildrenOf(rs, p) + {h};
    } else {
      assert ChildrenOf(next, p) == ChildrenOf(rs, p);
    }
  }

  lemma TokensAfterInsert(rs: Records, h: Hash, rec: Record, r: Hash)
    requires h !in rs
    ensures |TokensOfRoot(rs[h := rec], r)| == |TokensOfRoot(rs, r)| + (if rec.root == r then 1 else 0)
  {
    var next := rs[h := rec];
    if rec.root == r {
      assert TokensOfRoot(next, r) == TokensOfRoot(rs, r) + {h};
    } else {
      assert TokensOfRoot(next, r) == TokensOfRoot(rs, r);
    }
  }

  lemma CountsAfterInsert(rs: Records, h: Hash, rec: Record)
    requires h !in rs
    ensures forall p :: |ChildrenOf(rs[h := rec], p)|
                     == |ChildrenOf(rs, p)| + (if rec.depth > 0 && rec.parent == p then 1 else 0)
    ensures forall r :: |TokensOfRoot(rs[h := rec], r)| == |TokensOfRoot(rs, r)| + (if rec.root == r then 1 else 0)
  {
    hide ChildrenOf;
    hide TokensOfRoot;
    forall p ensures |ChildrenOf(rs[h := rec], p)|
                  == |ChildrenOf(rs, p)| + (if rec.depth > 0 && rec.parent == p then 1 else 0) {
      ChildrenAfterInsert(rs, h, rec, p);
    }
    forall r ensures |TokensOfRoot(rs[h := rec], r)| == |TokensOfRoot(rs, r)| + (if rec.root == r then 1 else 0) {
      TokensAfterInsert(rs, h, rec, r);
    }
  }

  method AllAtMost(counts: map<Hash, nat>, limit: nat) returns (ok: bool)
    ensures ok <==> forall h :: Count(counts, h) <= limit
  {
    var todo := counts.Keys;
    while todo != {}
      invariant todo <= counts.Keys
      invariant forall h :: h in counts && h !in todo ==> counts[h] <= limit
      decreases todo
    {
      var h :| h in todo;
      if counts[h] > limit {
        assert Count(counts, h) > limit;
        return false;
      }
      todo := todo - {h};
    }
    return true;
  }

  method ValidateLoadedBounds(opts: Options, rs: Records) returns (ok: bool)
    ensures ok <==> WithinBounds(opts, rs)
  {
    if |rs| > opts.maxRecords {
      return false;
    }
    var children, roots := CountMembers(rs);
    var childrenOk := AllAtMost(children, opts.maxChildrenPerToken);
    var rootsOk := AllAtMost(roots, opts.maxTokensPerRoot);
    return childrenOk && rootsOk;
  }

  // ----- what every operation keeps -----

  /** Everything the loader demands, the configured bounds, and room to revoke. */
  ghost predicate Invariant(opts: Options, rs: Records) {
    Sound(opts, rs) && WithinBounds(opts, rs) && HasHeadroom(opts, rs)
  }

  /** The root of a token's lineage is one of its ancestors, so it lives at least as well. */
  lemma {:induction false} RootLives(opts: Options, rs: Records, h: Hash, now: Time)
    requires Sound(opts, rs) && Linked(rs) && h in rs
    ensures rs[h].root in rs
    ensures InactiveLineage(rs, rs[h].root, now) ==> InactiveLineage(rs, h, now)
    ensures RootAgrees(rs, h, rs[h].root)
    decreases rs[h].depth
  {
    assert LineageOk(rs, h);
    if rs[h].depth > 0 {
      RootLives(opts, rs, rs[h].parent, now);
    }
  }

  lemma SoundPruned(opts: Options, rs: Records, now: Time)
    requires Sound(opts, rs) && Linked(rs)
    ensures Sound(opts, Pruned(rs, now))
  {
    var kept := Pruned(rs, now);
    forall h | h in kept ensures RecordOk(opts, kept[h]) && LineageOk(kept, h) {
      assert RecordOk(opts, rs[h]) && LineageOk(rs, h);
      RootLives(opts, rs, h, now);
    }
  }

  lemma BoundsShrink(opts: Options, rs: Records, kept: Records)
    requires WithinBounds(opts, rs)
    requires kept.Keys <= rs.Keys && forall h :: h in kept ==> kept[h] == rs[h]
    ensures WithinBounds(opts, kept)
  {
    SubsetSize(kept, rs);
    forall p ensures |ChildrenOf(kept, p)| <= opts.maxChildrenPerToken {
      SubsetCardinality(ChildrenOf(kept, p), ChildrenOf(rs, p));
    }
    forall r ensures |TokensOfRoot(kept, r)| <= opts.maxTokensPerRoot {
      SubsetCardinality(TokensOfRoot(kept, r), TokensOfRoot(rs, r));
    }
  }

  lemma PruneKeepsInvariant(opts: Options, rs: Records, now: Time)
    requires Invariant(opts, rs)
    ensures Linked(rs) && Invariant(opts, Pruned(rs, now))
  {
    SoundIsLinked(opts, rs);
    SoundPruned(opts, rs, now);
    BoundsShrink(opts, rs, Pruned(rs, now));
    HeadroomShrinks(opts, rs, Pruned(rs, now));
  }

  /** Revoking changes nothing but revocation times, and those only to `now`. */
  ghost predicate OnlyStamped(rs: Records, next: Records, now: Time) {
    && next.Keys == rs.Keys
    && forall h :: h in rs ==> next[h] == rs[h] || next[h] == rs[h].(revokedAt := Some(now))
  }

  lemma StampedRecordOk(opts: Options, rs: Records, next: Records, now: Time, h: Hash)
    requires OnlyStamped(rs, next, now) && now != 0 && h in rs && RecordOk(opts, rs[h])
    ensures RecordOk(opts, next[h])
  {
  }

  /** A revoked parent never keeps a live child: the marked set is closed under delegation. */
  lemma RevokedLineageOk(rs: Records, target: Hash, now: Time, h: Hash)
    requires Linked(rs) && h in rs && LineageOk(rs, h)
    ensures h in Revoked(rs, target, now) && LineageOk(Revoked(rs, target, now), h)
  {
    hide GrantsSubset;
  }

  lemma RevokedOnlyStamps(rs: Records, target: Hash, now: Time)
    requires Linked(rs)
    ensures OnlyStamped(rs, Revoked(rs, target, now), now)
  {
  }

  lemma SoundRevoked(opts: Options, rs: Records, target: Hash, now: Time)
    requires Sound(opts, rs) && Linked(rs) && now != 0
    ensures Sound(opts, Revoked(rs, target, now))
  {
    hide RecordOk;
    hide LineageOk;
    hide Revoked;
    hide Linked;
    var next := Revoked(rs, target, now);
    RevokedOnlyStamps(rs, target, now);
    forall h | h in next ensures RecordOk(opts, next[h]) && LineageOk(next, h) {
      StampedRecordOk(opts, rs, next, now, h);
      RevokedLineageOk(rs, target, now, h);
    }
  }

  lemma SameShapeSameCounts(rs: Records, next: Records)
    requires next.Keys == rs.Keys
    requires forall h :: h in rs ==> next[h].(revokedAt := None) == rs[h].(revokedAt := None)
    ensures forall p :: ChildrenOf(next, p) == ChildrenOf(rs, p)
    ensures forall r :: TokensOfRoot(next, r) == TokensOfRoot(rs, r)
  {
    assert forall h :: h in rs ==>
      next[h].parent == rs[h].parent && next[h].depth == rs[h].depth && next[h].root == rs[h].root;
  }

  lemma BoundsRevoked(opts: Options, rs: Records, target: Hash, now: Time)
    requires WithinBounds(opts, rs) && Linked(rs)
    ensures WithinBounds(opts, Revoked(rs, target, now))
  {
    var next := Revoked(rs, target, now);
    assert next.Keys == rs.Keys;
    assert |next| == |next.Keys| == |rs.Keys| == |rs|;
    SameShapeSameCounts(rs, next);
  }

  lemma RevokeKeepsInvariant(opts: Options, rs: Records, target: Hash, now: Time)
    requires Invariant(opts, rs) && now != 0
    ensures Linked(rs) && Invariant(opts, Revoked(rs, target, now))
  {
    SoundIsLinked(opts, rs);
    SoundRevoked(opts, rs, target, now);
    BoundsRevoked(opts, rs, target, now);
    HeadroomRevoked(opts, rs, target, now);
  }

  /** The record is a new root, or attenuates a stored parent. */
  predicate Attaches(rs: Records, rec: Record) {
    && rec.hash !in rs && rec.revokedAt.None?
    && (rec.depth == 0 ==> rec.root == rec.hash && rec.parent == ZERO_HASH)
    && (rec.depth > 0 ==> rec.parent in rs && Attenuates(rec, rs[rec.parent]))
  }

  lemma SoundIssued(opts: Options, rs: Records, rec: Record)
    requires Sound(opts, rs) && RecordOk(opts, rec) && Attaches(rs, rec)
    ensures Sound(opts, rs[rec.hash := rec])
  {
    var next := rs[rec.hash := rec];
    forall h | h in next ensures RecordOk(opts, next[h]) && LineageOk(next, h) {
      if h != rec.hash {
        assert RecordOk(opts, rs[h]) && LineageOk(rs, h);
      } else if rec.depth > 0 {
        assert LineageOk(rs, rec.parent);
      }
    }
  }

  ghost predicate HasRoom(opts: Options, rs: Records, rec: Record) {
    && |rs| + 1 <= opts.maxRecords
    && |TokensOfRoot(rs, rec.root)| < opts.maxTokensPerRoot
    && (rec.depth > 0 ==> |ChildrenOf(rs, rec.parent)| < opts.maxChildrenPerToken)
  }

  lemma NoTokensOfNewRoot(opts: Options, rs: Records, h: Hash)
    requires Sound(opts, rs) && h !in rs
    ensures TokensOfRoot(rs, h) == {}
  {
    forall k | k in rs ensures rs[k].root != h {
      assert LineageOk(rs, k);
    }
  }

  lemma BoundsIssued(opts: Options, rs: Records, rec: Record)
    requires WithinBounds(opts, rs) && rec.hash !in rs && HasRoom(opts, rs, rec)
    ensures WithinBounds(opts, rs[rec.hash := rec])
  {
    var next := rs[rec.hash := rec];
    CountsAfterInsert(rs, rec.hash, rec);
    assert next.Keys == rs.Keys + {rec.hash};
    assert |next| == |rs| + 1;
    forall p ensures |ChildrenOf(next, p)| <= opts.maxChildrenPerToken {
      assert |ChildrenOf(rs, p)| <= opts.maxChildrenPerToken;
    }
    forall r ensures |TokensOfRoot(next, r)| <= opts.maxTokensPerRoot {
      assert |TokensOfRoot(rs, r)| <= opts.maxTokensPerRoot;
    }
  }

  /** Issuing keeps the invariant, given room and the reserve for a later revocation. */
  lemma IssueKeepsInvariant(opts: Options, rs: Records, rec: Record)
    requires Normalized(opts) && Invariant(opts, rs)
    requires RecordOk(opts, rec) && Attaches(rs, rec) && HasRoom(opts, rs, rec)
    requires RevocationCapacity(opts, rs[rec.hash := rec])
    ensures Invariant(opts, rs[rec.hash := rec])
  {
    SoundIssued(opts, rs, rec);
    BoundsIssued(opts, rs, rec);
    CapacityGivesHeadroom(opts, rs[rec.hash := rec]);
  }
}
