/** Grants, their limits, and the attenuation order that delegation may only go down. */
module Tokens {
  import opened Octets

  /** A token's SHA-256 digest; only equality matters. */
  type Hash = nat

  const ZERO_HASH: Hash := 0

  /** Nanoseconds since Go's zero time, so that 0 is the zero time. */
  type Time = int

  type uint64 = n: nat | n <= MAX_UINT64

  /** Zero means unlimited in every field. */
  datatype Limits = Limits(
    requestsPerSecond: uint64,
    burst: uint64,
    requestBudget: uint64,
    byteBudget: uint64,
    maxRequestBytes: uint64)

  datatype Grant = Grant(
    service: string,
    credentialRef: string,
    policyRevision: string,
    bindingRevision: string,
    limits: Limits)

  datatype Identity = Identity(service: string, credential: string, policy: string, binding: string)

  function IdentityOf(g: Grant): Identity {
    Identity(g.service, g.credentialRef, g.policyRevision, g.bindingRevision)
  }

  // ----- the order on limits -----

  predicate LimitNoBroader(child: nat, parent: nat) {
    if parent == 0 then true else child != 0 && child <= parent
  }

  /** An unset burst of a rate-limited grant counts as one. */
  function BurstOrOne(limits: Limits): nat {
    if limits.burst == 0 then 1 else limits.burst
  }

  predicate BurstNoBroader(child: Limits, parent: Limits) {
    parent.requestsPerSecond == 0 || BurstOrOne(child) <= BurstOrOne(parent)
  }

  predicate LimitsNoBroader(child: Limits, parent: Limits) {
    && LimitNoBroader(child.requestsPerSecond, parent.requestsPerSecond)
    && BurstNoBroader(child, parent)
    && LimitNoBroader(child.requestBudget, parent.requestBudget)
    && LimitNoBroader(child.byteBudget, parent.byteBudget)
    && LimitNoBroader(child.maxRequestBytes, parent.maxRequestBytes)
  }

  /** A ceiling admits an amount. */
  predicate Admits(ceiling: nat, amount: nat) {
    ceiling == 0 || amount <= ceiling
  }

  /** "No broader" is exactly: whatever the child admits, the parent admits. */
  lemma NoBroaderMeansInclusion(child: nat, parent: nat)
    ensures LimitNoBroader(child, parent) <==> forall amount: nat :: Admits(child, amount) ==> Admits(parent, amount)
  {
    assert child > parent ==> Admits(child, child);
    assert child == 0 ==> Admits(child, parent + 1);
    assert Admits(parent, child) && Admits(parent, parent + 1) ==> LimitNoBroader(child, parent);
  }

  lemma LimitsNoBroaderTransitive(a: Limits, b: Limits, c: Limits)
    requires LimitsNoBroader(a, b) && LimitsNoBroader(b, c)
    ensures LimitsNoBroader(a, c)
  {
    // were b unlimited in rate, c would be too
    assert c.requestsPerSecond != 0 ==> b.requestsPerSecond != 0;
  }

  /**
   The burst order on its own is not transitive. It passes through a middle `b` to every `a`
   exactly when `b` is rated, `c` is unrated, or `c` has the largest burst there is; otherwise an
   unrated middle forgets the burst, as in the triple below.
   */
  lemma BurstAloneNotTransitive(b: Limits, c: Limits)
    requires BurstNoBroader(b, c)
    ensures (forall a: Limits :: BurstNoBroader(a, b) ==> BurstNoBroader(a, c))
       <==> b.requestsPerSecond != 0 || c.requestsPerSecond == 0 || BurstOrOne(c) == MAX_UINT64
    ensures var a, b, c := Limits(1, 9, 0, 0, 0), Limits(0, 1, 0, 0, 0), Limits(1, 1, 0, 0, 0);
            BurstNoBroader(a, b) && BurstNoBroader(b, c) && !BurstNoBroader(a, c)
  {
    var widest := Limits(1, MAX_UINT64, 0, 0, 0);
    assert b.requestsPerSecond == 0 ==> BurstNoBroader(widest, b);
    assert BurstNoBroader(widest, c) <==> c.requestsPerSecond == 0 || BurstOrOne(c) == MAX_UINT64;
  }

  // ----- the order on grant sets -----

  predicate OnePerService(grants: seq<Grant>) {
    forall i, j :: 0 <= i < j < |grants| ==> grants[i].service != grants[j].service
  }

  /** The last grant of that identity, as a map filled in order keeps it. */
  function Lookup(grants: seq<Grant>, id: Identity): (found: Option<Grant>)
    ensures found.Some? ==> found.value in grants && IdentityOf(found.value) == id
    ensures found.None? ==> forall g :: g in grants ==> IdentityOf(g) != id
  {
    if grants == [] then None
    else
      var last := grants[|grants| - 1];
      if IdentityOf(last) == id then Some(last) else Lookup(grants[..|grants| - 1], id)
  }

  predicate Covered(g: Grant, parents: seq<Grant>) {
    var p := Lookup(parents, IdentityOf(g));
    p.Some? && LimitsNoBroader(g.limits, p.value.limits)
  }

  predicate GrantsSubset(child: seq<Grant>, parent: seq<Grant>) {
    forall g :: g in child ==> Covered(g, parent)
  }

  lemma GrantsSubsetTransitive(a: seq<Grant>, b: seq<Grant>, c: seq<Grant>)
    requires GrantsSubset(a, b) && GrantsSubset(b, c)
    ensures GrantsSubset(a, c)
  {
    forall g | g in a ensures Covered(g, c) {
      var h := Lookup(b, IdentityOf(g)).value;
      assert Covered(h, c);
      LimitsNoBroaderTransitive(g.limits, h.limits, Lookup(c, IdentityOf(h)).value.limits);
    }
  }

  method GrantsAreSubset(child: seq<Grant>, parent: seq<Grant>) returns (subset: bool)
    ensures subset <==> GrantsSubset(child, parent)
  {
    var parents: map<Identity, Grant> := map[];
    for i := 0 to |parent|
      invariant forall id :: (id in parents <==> Lookup(parent[..i], id).Some?)
                          && (id in parents ==> Lookup(parent[..i], id) == Some(parents[id]))
    {
      assert parent[..i + 1][..i] == parent[..i];
      parents := parents[IdentityOf(parent[i]) := parent[i]];
    }
    assert parent[..|parent|] == parent;
    for i := 0 to |child|
      invariant GrantsSubset(child[..i], parent)
    {
      var g := child[i];
      if IdentityOf(g) !in parents || !LimitsNoBroader(g.limits, parents[IdentityOf(g)].limits) {
        assert !Covered(g, parent);
        return false;
      }
      assert child[..i + 1] == child[..i] + [g];
    }
    assert child[..|child|] == child;
    return true;
  }

  // ----- which grant sets a token may hold -----

  /** Whether an identifier of at most so many bytes is well formed; the store works for any such rule. */
  type IdentifierRule = (string, nat) -> bool

  predicate ValidGrant(g: Grant, rule: IdentifierRule) {
    && rule(g.service, 256) && rule(g.credentialRef, 1024)
    && rule(g.policyRevision, 256) && rule(g.bindingRevision, 256)
    && (g.limits.requestsPerSecond == 0 ==> g.limits.burst == 0)
  }

  function UniquenessKey(g: Grant): (string, string, string) {
    (g.service, g.credentialRef, g.policyRevision + [0 as char] + g.bindingRevision)
  }

  predicate ValidGrantSet(grants: seq<Grant>, max: nat, rule: IdentifierRule) {
    && 1 <= |grants| <= max
    && (forall g :: g in grants ==> ValidGrant(g, rule))
    && (forall i, j :: 0 <= i < j < |grants| ==> UniquenessKey(grants[i]) != UniquenessKey(grants[j]))
  }

  method ValidateGrantSet(grants: seq<Grant>, max: nat, rule: IdentifierRule) returns (valid: bool)
    ensures valid <==> ValidGrantSet(grants, max, rule)
  {
    if |grants| == 0 || |grants| > max {
      return false;
    }
    var seen: set<(string, string, string)> := {};
    for i := 0 to |grants|
      invariant forall k :: 0 <= k < i ==> ValidGrant(grants[k], rule)
      invariant seen == (set k | 0 <= k < i :: UniquenessKey(grants[k]))
      invariant forall k, l :: 0 <= k < l < i ==> UniquenessKey(grants[k]) != UniquenessKey(grants[l])
    {
      var g := grants[i];
      if !ValidGrant(g, rule) {
        return false;
      }
      var key := UniquenessKey(g);
      if key in seen {
        var k :| 0 <= k < i && UniquenessKey(grants[k]) == key;
        return false;
      }
      seen := seen + {key};
    }
    return true;
  }
}
