/**
 From a validated claim to the limit scopes a request is charged to: one scope for each
 token of the delegation chain, root first.
 */
module ClaimScopes {
  import opened Octets
  import opened Tokens
  import opened TokenForest
  import opened TokenRules
  import opened Text
  import Limiter

  type Scope = Limiter.Scope

  /** The text of a token's ID: hexadecimal in the gateway; all that matters is that it tells tokens apart. */
  type TokenNames = Hash -> string

  ghost predicate TellsApart(names: TokenNames) {
    && (forall h: Hash :: NUL !in names(h))
    && (forall g: Hash, h: Hash :: names(g) == names(h) ==> g == h)
  }

  predicate Plain(id: Identity) {
    NUL !in id.service && NUL !in id.credential && NUL !in id.policy && NUL !in id.binding
  }

  function KeyParts(names: TokenNames, h: Hash, id: Identity): seq<string> {
    [names(h), id.service, id.credential, id.policy, id.binding]
  }

  /** A limiter key: the token and the identity of the grant, joined with NUL bytes. */
  function Key(names: TokenNames, h: Hash, id: Identity): string {
    Join(KeyParts(names, h, id), NUL)
  }

  /** The join loses nothing: a key stands for one token and one identity. */
  lemma KeysTellApart(names: TokenNames, g: Hash, a: Identity, h: Hash, b: Identity)
    requires TellsApart(names) && Plain(a) && Plain(b) && Key(names, g, a) == Key(names, h, b)
    ensures g == h && a == b
  {
    var x, y := KeyParts(names, g, a), KeyParts(names, h, b);
    SplitJoin(x, NUL);
    SplitJoin(y, NUL);
    assert x[0] == y[0] && x[1] == y[1] && x[2] == y[2] && x[3] == y[3] && x[4] == y[4];
  }

  /** The store's nanoseconds as the limiter's seconds. */
  function InstantOf(t: Time): Limiter.Instant {
    t as real / 1_000_000_000.0
  }

  // ----- attenuation along a whole lineage -----

  /** Every token is no broader than each of its ancestors, however far up. */
  lemma {:induction false} AttenuatesEveryAncestor(opts: Options, rs: Records, h: Hash, ancestor: Hash)
    requires Sound(opts, rs) && Linked(rs) && h in rs && Descends(rs, h, ancestor)
    ensures ancestor in rs
    ensures h != ancestor ==> GrantsSubset(rs[h].grants, rs[ancestor].grants) && rs[ancestor].allowDelegation
    ensures rs[h].expiresAt <= rs[ancestor].expiresAt && rs[h].audience == rs[ancestor].audience
    ensures rs[h].root == rs[ancestor].root
    ensures rs[ancestor].revokedAt.Some? ==> rs[h].revokedAt.Some?
    decreases rs[h].depth
  {
    if h != ancestor {
      assert LineageOk(rs, h);
      var parent := rs[h].parent;
      AttenuatesEveryAncestor(opts, rs, parent, ancestor);
      if parent != ancestor {
        GrantsSubsetTransitive(rs[h].grants, rs[parent].grants, rs[ancestor].grants);
      }
    }
  }

  // ----- oneGrantForService -----

  function ServiceCount(grants: seq<Grant>, service: string): nat {
    if grants == [] then 0
    else ServiceCount(grants[..|grants| - 1], service) + (if grants[|grants| - 1].service == service then 1 else 0)
  }

  function LastForService(grants: seq<Grant>, service: string): (found: Option<Grant>)
    ensures found.Some? ==> found.value in grants && found.value.service == service
  {
    if grants == [] then None
    else if grants[|grants| - 1].service == service then Some(grants[|grants| - 1])
    else LastForService(grants[..|grants| - 1], service)
  }

  /** The only grant for the service, if there is exactly one. */
  function OneGrant(grants: seq<Grant>, service: string): Option<Grant> {
    if ServiceCount(grants, service) == 1 then LastForService(grants, service) else None
  }

  method OneGrantForService(grants: seq<Grant>, service: string) returns (grant: Option<Grant>)
    ensures grant == OneGrant(grants, service)
  {
    var found: Option<Grant> := None;
    var count := 0;
    for i := 0 to |grants|
      invariant found == LastForService(grants[..i], service)
      invariant count == ServiceCount(grants[..i], service)
    {
      assert grants[..i + 1][..i] == grants[..i];
      if grants[i].service == service {
        found, count := Some(grants[i]), count + 1;
      }
    }
    assert grants[..|grants|] == grants;
    return if count == 1 then found else None;
  }

  lemma {:induction false} NoneForService(grants: seq<Grant>, service: string)
    requires forall g :: g in grants ==> g.service != service
    ensures ServiceCount(grants, service) == 0
  {
    if grants != [] {
      NoneForService(grants[..|grants| - 1], service);
    }
  }

  /** With one grant a service, looking a service up finds that very grant. */
  lemma {:induction false} OneGrantFinds(grants: seq<Grant>, g: Grant)
    requires OnePerService(grants) && g in grants
    ensures OneGrant(grants, g.service) == Some(g)
  {
    var front, last := grants[..|grants| - 1], grants[|grants| - 1];
    assert grants == front + [last];
    if last == g {
      NoneForService(front, g.service);
    } else {
      OneGrantFinds(front, g);
    }
  }

  // ----- one grant a service is inherited -----

  /** A child of a one-grant-a-service parent holds one grant a service. */
  lemma OnePerServiceInherited(child: seq<Grant>, parent: seq<Grant>, max: nat, rule: IdentifierRule)
    requires OnePerService(parent) && GrantsSubset(child, parent) && ValidGrantSet(child, max, rule)
    ensures OnePerService(child)
  {
    forall i, j | 0 <= i < j < |child| ensures child[i].service != child[j].service {
      assert Covered(child[i], parent) && Covered(child[j], parent);
      var p, q := Lookup(parent, IdentityOf(child[i])).value, Lookup(parent, IdentityOf(child[j])).value;
      assert UniquenessKey(child[i]) != UniquenessKey(child[j]);
      assert IdentityOf(p) != IdentityOf(q);
    }
  }

  ghost predicate RootOnePerService(rs: Records, h: Hash) {
    h in rs && rs[h].root in rs && OnePerService(rs[rs[h].root].grants)
  }

  lemma {:induction false} LineageOnePerService(opts: Options, rs: Records, h: Hash)
    requires Sound(opts, rs) && Linked(rs) && RootOnePerService(rs, h)
    ensures OnePerService(rs[h].grants)
    decreases rs[h].depth
  {
    assert RecordOk(opts, rs[h]) && LineageOk(rs, h);
    if rs[h].depth > 0 {
      LineageOnePerService(opts, rs, rs[h].parent);
      OnePerServiceInherited(rs[h].grants, rs[rs[h].parent].grants, opts.maxGrantsPerToken, opts.rule);
    }
  }

  // ----- claimLimitScopes -----

  /** The scope that one link of the chain contributes for a grant. */
  function ScopeFor(names: TokenNames, link: LimitScope, grant: Grant, own: Grant): Scope {
    Limiter.Scope(Key(names, link.tokenID, IdentityOf(grant)), own.limits, InstantOf(link.expiresAt))
  }

  /** Link `i` offers exactly one grant for the service, of the right identity, within link `i - 1`. */
  predicate LinkOk(chain: seq<LimitScope>, i: nat, current: Grant)
    requires i < |chain|
  {
    var own := OneGrant(chain[i].grants, current.service);
    && own.Some? && IdentityOf(own.value) == IdentityOf(current)
    && (i > 0 ==>
          var above := OneGrant(chain[i - 1].grants, current.service);
          && above.Some? && LimitsNoBroader(own.value.limits, above.value.limits)
          && chain[i].expiresAt <= chain[i - 1].expiresAt)
  }

  predicate ChainOk(claims: Claims, current: Grant) {
    var chain := claims.limitChain;
    && |chain| == claims.depth + 1
    && chain[0].tokenID == claims.rootTokenID && chain[|chain| - 1].tokenID == claims.tokenID
    && (forall i :: 0 <= i < |chain| ==> LinkOk(chain, i, current))
    && OneGrant(chain[|chain| - 1].grants, current.service) == Some(current)
    && chain[|chain| - 1].expiresAt == claims.expiresAt
  }

  predicate ScopesOf(names: TokenNames, chain: seq<LimitScope>, current: Grant, scopes: seq<Scope>) {
    && |scopes| == |chain|
    && forall i :: 0 <= i < |chain| ==>
         var own := OneGrant(chain[i].grants, current.service);
         own.Some? && scopes[i] == ScopeFor(names, chain[i], current, own.value)
  }

  method ClaimLimitScopes(names: TokenNames, claims: Claims, current: Grant) returns (scopes: Option<seq<Scope>>)
    ensures scopes.Some? <==> ChainOk(claims, current)
    ensures scopes.Some? ==> ScopesOf(names, claims.limitChain, current, scopes.value)
  {
    hide LimitsNoBroader;
    hide ScopeFor;
    hide OneGrant;
    var chain := claims.limitChain;
    if |chain| != claims.depth + 1 || |chain| == 0
       || chain[0].tokenID != claims.rootTokenID || chain[|chain| - 1].tokenID != claims.tokenID {
      return None;
    }
    var built: seq<Scope> := [];
    var previous := current;
    for index := 0 to |chain|
      invariant forall i :: 0 <= i < index ==> LinkOk(chain, i, current)
      invariant ScopesOf(names, chain[..index], current, built)
      invariant index > 0 ==> OneGrant(chain[index - 1].grants, current.service) == Some(previous)
    {
      var link := chain[index];
      var own := OneGrantForService(link.grants, current.service);
      if own.None? || IdentityOf(own.value) != IdentityOf(current) {
        assert !LinkOk(chain, index, current);
        return None;
      }
      if index > 0 && (!LimitsNoBroader(own.value.limits, previous.limits) || link.expiresAt > chain[index - 1].expiresAt) {
        assert !LinkOk(chain, index, current);
        return None;
      }
      previous := own.value;
      assert chain[..index + 1] == chain[..index] + [link];
      built := built + [ScopeFor(names, link, current, own.value)];
    }
    assert chain[..|chain|] == chain;
    var last := chain[|chain| - 1];
    if previous != current || last.expiresAt != claims.expiresAt {
      return None;
    }
    return Some(built);
  }

  lemma {:induction false} ChainTokens(opts: Options, rs: Records, h: Hash)
    requires Sound(opts, rs) && Linked(rs) && h in rs
    ensures Chain(rs, h)[0].tokenID == rs[h].root
    ensures Chain(rs, h)[rs[h].depth] == ScopeOf(rs[h])
    ensures forall i :: 0 <= i <= rs[h].depth ==>
              Chain(rs, h)[i].tokenID in rs && rs[Chain(rs, h)[i].tokenID].depth == i
    decreases rs[h].depth
  {
    assert LineageOk(rs, h);
    if rs[h].depth > 0 {
      ChainTokens(opts, rs, rs[h].parent);
    }
  }

  ghost predicate Holds(rs: Records, h: Hash, id: Identity) {
    h in rs && exists g :: g in rs[h].grants && IdentityOf(g) == id
  }

  /** A token holding an identity is found to hold just that grant, and so is its parent, no narrower. */
  lemma OwnGrant(opts: Options, rs: Records, h: Hash, id: Identity)
    requires Sound(opts, rs) && Linked(rs) && RootOnePerService(rs, h) && Holds(rs, h, id)
    ensures var own := OneGrant(rs[h].grants, id.service); own.Some? && IdentityOf(own.value) == id
    ensures rs[h].depth > 0 ==>
              && Holds(rs, rs[h].parent, id) && RootOnePerService(rs, rs[h].parent)
              && Covered(OneGrant(rs[h].grants, id.service).value, rs[rs[h].parent].grants)
  {
    var own :| own in rs[h].grants && IdentityOf(own) == id;
    LineageOnePerService(opts, rs, h);
    OneGrantFinds(rs[h].grants, own);
    assert LineageOk(rs, h);
    if rs[h].depth > 0 {
      assert Covered(own, rs[rs[h].parent].grants);
    }
  }

  lemma WithinParent(opts: Options, rs: Records, h: Hash, id: Identity)
    requires Sound(opts, rs) && Linked(rs) && RootOnePerService(rs, h) && Holds(rs, h, id) && rs[h].depth > 0
    ensures var own, above := OneGrant(rs[h].grants, id.service), OneGrant(rs[rs[h].parent].grants, id.service);
            own.Some? && above.Some? && LimitsNoBroader(own.value.limits, above.value.limits)
    ensures rs[h].expiresAt <= rs[rs[h].parent].expiresAt
  {
    hide OneGrant;
    OwnGrant(opts, rs, h, id);
    OwnGrant(opts, rs, rs[h].parent, id);
    LineageOnePerService(opts, rs, rs[h].parent);
    assert LineageOk(rs, h);
    var wider := Lookup(rs[rs[h].parent].grants, id).value;
    OneGrantFinds(rs[rs[h].parent].grants, wider);
  }

  /** Each link of a stored chain passes the gateway's checks for every grant of the leaf. */
  lemma {:induction false} ChainLinksOk(opts: Options, rs: Records, h: Hash, current: Grant)
    requires Sound(opts, rs) && Linked(rs) && h in rs && RootOnePerService(rs, h) && Holds(rs, h, IdentityOf(current))
    ensures forall i :: 0 <= i <= rs[h].depth ==> LinkOk(Chain(rs, h), i, current)
    decreases rs[h].depth
  {
    hide Sound;
    hide OneGrant;
    hide RootOnePerService;
    hide Holds;
    OwnGrant(opts, rs, h, IdentityOf(current));
    var chain, n := Chain(rs, h), rs[h].depth;
    assert chain[n] == ScopeOf(rs[h]);
    if n > 0 {
      var above := Chain(rs, rs[h].parent);
      WithinParent(opts, rs, h, IdentityOf(current));
      ChainLinksOk(opts, rs, rs[h].parent, current);
      assert chain[n - 1] == above[n - 1] == ScopeOf(rs[rs[h].parent]);
      forall i | 0 <= i < n ensures LinkOk(chain, i, current) {
        assert LinkOk(above, i, current);
        assert chain[i] == above[i] && (i > 0 ==> chain[i - 1] == above[i - 1]);
      }
    }
  }

  lemma GrantIsPlain(opts: Options, rs: Records, h: Hash, g: Grant)
    requires Normalized(opts) && Sound(opts, rs) && h in rs && g in rs[h].grants
    ensures Plain(IdentityOf(g))
  {
    assert RecordOk(opts, rs[h]);
    assert ValidGrant(g, opts.rule);
  }

  /**
   Whenever the root of a stored token holds one grant a service, each grant of the token's
   claims yields scopes: depth + 1 of them, root to leaf, under distinct keys, each with the
   limits of that link's own grant.
   */
  lemma ScopesAlwaysExist(opts: Options, names: TokenNames, rs: Records, h: Hash, current: Grant)
    requires Normalized(opts) && TellsApart(names)
    requires Sound(opts, rs) && Linked(rs) && RootOnePerService(rs, h) && current in rs[h].grants
    ensures ChainOk(ClaimsOf(rs, h), current)
    ensures |ClaimsOf(rs, h).limitChain| == rs[h].depth + 1
    ensures forall scopes: seq<Scope> :: ScopesOf(names, Chain(rs, h), current, scopes) ==>
              forall i, j :: 0 <= i < j < |scopes| ==> scopes[i].key != scopes[j].key
  {
    ChainLinksOk(opts, rs, h, current);
    ChainTokens(opts, rs, h);
    LineageOnePerService(opts, rs, h);
    OneGrantFinds(rs[h].grants, current);
    GrantIsPlain(opts, rs, h, current);
    forall scopes: seq<Scope> | ScopesOf(names, Chain(rs, h), current, scopes)
      ensures forall i, j :: 0 <= i < j < |scopes| ==> scopes[i].key != scopes[j].key
    {
      DistinctKeys(names, rs, h, current, scopes);
    }
  }

  lemma DistinctKeys(names: TokenNames, rs: Records, h: Hash, current: Grant, scopes: seq<Scope>)
    requires Linked(rs) && h in rs && TellsApart(names) && Plain(IdentityOf(current))
    requires ScopesOf(names, Chain(rs, h), current, scopes)
    requires forall i :: 0 <= i <= rs[h].depth ==>
               Chain(rs, h)[i].tokenID in rs && rs[Chain(rs, h)[i].tokenID].depth == i
    ensures forall i, j :: 0 <= i < j < |scopes| ==> scopes[i].key != scopes[j].key
  {
    hide Key;
    var chain, id := Chain(rs, h), IdentityOf(current);
    forall i, j | 0 <= i < j < |scopes| ensures scopes[i].key != scopes[j].key {
      assert scopes[i].key == Key(names, chain[i].tokenID, id) && scopes[j].key == Key(names, chain[j].tokenID, id);
      if scopes[i].key == scopes[j].key {
        KeysTellApart(names, chain[i].tokenID, id, chain[j].tokenID, id);
      }
    }
  }
}
