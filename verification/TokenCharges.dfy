/**
 From stored tokens to conserved counters: requests are charged to the delegation chains of
 tokens in the store, and over every run each grant of each token ever issued keeps its limits,
 and what a token's children used was charged to the token.
 */
module TokenCharges {
  import opened Octets
  import opened Sums
  import opened Tokens
  import opened TokenForest
  import opened TokenRules
  import opened ClaimScopes
  import opened Runs = LimiterRuns
  import Limiter

  /**
   The store at some moment, seen against all tokens ever issued: tokens come and go and are
   revoked, but what was issued is never rewritten.
   */
  ghost predicate AmongIssued(rs: Records, issued: Records) {
    forall h :: h in rs ==> h in issued && Unrevoked(rs[h]) == Unrevoked(issued[h])
  }

  lemma {:induction false} SameChain(rs: Records, issued: Records, h: Hash)
    requires Linked(rs) && Linked(issued) && AmongIssued(rs, issued) && h in rs
    ensures Chain(rs, h) == Chain(issued, h)
    decreases rs[h].depth
  {
    assert Unrevoked(rs[h]) == Unrevoked(issued[h]);
    assert ScopeOf(rs[h]) == ScopeOf(Unrevoked(rs[h])) == ScopeOf(issued[h]);
    assert rs[h].parent == Unrevoked(rs[h]).parent && rs[h].depth == Unrevoked(rs[h]).depth;
    if rs[h].depth > 0 {
      SameChain(rs, issued, rs[h].parent);
    }
  }

  /** All tokens ever issued, every root with one grant per service. */
  ghost predicate Issued(opts: Options, names: TokenNames, issued: Records) {
    && Normalized(opts) && TellsApart(names) && Sound(opts, issued) && Linked(issued)
    && forall h :: h in issued ==> RootOnePerService(issued, h)
  }

  // ----- keys -----

  ghost predicate Owns(names: TokenNames, issued: Records, k: string, h: Hash, id: Identity) {
    h in issued && Holds(issued, h, id) && k == Key(names, h, id)
  }

  lemma OwnerIsUnique(opts: Options, names: TokenNames, issued: Records, k: string,
                      g: Hash, a: Identity, h: Hash, b: Identity)
    requires Issued(opts, names, issued) && Owns(names, issued, k, g, a) && Owns(names, issued, k, h, b)
    ensures g == h && a == b
  {
    hide Key;
    hide Sound;
    hide Normalized;
    var x :| x in issued[g].grants && IdentityOf(x) == a;
    var y :| y in issued[h].grants && IdentityOf(y) == b;
    GrantIsPlain(opts, issued, g, x);
    GrantIsPlain(opts, issued, h, y);
    KeysTellApart(names, g, a, h, b);
  }

  const UNLIMITED := Limits(0, 0, 0, 0, 0)

  ghost function OwnLimits(issued: Records, h: Hash, id: Identity): Limits
    requires h in issued
  {
    var own := OneGrant(issued[h].grants, id.service);
    if own.Some? then own.value.limits else UNLIMITED
  }

  /** The limits and expiry that a key stands for. */
  ghost function ClaimAt(names: TokenNames, issued: Records, k: string): Claim {
    if exists h, id :: Owns(names, issued, k, h, id) then
      var h, id :| Owns(names, issued, k, h, id);
      Claim(OwnLimits(issued, h, id), InstantOf(issued[h].expiresAt))
    else Claim(UNLIMITED, 0.0)
  }

  /** The key of the token that delegated, for the same grant. */
  ghost function ParentAt(names: TokenNames, issued: Records, k: string): Option<string> {
    if exists h, id :: Owns(names, issued, k, h, id) then
      var h, id :| Owns(names, issued, k, h, id);
      if issued[h].depth == 0 then None else Some(Key(names, issued[h].parent, id))
    else None
  }

  lemma AtOwner(opts: Options, names: TokenNames, issued: Records, k: string, h: Hash, id: Identity)
    requires Issued(opts, names, issued) && Owns(names, issued, k, h, id)
    ensures ClaimAt(names, issued, k) == Claim(OwnLimits(issued, h, id), InstantOf(issued[h].expiresAt))
    ensures ParentAt(names, issued, k) == if issued[h].depth == 0 then None else Some(Key(names, issued[h].parent, id))
  {
    hide Issued;
    hide Key;
    hide Holds;
    hide OwnLimits;
    forall g, a | Owns(names, issued, k, g, a) ensures g == h && a == id {
      OwnerIsUnique(opts, names, issued, k, g, a, h, id);
    }
  }

  // ----- chains -----

  /** Link `i` of a chain is a token at depth `i` that holds the grant, below link `i - 1`. */
  ghost predicate LinkedAt(issued: Records, chain: seq<LimitScope>, i: nat, id: Identity)
    requires i < |chain|
  {
    var a := chain[i].tokenID;
    && a in issued && chain[i] == ScopeOf(issued[a]) && issued[a].depth == i && Holds(issued, a, id)
    && (i > 0 ==> issued[a].parent == chain[i - 1].tokenID)
  }

  lemma {:induction false} ChainIsLinked(opts: Options, issued: Records, h: Hash, id: Identity)
    requires Sound(opts, issued) && Linked(issued) && h in issued && RootOnePerService(issued, h) && Holds(issued, h, id)
    ensures forall i :: 0 <= i <= issued[h].depth ==> LinkedAt(issued, Chain(issued, h), i, id)
    decreases issued[h].depth
  {
    hide Sound;
    hide RootOnePerService;
    hide Holds;
    OwnGrant(opts, issued, h, id);
    ChainTokens(opts, issued, h);
    var chain, n := Chain(issued, h), issued[h].depth;
    assert chain[n] == ScopeOf(issued[h]);
    if n > 0 {
      var above := Chain(issued, issued[h].parent);
      ChainIsLinked(opts, issued, issued[h].parent, id);
      assert chain[n - 1] == above[n - 1] == ScopeOf(issued[issued[h].parent]);
      forall i | 0 <= i < n ensures LinkedAt(issued, chain, i, id) {
        assert LinkedAt(issued, above, i, id);
        assert chain[i] == above[i] && (i > 0 ==> chain[i - 1] == above[i - 1]);
      }
    }
  }

  /** A call charged to a token that was in the store at the time, for one of its grants. */
  ghost predicate Charges(names: TokenNames, issued: Records, e: Event) {
    exists rs, h, current :: ChargedTo(names, issued, e, rs, h, current)
  }

  ghost predicate ChargedTo(names: TokenNames, issued: Records, e: Event, rs: Records, h: Hash, current: Grant) {
    && Linked(rs) && AmongIssued(rs, issued) && h in rs && current in rs[h].grants
    && ScopesOf(names, Chain(rs, h), current, e.scopes)
  }

  lemma ScopeConforms(opts: Options, names: TokenNames, issued: Records, h: Hash, current: Grant,
                      scopes: seq<Scope>, i: nat)
    requires Issued(opts, names, issued) && h in issued && i < |scopes|
    requires ScopesOf(names, Chain(issued, h), current, scopes)
    requires LinkedAt(issued, Chain(issued, h), i, IdentityOf(current))
    ensures ClaimAt(names, issued, scopes[i].key) == Claim(scopes[i].limits, scopes[i].expiresAt)
    ensures i > 0 ==> ParentAt(names, issued, scopes[i].key) == Some(scopes[i - 1].key)
    ensures i == 0 ==> ParentAt(names, issued, scopes[i].key) == None
  {
    hide Normalized;
    hide Sound;
    hide TellsApart;
    hide RootOnePerService;
    hide Key;
    hide Holds;
    hide OneGrant;
    hide ClaimAt;
    hide ParentAt;
    hide Linked;
    var a, id := Chain(issued, h)[i].tokenID, IdentityOf(current);
    assert Owns(names, issued, scopes[i].key, a, id);
    AtOwner(opts, names, issued, scopes[i].key, a, id);
  }

  lemma ChargeConforms(opts: Options, names: TokenNames, issued: Records, e: Event)
    requires Issued(opts, names, issued) && Charges(names, issued, e)
    ensures Conforms(k => ClaimAt(names, issued, k), e)
    ensures ChainShaped(k => ParentAt(names, issued, k), Limiter.Keys(e.scopes))
  {
    hide Normalized;
    hide Sound;
    hide RootOnePerService;
    hide ClaimAt;
    hide ParentAt;
    hide TellsApart;
    var rs, h, current :| ChargedTo(names, issued, e, rs, h, current);
    SameChain(rs, issued, h);
    HeldByIssued(rs, issued, h, current);
    ChainIsLinked(opts, issued, h, IdentityOf(current));
    ChargedKeysDiffer(opts, names, issued, h, current, e.scopes);
    forall i | 0 <= i < |e.scopes|
      ensures ClaimAt(names, issued, e.scopes[i].key) == Claim(e.scopes[i].limits, e.scopes[i].expiresAt)
      ensures HangsBelow(k => ParentAt(names, issued, k), e.scopes, i)
    {
      ScopeConforms(opts, names, issued, h, current, e.scopes, i);
    }
    ChainsAreChainShaped(k => ParentAt(names, issued, k), e.scopes);
  }

  lemma HeldByIssued(rs: Records, issued: Records, h: Hash, current: Grant)
    requires AmongIssued(rs, issued) && h in rs && current in rs[h].grants
    ensures h in issued && current in issued[h].grants && Holds(issued, h, IdentityOf(current))
  {
    assert rs[h].grants == Unrevoked(rs[h]).grants == issued[h].grants;
  }

  lemma ChargedKeysDiffer(opts: Options, names: TokenNames, issued: Records, h: Hash, current: Grant, scopes: seq<Scope>)
    requires Issued(opts, names, issued) && h in issued && current in issued[h].grants
    requires ScopesOf(names, Chain(issued, h), current, scopes)
    ensures forall i, j :: 0 <= i < j < |scopes| ==> scopes[i].key != scopes[j].key
  {
    ScopesAlwaysExist(opts, names, issued, h, current);
  }

  // ----- whole runs -----

  ghost predicate ChargedRun(names: TokenNames, issued: Records, events: seq<Event>) {
    && (forall i :: 0 <= i < |events| ==> Charges(names, issued, events[i]) && 0.0 <= events[i].now)
    && (forall i, j :: 0 <= i < j < |events| ==> events[i].now <= events[j].now)
  }

  lemma ChargedRunIsProper(opts: Options, names: TokenNames, issued: Records, events: seq<Event>)
    requires Issued(opts, names, issued) && ChargedRun(names, issued, events)
    ensures ProperRun(k => ClaimAt(names, issued, k), events)
    ensures forall i :: 0 <= i < |events| ==>
              ChainShaped(k => ParentAt(names, issued, k), Limiter.Keys(events[i].scopes))
  {
    hide Issued;
    hide Charges;
    hide Conforms;
    hide ChainShaped;
    forall i | 0 <= i < |events|
      ensures Conforms(k => ClaimAt(names, issued, k), events[i])
      ensures ChainShaped(k => ParentAt(names, issued, k), Limiter.Keys(events[i].scopes))
    {
      ChargeConforms(opts, names, issued, events[i]);
    }
  }

  /** Over every run, each grant of each token ever issued stays within its own budgets and its own rate. */
  lemma TokensKeepTheirLimits(opts: Options, names: TokenNames, issued: Records, events: seq<Event>, h: Hash, g: Grant)
    requires Issued(opts, names, issued) && ChargedRun(names, issued, events) && h in issued && g in issued[h].grants
    ensures BudgetsOk(g.limits, After(START, events).log, Key(names, h, IdentityOf(g)))
    ensures RateOk(g.limits, After(START, events).log, Key(names, h, IdentityOf(g)))
  {
    hide ChargedRun;
    hide ProperRun;
    hide WorldOk;
    hide BudgetsOk;
    hide RateOk;
    hide Key;
    hide ClaimAt;
    hide After;
    var k := Key(names, h, IdentityOf(g));
    ChargedRunIsProper(opts, names, issued, events);
    LimitsHoldForEver(k => ClaimAt(names, issued, k), events);
    LineageOnePerService(opts, issued, h);
    OneGrantFinds(issued[h].grants, g);
    assert Owns(names, issued, k, h, IdentityOf(g));
    AtOwner(opts, names, issued, k, h, IdentityOf(g));
    assert BudgetsOk((k => ClaimAt(names, issued, k))(k).limits, After(START, events).log, k);
  }

  ghost function KeysOf(names: TokenNames, tokens: set<Hash>, id: Identity): set<string> {
    set h | h in tokens :: Key(names, h, id)
  }

  /** After every run, what any live children of a token used of a grant is within what the token was charged. */
  lemma TokensCoverTheirChildren(opts: Options, names: TokenNames, issued: Records, events: seq<Event>,
                                 parent: Hash, children: set<Hash>, id: Identity)
    requires Issued(opts, names, issued) && ChargedRun(names, issued, events)
    requires forall c :: c in children ==>
               c in issued && Holds(issued, c, id) && issued[c].depth > 0 && issued[c].parent == parent
    requires Key(names, parent, id) in After(START, events).table.states
    requires KeysOf(names, children, id) <= After(START, events).table.states.Keys
    ensures var states := After(START, events).table.states;
            && Total(RequestCounters(states, KeysOf(names, children, id))) <= states[Key(names, parent, id)].requests
            && Total(ByteCounters(states, KeysOf(names, children, id))) <= states[Key(names, parent, id)].bytes
  {
    hide ChargedRun;
    hide ProperRun;
    hide ChainShaped;
    hide ClaimAt;
    hide ParentAt;
    hide After;
    hide Key;
    hide Issued;
    hide Holds;
    ChargedRunIsProper(opts, names, issued, events);
    forall k | k in KeysOf(names, children, id)
      ensures ParentAt(names, issued, k) == Some(Key(names, parent, id))
    {
      var c :| c in children && Key(names, c, id) == k;
      assert Owns(names, issued, k, c, id);
      AtOwner(opts, names, issued, k, c, id);
    }
    TreeConserves(k => ClaimAt(names, issued, k), k => ParentAt(names, issued, k), events,
                  Key(names, parent, id), KeysOf(names, children, id));
  }
}
