/** Discovery: which grants still resolve, the manifest built of them, and the bound checked when a configuration is loaded. */
module Discovery {
  import opened Octets
  import opened Tokens
  import opened ManifestText
  import opened TopSums
  import opened Ordering

  const SSH_SESSION := "ssh-session"
  const MAX_BYTES := 128 * 1024
  const MAX_SERVICES := 64

  datatype Projection = Projection(
    adapter: string, baseUrl: string, pathPrefix: string, host: string, clientHeader: string, clientPrefix: string)

  datatype CompiledPolicy = CompiledPolicy(service: string, adapter: string, summary: string, ssh: Option<Ssh>)

  datatype Compiled = Compiled(
    policies: map<string, CompiledPolicy>,
    policyRevisions: map<string, CompiledPolicy>,
    capabilityServices: map<string, Projection>,
    credentialServices: map<string, string>,
    bindingRevisions: map<string, string>)

  /** JSON string quoting, and the canonical spelling of a header name. */
  datatype Encoding = Encoding(quote: string -> string, canonicalHeader: string -> string)

  /** The policies found by revision are policies of the configuration. */
  ghost predicate WellFormed(compiled: Compiled) {
    forall revision :: revision in compiled.policyRevisions ==>
                         compiled.policyRevisions[revision] in compiled.policies.Values
  }

  // ---- grants ----

  /** All that a grant names is what the configuration now holds, and belongs together. */
  predicate Current(compiled: Compiled, grant: Grant, policy: CompiledPolicy) {
    && grant.service in compiled.capabilityServices.Keys
    && (grant.credentialRef, grant.service) in compiled.credentialServices.Items
    && (grant.credentialRef, grant.bindingRevision) in compiled.bindingRevisions.Items
    && (grant.policyRevision, policy) in compiled.policyRevisions.Items
    && policy.service == grant.service && grant.bindingRevision != ""
  }

  /** A grant resolves to a policy exactly while credential, binding, policy and service are the current ones. */
  function ResolveGrant(compiled: Compiled, grant: Grant): (policy: Option<CompiledPolicy>)
    ensures forall p :: policy == Some(p) <==> Current(compiled, grant, p)
  {
    if || grant.service !in compiled.capabilityServices
       || grant.credentialRef !in compiled.credentialServices
       || compiled.credentialServices[grant.credentialRef] != grant.service
       || grant.credentialRef !in compiled.bindingRevisions
       || compiled.bindingRevisions[grant.credentialRef] == ""
       || grant.bindingRevision != compiled.bindingRevisions[grant.credentialRef]
       || grant.policyRevision !in compiled.policyRevisions
       || compiled.policyRevisions[grant.policyRevision].service != grant.service
    then None
    else Some(compiled.policyRevisions[grant.policyRevision])
  }

  /** What a policy of a service may be shown as. */
  predicate Projectable(compiled: Compiled, policy: CompiledPolicy) {
    policy.service in compiled.capabilityServices && (policy.adapter == SSH_SESSION ==> policy.ssh.Some?)
  }

  function ServiceOf(encoding: Encoding, compiled: Compiled, policy: CompiledPolicy, limits: Limits): Service
    requires Projectable(compiled, policy)
  {
    var p := compiled.capabilityServices[policy.service];
    Service(policy.service, p.adapter, p.baseUrl, p.pathPrefix, p.host,
            encoding.canonicalHeader(p.clientHeader), p.clientPrefix,
            if policy.adapter == SSH_SESSION then policy.ssh else None, policy.summary, limits)
  }

  /** The line of the manifest for a grant, if the grant still resolves. */
  function ServiceFor(encoding: Encoding, compiled: Compiled, grant: Grant): Option<Service> {
    var policy := ResolveGrant(compiled, grant);
    if policy.None? || !Projectable(compiled, policy.value) then None
    else Some(ServiceOf(encoding, compiled, policy.value, grant.limits))
  }

  // ---- what the bound must cover ----

  ghost predicate Shown(encoding: Encoding, compiled: Compiled, service: Service) {
    exists policy, limits :: Shows(encoding, compiled, policy, limits, service)
  }

  ghost predicate Shows(encoding: Encoding, compiled: Compiled, policy: CompiledPolicy, limits: Limits, service: Service) {
    && policy in compiled.policies.Values && Projectable(compiled, policy)
    && service == ServiceOf(encoding, compiled, policy, limits)
  }

  function Names(services: seq<Service>): (names: seq<string>)
    ensures |names| == |services|
  {
    seq(|services|, i requires 0 <= i < |services| => services[i].name)
  }

  /** Any combination of at most 64 services, each under any of its policies and with any limits. */
  ghost predicate Admissible(encoding: Encoding, compiled: Compiled, services: seq<Service>) {
    && |services| <= MAX_SERVICES && Distinct(Names(services))
    && forall i :: 0 <= i < |services| ==> Shown(encoding, compiled, services[i])
  }

  ghost predicate AllProjectable(compiled: Compiled) {
    forall policy :: policy in compiled.policies.Values ==> Projectable(compiled, policy)
  }

  /** The longest a time gets: nanoseconds, a four-digit year, quotes. */
  const LONGEST_TIME := "\"9998-12-31T23:59:58.999999999Z\""

  ghost predicate FitsAlways(encoding: Encoding, compiled: Compiled) {
    forall services :: Admissible(encoding, compiled, services) ==>
                         |Manifest(LONGEST_TIME, LONGEST_TIME, services, encoding.quote)| + 1 <= MAX_BYTES
  }

  // ---- the largest projection of every service ----

  function Candidate(encoding: Encoding, compiled: Compiled, policy: CompiledPolicy): Service
    requires Projectable(compiled, policy)
  {
    ServiceOf(encoding, compiled, policy, LONGEST)
  }

  function SizeOf(encoding: Encoding, compiled: Compiled, policy: CompiledPolicy): nat
    requires Projectable(compiled, policy)
  {
    |ServiceText(Candidate(encoding, compiled, policy), encoding.quote)|
  }

  ghost predicate Covered(encoding: Encoding, compiled: Compiled, policy: CompiledPolicy, sizes: Sizes) {
    && Projectable(compiled, policy) && policy.service in sizes
    && SizeOf(encoding, compiled, policy) <= sizes[policy.service]
  }

  ghost predicate IsCandidate(
    encoding: Encoding, compiled: Compiled, policy: CompiledPolicy, name: string, service: Service)
  {
    Projectable(compiled, policy) && policy.service == name && service == Candidate(encoding, compiled, policy)
  }

  ghost predicate Sourced(encoding: Encoding, compiled: Compiled, seen: set<CompiledPolicy>, name: string, service: Service) {
    exists policy :: policy in seen && IsCandidate(encoding, compiled, policy, name, service)
  }

  ghost predicate Sized(encoding: Encoding, largest: map<string, Service>, sizes: Sizes) {
    && largest.Keys == sizes.Keys
    && forall name :: name in largest ==> sizes[name] == |ServiceText(largest[name], encoding.quote)|
  }

  /** For the policies seen so far, the largest candidate of each service and its size. */
  ghost predicate Largest(
    encoding: Encoding, compiled: Compiled, seen: set<CompiledPolicy>, largest: map<string, Service>, sizes: Sizes)
  {
    && Sized(encoding, largest, sizes)
    && (forall policy :: policy in seen ==> Covered(encoding, compiled, policy, sizes))
    && (forall name :: name in largest ==> Sourced(encoding, compiled, seen, name, largest[name]))
  }

  lemma SourcedMore(
    encoding: Encoding, compiled: Compiled, seen: set<CompiledPolicy>, policy: CompiledPolicy, name: string, service: Service)
    requires Sourced(encoding, compiled, seen, name, service)
    ensures Sourced(encoding, compiled, seen + {policy}, name, service)
  {
    var p :| p in seen && IsCandidate(encoding, compiled, p, name, service);
    assert p in seen + {policy};
  }

  lemma SeeSmaller(
    encoding: Encoding, compiled: Compiled, seen: set<CompiledPolicy>, largest: map<string, Service>, sizes: Sizes,
    policy: CompiledPolicy)
    requires Largest(encoding, compiled, seen, largest, sizes) && Covered(encoding, compiled, policy, sizes)
    ensures Largest(encoding, compiled, seen + {policy}, largest, sizes)
  {
    hide Sized;
    hide Covered;
    hide Sourced;
    forall name | name in largest ensures Sourced(encoding, compiled, seen + {policy}, name, largest[name]) {
      SourcedMore(encoding, compiled, seen, policy, name, largest[name]);
    }
  }

  lemma SeeLarger(
    encoding: Encoding, compiled: Compiled, seen: set<CompiledPolicy>, largest: map<string, Service>, sizes: Sizes,
    policy: CompiledPolicy)
    requires Largest(encoding, compiled, seen, largest, sizes) && Projectable(compiled, policy)
    requires policy.service in sizes ==> sizes[policy.service] < SizeOf(encoding, compiled, policy)
    ensures Largest(encoding, compiled, seen + {policy},
                    largest[policy.service := Candidate(encoding, compiled, policy)],
                    sizes[policy.service := SizeOf(encoding, compiled, policy)])
  {
    hide Sourced;
    hide ServiceText;
    hide Candidate;
    var candidate, size := Candidate(encoding, compiled, policy), SizeOf(encoding, compiled, policy);
    var larger, newSizes := largest[policy.service := candidate], sizes[policy.service := size];
    forall name | name in larger ensures Sourced(encoding, compiled, seen + {policy}, name, larger[name]) {
      if name == policy.service {
        NewSource(encoding, compiled, seen, policy);
      } else {
        SourcedMore(encoding, compiled, seen, policy, name, largest[name]);
      }
    }
    forall p | p in seen ensures Covered(encoding, compiled, p, newSizes) {
      assert Covered(encoding, compiled, p, sizes);
    }
  }

  lemma NewSource(encoding: Encoding, compiled: Compiled, seen: set<CompiledPolicy>, policy: CompiledPolicy)
    requires Projectable(compiled, policy)
    ensures Sourced(encoding, compiled, seen + {policy}, policy.service, Candidate(encoding, compiled, policy))
  {
    assert IsCandidate(encoding, compiled, policy, policy.service, Candidate(encoding, compiled, policy));
  }

  method LargestByService(encoding: Encoding, compiled: Compiled)
    returns (ok: bool, largest: map<string, Service>, sizes: Sizes)
    ensures ok <==> AllProjectable(compiled)
    ensures ok ==> Largest(encoding, compiled, compiled.policies.Values, largest, sizes)
  {
    hide ServiceText;
    hide Largest;
    largest, sizes := map[], map[];
    ghost var seen: set<CompiledPolicy> := {};
    var left := compiled.policies.Keys;
    NoneSeen(encoding, compiled);
    while left != {}
      invariant left <= compiled.policies.Keys
      invariant forall name :: name in compiled.policies && name !in left ==> compiled.policies[name] in seen
      invariant forall policy :: policy in seen ==> policy in compiled.policies.Values && Projectable(compiled, policy)
      invariant Largest(encoding, compiled, seen, largest, sizes)
    {
      var name :| name in left;
      var policy := compiled.policies[name];
      if !Projectable(compiled, policy) {
        return false, largest, sizes;
      }
      var candidate := Candidate(encoding, compiled, policy);
      var size := |ServiceText(candidate, encoding.quote)|;
      if policy.service !in sizes || size > sizes[policy.service] {
        SeeLarger(encoding, compiled, seen, largest, sizes, policy);
        largest, sizes := largest[policy.service := candidate], sizes[policy.service := size];
      } else {
        SeeSmaller(encoding, compiled, seen, largest, sizes, policy);
      }
      seen := seen + {policy};
      left := left - {name};
    }
    assert seen == compiled.policies.Values;
    return true, largest, sizes;
  }

  lemma KeysAgree(
    encoding: Encoding, compiled: Compiled, seen: set<CompiledPolicy>, largest: map<string, Service>, sizes: Sizes)
    requires Largest(encoding, compiled, seen, largest, sizes)
    ensures largest.Keys == sizes.Keys
  {
  }

  lemma NoneSeen(encoding: Encoding, compiled: Compiled)
    ensures Largest(encoding, compiled, {}, map[], map[])
  {
  }

  // ---- the order of the list ----

  /** The services of the map, the largest first. */
  method NamesBySize(sizes: Sizes) returns (names: seq<string>)
    ensures Distinct(names) && (forall name :: name in names <==> name in sizes)
    ensures LargestFirst(names, sizes)
  {
    names := [];
    var left := sizes.Keys;
    while left != {}
      invariant left <= sizes.Keys && Distinct(names)
      invariant forall name :: name in names <==> name in sizes && name !in left
      invariant LargestFirst(names, sizes)
    {
      var name :| name in left;
      names := InsertBySize(name, names, sizes);
      left := left - {name};
    }
  }

  method InsertBySize(name: string, names: seq<string>, sizes: Sizes) returns (longer: seq<string>)
    requires Known(names, sizes) && Distinct(names) && LargestFirst(names, sizes) && name in sizes && name !in names
    ensures forall other :: other in longer <==> other == name || other in names
    ensures Distinct(longer) && LargestFirst(longer, sizes)
  {
    var k := 0;
    while k < |names| && sizes[names[k]] >= sizes[name]
      invariant 0 <= k <= |names|
      invariant forall i :: 0 <= i < k ==> sizes[names[i]] >= sizes[name]
    {
      k := k + 1;
    }
    longer := names[..k] + [name] + names[k..];
    assert names == names[..k] + names[k..];
    InsertedBySize(name, names, k, sizes);
  }

  lemma InsertedBySize(name: string, names: seq<string>, k: nat, sizes: Sizes)
    requires Known(names, sizes) && Distinct(names) && LargestFirst(names, sizes) && name in sizes && name !in names
    requires k <= |names| && (forall i :: 0 <= i < k ==> names[i] in sizes && sizes[names[i]] >= sizes[name])
    requires k < |names| ==> names[k] in sizes && sizes[names[k]] <= sizes[name]
    ensures Known(names[..k] + [name] + names[k..], sizes)
    ensures Distinct(names[..k] + [name] + names[k..]) && LargestFirst(names[..k] + [name] + names[k..], sizes)
  {
    var longer := names[..k] + [name] + names[k..];
    forall i, j | 0 <= i < j < |longer| ensures longer[i] != longer[j] && sizes[longer[i]] >= sizes[longer[j]] {
      var before := if i < k then i else i - 1;
      var after := if j < k then j else j - 1;
      assert i != k ==> longer[i] == names[before] && names[before] in names;
      assert j != k ==> longer[j] == names[after] && names[after] in names;
    }
  }

  // ---- the bound ----

  function Listed(names: seq<string>, largest: map<string, Service>): (services: seq<Service>)
    requires forall name :: name in names ==> name in largest
    ensures |services| == |names|
  {
    seq(|names|, i requires 0 <= i < |names| => assert names[i] in names; largest[names[i]])
  }

  /** Checks, when a configuration is loaded, that no discovery document can outgrow its limit. */
  method ValidateCapabilityManifestBound(encoding: Encoding, compiled: Compiled) returns (ok: bool)
    ensures ok <==> AllProjectable(compiled) && FitsAlways(encoding, compiled)
  {
    hide Largest;
    hide Manifest;
    hide LargestFirst;
    hide AllProjectable;
    hide FitsAlways;
    var largest, sizes;
    ok, largest, sizes := LargestByService(encoding, compiled);
    if !ok {
      return;
    }
    KeysAgree(encoding, compiled, compiled.policies.Values, largest, sizes);
    var names := NamesBySize(sizes);
    var kept := if |names| > MAX_SERVICES then names[..MAX_SERVICES] else names;
    assert forall name :: name in kept ==> name in names;
    var sorted := SortStrings(kept);
    SortKeepsDistinct(kept, sorted);
    var services := Listed(sorted, largest);
    var encoded := Manifest(LONGEST_TIME, LONGEST_TIME, services, encoding.quote);
    ok := |encoded| + 1 <= MAX_BYTES;
    assert kept == First(names, MAX_SERVICES);
    BoundDecides(encoding, compiled, largest, sizes, names, sorted);
  }

  /** The services of the check are the heaviest admissible ones. */
  lemma BoundDecides(
    encoding: Encoding, compiled: Compiled, largest: map<string, Service>, sizes: Sizes,
    names: seq<string>, sorted: seq<string>)
    requires Largest(encoding, compiled, compiled.policies.Values, largest, sizes) && largest.Keys == sizes.Keys
    requires Distinct(names) && (forall name :: name in names <==> name in sizes) && LargestFirst(names, sizes)
    requires Distinct(sorted) && (forall name :: name in sorted <==> name in First(names, MAX_SERVICES))
    requires forall name :: name in sorted ==> name in largest
    ensures |Manifest(LONGEST_TIME, LONGEST_TIME, Listed(sorted, largest), encoding.quote)| + 1 <= MAX_BYTES
            <==> FitsAlways(encoding, compiled)
  {
    hide Manifest;
    hide Largest;
    hide Admissible;
    ListedIsAdmissible(encoding, compiled, largest, sizes, sorted, names);
    forall services | Admissible(encoding, compiled, services)
      ensures |Manifest(LONGEST_TIME, LONGEST_TIME, services, encoding.quote)|
           <= |Manifest(LONGEST_TIME, LONGEST_TIME, Listed(sorted, largest), encoding.quote)|
    {
      NoneIsLonger(encoding, compiled, largest, sizes, names, sorted, services);
    }
  }

  lemma ListedIsAdmissible(
    encoding: Encoding, compiled: Compiled, largest: map<string, Service>, sizes: Sizes,
    sorted: seq<string>, names: seq<string>)
    requires Largest(encoding, compiled, compiled.policies.Values, largest, sizes)
    requires Distinct(sorted) && (forall name :: name in sorted ==> name in largest)
    requires Known(names, sizes) && Distinct(names) && (forall name :: name in sorted <==> name in First(names, MAX_SERVICES))
    ensures Admissible(encoding, compiled, Listed(sorted, largest))
  {
    hide ServiceText;
    var services := Listed(sorted, largest);
    forall i | 0 <= i < |services|
      ensures services[i].name == sorted[i] && Shown(encoding, compiled, services[i])
    {
      assert sorted[i] in sorted;
      var policy :| policy in compiled.policies.Values && IsCandidate(encoding, compiled, policy, sorted[i], largest[sorted[i]]);
      assert Shows(encoding, compiled, policy, LONGEST, services[i]);
    }
    assert Names(services) == sorted;
    assert Known(First(names, MAX_SERVICES), sizes);
    SameNamesSameSum(First(names, MAX_SERVICES), sorted, sizes);
  }

  lemma NoneIsLonger(
    encoding: Encoding, compiled: Compiled, largest: map<string, Service>, sizes: Sizes,
    names: seq<string>, sorted: seq<string>, services: seq<Service>)
    requires Largest(encoding, compiled, compiled.policies.Values, largest, sizes) && largest.Keys == sizes.Keys
    requires Distinct(names) && (forall name :: name in names <==> name in sizes) && LargestFirst(names, sizes)
    requires Distinct(sorted) && (forall name :: name in sorted <==> name in First(names, MAX_SERVICES))
    requires forall name :: name in sorted ==> name in largest
    requires Admissible(encoding, compiled, services)
    ensures |Manifest(LONGEST_TIME, LONGEST_TIME, services, encoding.quote)|
         <= |Manifest(LONGEST_TIME, LONGEST_TIME, Listed(sorted, largest), encoding.quote)|
  {
    hide Manifest;
    hide ServiceTexts;
    hide Listed;
    hide LargestFirst;
    hide Commas;
    hide Weight;
    hide SizedAtMost;
    hide Covered;
    hide Sourced;
    hide Shown;
    hide Sum;
    ShownSizes(encoding, compiled, largest, sizes, services);
    ServicesWeight(services, sizes, encoding.quote);
    NamesListed(encoding, largest, sizes, names, Names(services));
    AnyChoiceIsLighter(Names(services), names, MAX_SERVICES, sizes);
    SameNamesSameSum(First(names, MAX_SERVICES), sorted, sizes);
    ListedWeight(encoding, sorted, largest, sizes);
    CommasGrow(ServiceTexts(services, encoding.quote), ServiceTexts(Listed(sorted, largest), encoding.quote));
    ManifestLength(LONGEST_TIME, LONGEST_TIME, services, encoding.quote);
    ManifestLength(LONGEST_TIME, LONGEST_TIME, Listed(sorted, largest), encoding.quote);
  }

  lemma NamesListed(encoding: Encoding, largest: map<string, Service>, sizes: Sizes, names: seq<string>, list: seq<string>)
    requires Distinct(names) && (forall name :: name in names <==> name in sizes) && Known(list, sizes)
    ensures Known(names, sizes) && (forall name :: name in list ==> name in names)
    ensures Distinct(First(names, MAX_SERVICES)) && Known(First(names, MAX_SERVICES), sizes)
  {
  }

  lemma CommasGrow(a: seq<string>, b: seq<string>)
    requires Weight(a) <= Weight(b)
    ensures |Commas(a)| <= |Commas(b)|
  {
    CommasWeight(a);
    CommasWeight(b);
  }

  /** A service that may be shown is no larger than the largest of its name. */
  lemma ShownSizes(
    encoding: Encoding, compiled: Compiled, largest: map<string, Service>, sizes: Sizes, services: seq<Service>)
    requires Largest(encoding, compiled, compiled.policies.Values, largest, sizes)
    requires forall i :: 0 <= i < |services| ==> Shown(encoding, compiled, services[i])
    ensures forall i :: 0 <= i < |services| ==> SizedAtMost(services[i], sizes, encoding.quote)
  {
    hide SizedAtMost;
    hide Sized;
    hide Sourced;
    forall i | 0 <= i < |services| ensures SizedAtMost(services[i], sizes, encoding.quote) {
      ShownSize(encoding, compiled, largest, sizes, services[i]);
    }
  }

  ghost predicate SizedAtMost(service: Service, sizes: Sizes, quote: string -> string) {
    service.name in sizes && |ServiceText(service, quote)| <= sizes[service.name]
  }

  lemma ShownSize(encoding: Encoding, compiled: Compiled, largest: map<string, Service>, sizes: Sizes, service: Service)
    requires Largest(encoding, compiled, compiled.policies.Values, largest, sizes) && Shown(encoding, compiled, service)
    ensures SizedAtMost(service, sizes, encoding.quote)
  {
    hide ServiceText;
    hide Sized;
    hide Sourced;
    var policy, limits :| Shows(encoding, compiled, policy, limits, service);
    ServiceGrows(service, encoding.quote);
    assert Covered(encoding, compiled, policy, sizes);
  }

  lemma {:induction false} ServicesWeight(services: seq<Service>, sizes: Sizes, quote: string -> string)
    requires forall i :: 0 <= i < |services| ==> SizedAtMost(services[i], sizes, quote)
    ensures Known(Names(services), sizes)
    ensures Weight(ServiceTexts(services, quote)) <= Sum(Names(services), sizes) + |services|
    decreases |services|
  {
    hide ServiceText;
    assert Known(Names(services), sizes);
    if services != [] {
      assert Names(services)[1..] == Names(services[1..]);
      assert ServiceTexts(services, quote)[1..] == ServiceTexts(services[1..], quote);
      ServicesWeight(services[1..], sizes, quote);
    }
  }

  lemma {:induction false} ListedWeight(
    encoding: Encoding, sorted: seq<string>, largest: map<string, Service>, sizes: Sizes)
    requires Sized(encoding, largest, sizes) && forall name :: name in sorted ==> name in largest
    ensures Known(sorted, sizes)
    ensures Weight(ServiceTexts(Listed(sorted, largest), encoding.quote)) == Sum(sorted, sizes) + |sorted|
    decreases |sorted|
  {
    hide ServiceText;
    if sorted != [] {
      var texts := ServiceTexts(Listed(sorted, largest), encoding.quote);
      assert sorted[0] in sorted;
      assert |texts[0]| == sizes[sorted[0]];
      assert Listed(sorted, largest)[1..] == Listed(sorted[1..], largest);
      assert texts[1..] == ServiceTexts(Listed(sorted[1..], largest), encoding.quote);
      ListedWeight(encoding, sorted[1..], largest, sizes);
    }
  }
}
