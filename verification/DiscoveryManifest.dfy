/** The discovery manifest of a token's grants, and why it always fits. */
module DiscoveryManifest {
  import opened Octets
  import opened Tokens
  import opened ManifestText
  import opened Ordering
  import opened Discovery

  /** The lines of the manifest, in the order of the grants. */
  function Lines(encoding: Encoding, compiled: Compiled, grants: seq<Grant>): seq<Service> {
    if grants == [] then []
    else
      var last := |grants| - 1;
      var before := Lines(encoding, compiled, grants[..last]);
      var line := ServiceFor(encoding, compiled, grants[last]);
      if line.Some? then before + [line.value] else before
  }

  ghost predicate NamesIncrease(services: seq<Service>) {
    forall i, j :: 0 <= i < j < |services| ==>
                     StringLe(services[i].name, services[j].name) && services[i].name != services[j].name
  }

  lemma {:induction false} LinesOfGrants(encoding: Encoding, compiled: Compiled, grants: seq<Grant>)
    ensures forall s :: s in Lines(encoding, compiled, grants) ==>
                          exists i :: 0 <= i < |grants| && ServiceFor(encoding, compiled, grants[i]) == Some(s)
    decreases |grants|
  {
    hide ServiceFor;
    if grants != [] {
      LinesOfGrants(encoding, compiled, grants[..|grants| - 1]);
      var before := Lines(encoding, compiled, grants[..|grants| - 1]);
      forall s | s in Lines(encoding, compiled, grants)
        ensures exists i :: 0 <= i < |grants| && ServiceFor(encoding, compiled, grants[i]) == Some(s)
      {
        if s in before {
          var i :| 0 <= i < |grants| - 1 && ServiceFor(encoding, compiled, grants[..|grants| - 1][i]) == Some(s);
          assert ServiceFor(encoding, compiled, grants[i]) == Some(s);
        } else {
          assert ServiceFor(encoding, compiled, grants[|grants| - 1]) == Some(s);
        }
      }
    }
  }

  /** The line is the public side of the grant's service, under the policy, with the grant's own limits. */
  predicate Describes(encoding: Encoding, compiled: Compiled, grant: Grant, policy: CompiledPolicy, line: Service) {
    && grant.service in compiled.capabilityServices
    && var public := compiled.capabilityServices[grant.service];
    && line.name == grant.service && line.limits == grant.limits && line.summary == policy.summary
    && line.adapter == public.adapter && line.host == public.host
    && line.baseUrl == public.baseUrl && line.pathPrefix == public.pathPrefix
    && line.header == encoding.canonicalHeader(public.clientHeader) && line.prefix == public.clientPrefix
    && (if policy.adapter == SSH_SESSION then policy.ssh.Some? && line.ssh == policy.ssh else line.ssh == None)
  }

  ghost predicate Entitles(encoding: Encoding, compiled: Compiled, grant: Grant, line: Service) {
    exists policy :: Current(compiled, grant, policy) && Describes(encoding, compiled, grant, policy, line)
  }

  lemma LineDescribes(encoding: Encoding, compiled: Compiled, grant: Grant, line: Service)
    ensures ServiceFor(encoding, compiled, grant) == Some(line) <==> Entitles(encoding, compiled, grant, line)
  {
    var policy := ResolveGrant(compiled, grant);
    if policy.Some? {
      assert Current(compiled, grant, policy.value);
    }
  }

  /** The manifest lists exactly the grants that are current, each by what its service and policy show. */
  lemma {:induction false} LinesTell(encoding: Encoding, compiled: Compiled, grants: seq<Grant>, line: Service)
    ensures line in Lines(encoding, compiled, grants)
            <==> exists i :: 0 <= i < |grants| && Entitles(encoding, compiled, grants[i], line)
    decreases |grants|
  {
    hide ServiceFor;
    hide Entitles;
    if grants != [] {
      var last := |grants| - 1;
      var front := grants[..last];
      LinesTell(encoding, compiled, front, line);
      LineDescribes(encoding, compiled, grants[last], line);
      assert forall i :: 0 <= i < last ==> front[i] == grants[i];
    }
  }

  /** Nothing of the credential or of a revision shows: grants of one service and policy give one line. */
  lemma RevisionsDoNotShow(encoding: Encoding, compiled: Compiled, a: Grant, b: Grant, policy: CompiledPolicy)
    requires a.service == b.service && a.limits == b.limits
    requires Current(compiled, a, policy) && Current(compiled, b, policy)
    ensures ServiceFor(encoding, compiled, a) == ServiceFor(encoding, compiled, b)
  {
    assert ResolveGrant(compiled, a) == Some(policy) && ResolveGrant(compiled, b) == Some(policy);
  }

  lemma LineIsNamed(encoding: Encoding, compiled: Compiled, grant: Grant)
    ensures ServiceFor(encoding, compiled, grant).Some? ==>
              ServiceFor(encoding, compiled, grant).value.name == grant.service
  {
  }

  lemma {:induction false} LinesAreDistinct(encoding: Encoding, compiled: Compiled, grants: seq<Grant>)
    requires OnePerService(grants)
    ensures Distinct(Names(Lines(encoding, compiled, grants)))
    decreases |grants|
  {
    hide ServiceFor;
    if grants != [] {
      var last := |grants| - 1;
      var before := Lines(encoding, compiled, grants[..last]);
      LinesAreDistinct(encoding, compiled, grants[..last]);
      LinesOfGrants(encoding, compiled, grants[..last]);
      LineIsNamed(encoding, compiled, grants[last]);
      forall i | 0 <= i < |before| ensures before[i].name != grants[last].service {
        assert before[i] in before;
        var k :| 0 <= k < last && ServiceFor(encoding, compiled, grants[..last][k]) == Some(before[i]);
        LineIsNamed(encoding, compiled, grants[k]);
      }
      DistinctSnoc(before, ServiceFor(encoding, compiled, grants[last]), grants[last].service);
    }
  }

  lemma DistinctSnoc(before: seq<Service>, line: Option<Service>, name: string)
    requires Distinct(Names(before)) && (line.Some? ==> line.value.name == name)
    requires forall i :: 0 <= i < |before| ==> before[i].name != name
    ensures line.Some? ==> Distinct(Names(before + [line.value]))
  {
    if line.Some? {
      assert Names(before + [line.value]) == Names(before) + [name];
    }
  }

  method SortByName(services: seq<Service>) returns (sorted: seq<Service>)
    requires Distinct(Names(services))
    ensures NamesIncrease(sorted) && multiset(sorted) == multiset(services)
  {
    sorted := [];
    var i := 0;
    while i < |services|
      invariant 0 <= i <= |services|
      invariant NamesIncrease(sorted) && multiset(sorted) == multiset(services[..i])
    {
      assert services[..i + 1] == services[..i] + [services[i]];
      forall s | s in sorted ensures s.name != services[i].name {
        assert s in multiset(services[..i]);
        var k :| 0 <= k < i && services[..i][k] == s;
        assert Names(services)[k] == s.name && Names(services)[i] == services[i].name;
      }
      sorted := InsertByName(services[i], sorted);
      i := i + 1;
    }
    assert services[..i] == services;
  }

  method InsertByName(x: Service, services: seq<Service>) returns (longer: seq<Service>)
    requires NamesIncrease(services) && forall s :: s in services ==> s.name != x.name
    ensures NamesIncrease(longer) && multiset(longer) == multiset{x} + multiset(services)
  {
    var k := 0;
    while k < |services| && StringLe(services[k].name, x.name)
      invariant 0 <= k <= |services|
      invariant forall i :: 0 <= i < k ==> StringLe(services[i].name, x.name)
    {
      k := k + 1;
    }
    longer := services[..k] + [x] + services[k..];
    assert services == services[..k] + services[k..];
    InsertedByName(x, services, k);
  }

  lemma InsertedByName(x: Service, services: seq<Service>, k: nat)
    requires NamesIncrease(services) && (forall s :: s in services ==> s.name != x.name) && k <= |services|
    requires forall i :: 0 <= i < k ==> StringLe(services[i].name, x.name)
    requires k < |services| ==> !StringLe(services[k].name, x.name)
    ensures NamesIncrease(services[..k] + [x] + services[k..])
  {
    var longer := services[..k] + [x] + services[k..];
    forall i | k <= i < |services| ensures StringLe(x.name, services[i].name) {
      StringLeTotal(services[k].name, x.name);
      if i > k {
        StringLeTransitive(x.name, services[k].name, services[i].name);
      }
    }
    forall i, j | 0 <= i < j < |longer|
      ensures StringLe(longer[i].name, longer[j].name) && longer[i].name != longer[j].name
    {
      var before := if i < k then i else i - 1;
      var after := if j < k then j else j - 1;
      assert i != k ==> longer[i] == services[before] && services[before] in services;
      assert j != k ==> longer[j] == services[after] && services[after] in services;
    }
  }

  /** Why a manifest is refused: a service granted twice, too many services, or one that may not be shown. */
  ghost predicate Buildable(encoding: Encoding, compiled: Compiled, grants: seq<Grant>, acceptable: Service -> bool) {
    && OnePerService(grants)
    && |Lines(encoding, compiled, grants)| <= MAX_SERVICES
    && forall s :: s in Lines(encoding, compiled, grants) ==> acceptable(s)
  }

  /** The manifest's services: those of the grants that still resolve, in order of name. */
  method Build(encoding: Encoding, compiled: Compiled, grants: seq<Grant>, acceptable: Service -> bool)
    returns (services: Option<seq<Service>>)
    ensures services.Some? <==> Buildable(encoding, compiled, grants, acceptable)
    ensures services.Some? ==> NamesIncrease(services.value)
    ensures services.Some? ==> multiset(services.value) == multiset(Lines(encoding, compiled, grants))
  {
    hide ServiceFor;
    var seen: set<string> := {};
    var lines: seq<Service> := [];
    var i := 0;
    while i < |grants|
      invariant 0 <= i <= |grants|
      invariant OnePerService(grants[..i])
      invariant seen == set k | 0 <= k < i :: grants[k].service
      invariant lines == Lines(encoding, compiled, grants[..i])
    {
      var grant := grants[i];
      if grant.service in seen {
        return None;
      }
      seen := seen + {grant.service};
      var line := ServiceFor(encoding, compiled, grant);
      assert grants[..i + 1][..i] == grants[..i];
      if line.Some? {
        lines := lines + [line.value];
      }
      i := i + 1;
    }
    assert grants[..i] == grants;
    LinesAreDistinct(encoding, compiled, grants);
    var sorted := SortByName(lines);
    SameLength(sorted, lines);
    if |sorted| > MAX_SERVICES {
      return None;
    }
    var ok := AllAcceptable(sorted, acceptable);
    if !ok {
      return None;
    }
    return Some(sorted);
  }

  lemma SameLength(a: seq<Service>, b: seq<Service>)
    requires multiset(a) == multiset(b)
    ensures |a| == |b| && forall s :: s in a <==> s in b
  {
    assert |multiset(a)| == |a| && |multiset(b)| == |b|;
    forall s ensures s in a <==> s in b {
      assert s in multiset(a) <==> s in multiset(b);
    }
  }

  method AllAcceptable(services: seq<Service>, acceptable: Service -> bool) returns (ok: bool)
    ensures ok <==> forall s :: s in services ==> acceptable(s)
  {
    for i := 0 to |services|
      invariant forall j :: 0 <= j < i ==> acceptable(services[j])
    {
      if !acceptable(services[i]) {
        assert services[i] in services;
        return false;
      }
    }
    return true;
  }

  // ---- it fits ----

  lemma BuiltIsAdmissible(encoding: Encoding, compiled: Compiled, grants: seq<Grant>, services: seq<Service>)
    requires WellFormed(compiled)
    requires NamesIncrease(services) && multiset(services) == multiset(Lines(encoding, compiled, grants))
    requires |Lines(encoding, compiled, grants)| <= MAX_SERVICES
    ensures Admissible(encoding, compiled, services)
  {
    var lines := Lines(encoding, compiled, grants);
    SameLength(services, lines);
    LinesOfGrants(encoding, compiled, grants);
    forall i | 0 <= i < |services| ensures Shown(encoding, compiled, services[i]) {
      assert services[i] in services;
      var k :| 0 <= k < |grants| && ServiceFor(encoding, compiled, grants[k]) == Some(services[i]);
      var policy := ResolveGrant(compiled, grants[k]).value;
      assert Shows(encoding, compiled, policy, grants[k].limits, services[i]);
    }
  }

  /** Under a configuration that was accepted, the manifest of any grants, built at any time, is within its limit:
      the refusal for size is never taken. */
  lemma DiscoveryAlwaysFits(
    encoding: Encoding, compiled: Compiled, grants: seq<Grant>, services: seq<Service>, generated: string, expires: string)
    requires WellFormed(compiled) && FitsAlways(encoding, compiled)
    requires NamesIncrease(services) && multiset(services) == multiset(Lines(encoding, compiled, grants))
    requires |Lines(encoding, compiled, grants)| <= MAX_SERVICES
    requires |generated| <= |LONGEST_TIME| && |expires| <= |LONGEST_TIME|
    ensures |Manifest(generated, expires, services, encoding.quote)| + 1 <= MAX_BYTES
  {
    hide Manifest;
    hide Admissible;
    hide Lines;
    BuiltIsAdmissible(encoding, compiled, grants, services);
    ManifestLength(generated, expires, services, encoding.quote);
    ManifestLength(LONGEST_TIME, LONGEST_TIME, services, encoding.quote);
  }
}
