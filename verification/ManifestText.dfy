/** The text of the discovery manifest and how long it gets. */
module ManifestText {
  import opened Octets
  import opened Text
  import opened Tokens

  datatype Ssh = Ssh(allowShell: bool, allowExec: bool, allowPty: bool, maxSessionDuration: string)

  datatype Service = Service(
    name: string, adapter: string, baseUrl: string, pathPrefix: string, host: string,
    header: string, prefix: string, ssh: Option<Ssh>, summary: string, limits: Limits)

  const LONGEST := Limits(MAX_UINT64, MAX_UINT64, MAX_UINT64, MAX_UINT64, MAX_UINT64)

  function Decimal(n: nat): (text: string)
    ensures |text| > 0
  {
    if n < 10 then [('0' as nat + n) as char] else Decimal(n / 10) + [('0' as nat + n % 10) as char]
  }

  lemma {:induction false} DecimalGrows(n: nat, m: nat)
    requires n <= m
    ensures |Decimal(n)| <= |Decimal(m)|
    decreases m
  {
    if n >= 10 {
      DecimalGrows(n / 10, m / 10);
    }
  }

  function Commas(parts: seq<string>): string {
    if parts == [] then "" else Join(parts, ',')
  }

  function Object(members: seq<string>): string {
    "{" + Commas(members) + "}"
  }

  function Member(key: string, value: string): string {
    ['"'] + key + ['"', ':'] + value
  }

  /** A member that is left out when it is empty. */
  function MemberUnlessEmpty(key: string, value: string, quote: string -> string): seq<string> {
    if value == "" then [] else [Member(key, quote(value))]
  }

  function MemberUnlessZero(key: string, value: nat): seq<string> {
    if value == 0 then [] else [Member(key, Decimal(value))]
  }

  function LimitMembers(limits: Limits): seq<string> {
    MemberUnlessZero("requests_per_second", limits.requestsPerSecond)
    + MemberUnlessZero("burst", limits.burst)
    + MemberUnlessZero("request_budget", limits.requestBudget)
    + MemberUnlessZero("byte_budget", limits.byteBudget)
    + MemberUnlessZero("max_request_bytes", limits.maxRequestBytes)
  }

  function Bool(b: bool): string {
    if b then "true" else "false"
  }

  function SshMembers(ssh: Option<Ssh>, quote: string -> string): seq<string> {
    if ssh.None? then []
    else [Member("ssh", Object([
                                 Member("allow_shell", Bool(ssh.value.allowShell)),
                                 Member("allow_exec", Bool(ssh.value.allowExec)),
                                 Member("allow_pty", Bool(ssh.value.allowPty)),
                                 Member("max_session_duration", quote(ssh.value.maxSessionDuration))]))]
  }

  function FixedMembers(s: Service, quote: string -> string): seq<string> {
    [Member("name", quote(s.name)), Member("adapter", quote(s.adapter))]
    + MemberUnlessEmpty("base_url", s.baseUrl, quote)
    + MemberUnlessEmpty("path_prefix", s.pathPrefix, quote)
    + MemberUnlessEmpty("host", s.host, quote)
    + [Member("auth", Object([Member("header", quote(s.header))] + MemberUnlessEmpty("prefix", s.prefix, quote)))]
    + SshMembers(s.ssh, quote)
    + MemberUnlessEmpty("capability_summary", s.summary, quote)
  }

  function ServiceText(s: Service, quote: string -> string): string {
    Object(FixedMembers(s, quote) + [Member("configured_limits", Object(LimitMembers(s.limits)))])
  }

  function ServiceTexts(services: seq<Service>, quote: string -> string): (texts: seq<string>)
    ensures |texts| == |services|
  {
    seq(|services|, i requires 0 <= i < |services| => ServiceText(services[i], quote))
  }

  /** The whole document; times are texts of section 5.6 of RFC 3339, already quoted. */
  function Manifest(generated: string, expires: string, services: seq<Service>, quote: string -> string): string {
    Object([
             Member("version", "1"),
             Member("generated_at", generated),
             Member("expires_at", expires),
             Member("services", "[" + Commas(ServiceTexts(services, quote)) + "]")])
  }

  // ---- lengths ----

  /** Lengths added up, each with one more for a comma. */
  function Weight(parts: seq<string>): nat {
    if parts == [] then 0 else |parts[0]| + 1 + Weight(parts[1..])
  }

  lemma {:induction false} WeightConcat(a: seq<string>, b: seq<string>)
    ensures Weight(a + b) == Weight(a) + Weight(b)
    decreases |a|
  {
    if a == [] {
      assert a + b == b;
    } else {
      assert (a + b)[1..] == a[1..] + b;
      WeightConcat(a[1..], b);
    }
  }

  lemma {:induction false} CommasWeight(parts: seq<string>)
    ensures |Commas(parts)| == if parts == [] then 0 else Weight(parts) - 1
    decreases |parts|
  {
    if |parts| > 1 {
      CommasWeight(parts[1..]);
    } else if |parts| == 1 {
      assert parts[1..] == [];
    }
  }

  lemma ObjectGrows(a: seq<string>, b: seq<string>)
    requires Weight(a) <= Weight(b) && b != []
    ensures |Object(a)| <= |Object(b)|
  {
    CommasWeight(a);
    CommasWeight(b);
  }

  lemma MemberGrows(key: string, value: uint64)
    ensures Weight(MemberUnlessZero(key, value)) <= Weight(MemberUnlessZero(key, MAX_UINT64))
  {
    DecimalGrows(value, MAX_UINT64);
  }

  lemma LimitMembersWeight(limits: Limits)
    ensures Weight(LimitMembers(limits)) ==
              Weight(MemberUnlessZero("requests_per_second", limits.requestsPerSecond))
              + Weight(MemberUnlessZero("burst", limits.burst))
              + Weight(MemberUnlessZero("request_budget", limits.requestBudget))
              + Weight(MemberUnlessZero("byte_budget", limits.byteBudget))
              + Weight(MemberUnlessZero("max_request_bytes", limits.maxRequestBytes))
  {
    hide Weight;
    hide MemberUnlessZero;
    var a, b := MemberUnlessZero("requests_per_second", limits.requestsPerSecond), MemberUnlessZero("burst", limits.burst);
    var c, d := MemberUnlessZero("request_budget", limits.requestBudget), MemberUnlessZero("byte_budget", limits.byteBudget);
    var e := MemberUnlessZero("max_request_bytes", limits.maxRequestBytes);
    WeightConcat(a, b);
    WeightConcat(a + b, c);
    WeightConcat(a + b + c, d);
    WeightConcat(a + b + c + d, e);
  }

  /** No limits are written longer than the largest ones. */
  lemma LimitsGrow(limits: Limits)
    ensures |Object(LimitMembers(limits))| <= |Object(LimitMembers(LONGEST))|
  {
    hide Object;
    hide Weight;
    LimitMembersWeight(limits);
    LimitMembersWeight(LONGEST);
    MemberGrows("requests_per_second", limits.requestsPerSecond);
    MemberGrows("burst", limits.burst);
    MemberGrows("request_budget", limits.requestBudget);
    MemberGrows("byte_budget", limits.byteBudget);
    MemberGrows("max_request_bytes", limits.maxRequestBytes);
    LongestIsNotEmpty();
    ObjectGrows(LimitMembers(limits), LimitMembers(LONGEST));
  }

  lemma LongestIsNotEmpty()
    ensures LimitMembers(LONGEST) != []
  {
    assert |MemberUnlessZero("burst", LONGEST.burst)| == 1;
  }

  lemma ServiceGrows(s: Service, quote: string -> string)
    ensures |ServiceText(s, quote)| <= |ServiceText(s.(limits := LONGEST), quote)|
  {
    hide LimitMembers;
    hide FixedMembers;
    hide Object;
    var fixed := FixedMembers(s, quote);
    SameFixed(s, quote);
    var short := [Member("configured_limits", Object(LimitMembers(s.limits)))];
    var long := [Member("configured_limits", Object(LimitMembers(LONGEST)))];
    LimitsGrow(s.limits);
    assert short[1..] == [] && long[1..] == [];
    WeightConcat(fixed, short);
    WeightConcat(fixed, long);
    ObjectGrows(fixed + short, fixed + long);
  }

  lemma SameFixed(s: Service, quote: string -> string)
    ensures FixedMembers(s.(limits := LONGEST), quote) == FixedMembers(s, quote)
  {
  }

  /** The document is as long as its services weigh, beside what does not depend on them. */
  lemma ManifestLength(generated: string, expires: string, services: seq<Service>, quote: string -> string)
    ensures |Manifest(generated, expires, services, quote)|
         == |Manifest("", "", [], quote)| + |generated| + |expires| + |Commas(ServiceTexts(services, quote))|
  {
    hide ServiceTexts;
    var list := "[" + Commas(ServiceTexts(services, quote)) + "]";
    MembersLength(Member("generated_at", generated), Member("expires_at", expires), Member("services", list));
    MembersLength(Member("generated_at", ""), Member("expires_at", ""), Member("services", "[]"));
    assert ServiceTexts([], quote) == [];
    assert "[" + Commas([]) + "]" == "[]";
  }

  lemma MembersLength(a: string, b: string, c: string)
    ensures |Object([Member("version", "1"), a, b, c])| == |Member("version", "1")| + |a| + |b| + |c| + 5
  {
    hide Member;
    var v := Member("version", "1");
    CommasWeight([v, a, b, c]);
    assert [v, a, b, c][1..] == [a, b, c] && [a, b, c][1..] == [b, c] && [b, c][1..] == [c] && [c][1..] == [];
    assert Weight([c]) == |c| + 1;
    assert Weight([b, c]) == |b| + 1 + Weight([c]);
    assert Weight([a, b, c]) == |a| + 1 + Weight([b, c]);
  }
}
