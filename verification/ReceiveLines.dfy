/** The lines of a receive-pack request: object ids, ref names, updates and capabilities. */
module ReceiveLines {
  import opened Octets
  import opened Text
  import opened PktLine


  // ----- object ids -----

  datatype ObjectFormat = SHA1 | SHA256

  function OidLength(format: ObjectFormat): nat {
    if format.SHA1? then 40 else 64
  }

  function LowerChar(c: char): char {
    if 'A' <= c <= 'Z' then (c as int + 32) as char else c
  }

  function ToLower(s: string): (t: string)
    ensures |t| == |s| && forall i :: 0 <= i < |s| ==> t[i] == LowerChar(s[i])
  {
    seq(|s|, i requires 0 <= i < |s| => LowerChar(s[i]))
  }

  predicate IsOid(value: string, format: ObjectFormat) {
    |value| == OidLength(format) && forall i :: 0 <= i < |value| ==> IsHexDigit(value[i])
  }

  /** An object id in its one canonical spelling. */
  predicate IsCanonicalOid(value: string, format: ObjectFormat) {
    IsOid(value, format) && ToLower(value) == value
  }

  function ParseOid(value: string, format: ObjectFormat): (r: Result<string>)
    ensures r.Ok? <==> IsOid(value, format)
    ensures r.Ok? ==> IsCanonicalOid(r.value, format)
    ensures IsCanonicalOid(value, format) ==> r == Ok(value)
  {
    if IsOid(value, format) then Ok(ToLower(value)) else Err(InvalidProtocol)
  }

  method ParseOidBytes(value: string, format: ObjectFormat) returns (r: Result<string>)
    ensures r == ParseOid(value, format)
  {
    if |value| != OidLength(format) {
      return Err(InvalidProtocol);
    }
    for i := 0 to |value|
      invariant forall k :: 0 <= k < i ==> IsHexDigit(value[k])
    {
      if !IsHexDigit(value[i]) {
        return Err(InvalidProtocol);
      }
    }
    return Ok(ToLower(value));
  }

  predicate IsAnyOid(value: string) {
    IsOid(value, SHA1) || IsOid(value, SHA256)
  }

  predicate AllZero(value: string) {
    forall i :: 0 <= i < |value| ==> value[i] == '0'
  }

  // ----- ref names -----

  predicate RefChar(c: char) {
    c as int >= 0x20 && c as int != 0x7f && c !in " ~^:?*[\\"
  }

  predicate RefComponent(part: string) {
    part != "" && !HasPrefix(part, ".") && !HasSuffix(part, ".lock")
  }

  /** The safety rules of git-check-ref-format for a full ref below refs/. */
  predicate IsRefName(name: string) {
    && HasPrefix(name, "refs/") && |name| != |"refs/"|
    && !HasSuffix(name, "/") && !Includes(name, "//") && !Includes(name, "..") && !Includes(name, "@{")
    && !HasSuffix(name, ".")
    && (forall part :: part in Split(name, '/') ==> RefComponent(part))
    && (forall i :: 0 <= i < |name| ==> RefChar(name[i]))
  }

  // ----- updates -----

  datatype UpdateKind = Create | Modify | Delete

  datatype Update = Update(oldOid: string, newOid: string, ref: string, kind: UpdateKind)

  function KindOf(oldOid: string, newOid: string): Option<UpdateKind> {
    if AllZero(oldOid) && AllZero(newOid) then None
    else if AllZero(oldOid) then Some(Create)
    else if AllZero(newOid) then Some(Delete)
    else Some(Modify)
  }

  /** A well-formed update: canonical ids of the format, a legal ref, and the kind the ids imply. */
  predicate IsUpdate(u: Update, format: ObjectFormat) {
    && IsCanonicalOid(u.oldOid, format) && IsCanonicalOid(u.newOid, format)
    && IsRefName(u.ref) && KindOf(u.oldOid, u.newOid) == Some(u.kind)
  }

  predicate LineBytesOk(line: string) {
    forall i :: 0 <= i < |line| ==> line[i] !in [NUL, '\r', '\n', '\t']
  }

  lemma {:induction false} SplitCount(s: string, c: char)
    ensures |Split(s, c)| == Count(s, c) + 1
    decreases |s|
  {
    var i := IndexOf(s, c);
    if i == |s| {
      CountNone(s, c);
    } else {
      assert s == s[..i] + ([c] + s[i + 1..]);
      CountConcat(s[..i], [c] + s[i + 1..], c);
      CountNone(s[..i], c);
      assert ([c] + s[i + 1..])[1..] == s[i + 1..];
      SplitCount(s[i + 1..], c);
    }
  }

  function ParseUpdate(line: string, format: ObjectFormat, maxRef: nat): (r: Result<Update>)
    ensures r.Ok? ==> IsUpdate(r.value, format) && |r.value.ref| <= maxRef
  {
    if line == "" || !LineBytesOk(line) || Count(line, ' ') != 2 then Err(InvalidProtocol)
    else
      SplitCount(line, ' ');
      var parts := Split(line, ' ');
      var oldOid :- ParseOid(parts[0], format);
      var newOid :- ParseOid(parts[1], format);
      if |parts[2]| == 0 || |parts[2]| > maxRef || !IsRefName(parts[2]) then Err(InvalidRef)
      else
        var kind := KindOf(oldOid, newOid);
        if kind.None? then Err(InvalidProtocol) else Ok(Update(oldOid, newOid, parts[2], kind.value))
  }

  // ----- capabilities -----

  datatype Capabilities = Capabilities(
    tokens: seq<string>, objectFormat: ObjectFormat, atomic: bool, reportStatus: bool, reportStatusV2: bool)

  const NO_CAPABILITIES := Capabilities([], SHA1, false, false, false)

  function NameOf(token: string): string {
    token[..IndexOf(token, '=')]
  }

  predicate HasParameter(token: string) {
    IndexOf(token, '=') < |token|
  }

  function ParameterOf(token: string): string
    requires HasParameter(token)
  {
    token[IndexOf(token, '=') + 1..]
  }

  predicate TokenBytesOk(token: string) {
    forall i :: 0 <= i < |token| ==> 0x21 <= token[i] as int <= 0x7e
  }

  const FLAGS := ["delete-refs", "side-band-64k", "quiet", "atomic", "push-options", "ofs-delta"]

  /** The effect of one capability that has not come before. */
  function AddCapability(caps: Capabilities, token: string): (r: Result<Capabilities>)
    ensures r.Ok? ==> r.value.tokens == caps.tokens + [token]
  {
    var name, parameterized := NameOf(token), HasParameter(token);
    var next := caps.(tokens := caps.tokens + [token]);
    if name == "report-status" then
      if parameterized then Err(InvalidProtocol) else Ok(next.(reportStatus := true))
    else if name == "report-status-v2" then
      if parameterized then Err(InvalidProtocol) else Ok(next.(reportStatusV2 := true))
    else if name in FLAGS then
      if parameterized then Err(InvalidProtocol) else Ok(if name == "atomic" then next.(atomic := true) else next)
    else if name == "push-cert" then
      if parameterized && ParameterOf(token) == "" then Err(InvalidProtocol) else Ok(next)
    else if name == "object-format" then
      if parameterized && ParameterOf(token) == "sha1" then Ok(next.(objectFormat := SHA1))
      else if parameterized && ParameterOf(token) == "sha256" then Ok(next.(objectFormat := SHA256))
      else Err(InvalidProtocol)
    else if name == "agent" || name == "session-id" then
      if !parameterized || ParameterOf(token) == "" then Err(InvalidProtocol) else Ok(next)
    else Err(Unsupported)
  }

  function NamesOf(tokens: seq<string>): set<string> {
    set i | 0 <= i < |tokens| :: NameOf(tokens[i])
  }

  /** The tokens one after the other; a repeated name or a bad byte fails. */
  function ReadTokens(tokens: seq<string>): (r: Result<Capabilities>)
    ensures r.Ok? ==> r.value.tokens == tokens
  {
    if tokens == [] then Ok(NO_CAPABILITIES)
    else
      var front, last := tokens[..|tokens| - 1], tokens[|tokens| - 1];
      var caps :- ReadTokens(front);
      if !TokenBytesOk(last) || NameOf(last) in NamesOf(front) then Err(InvalidProtocol)
      else AddCapability(caps, last)
  }

  /** A capability list without its optional leading space. */
  function WithoutLeadingSpace(value: string): string {
    if value != "" && value[0] == ' ' then value[1..] else value
  }

  function ParseCapabilities(value: string, max: nat): (r: Result<Capabilities>)
    ensures r.Ok? ==> !(r.value.reportStatus && r.value.reportStatusV2)
  {
    if value == "" then Ok(NO_CAPABILITIES)
    else
      var list := WithoutLeadingSpace(value);
      if list == "" || list[0] == ' ' || list[|list| - 1] == ' ' || Includes(list, "  ") then Err(InvalidProtocol)
      else
        var parts := Split(list, ' ');
        if |parts| > max then Err(LimitExceeded)
        else
          var caps :- ReadTokens(parts);
          if caps.reportStatus && caps.reportStatusV2 then Err(InvalidProtocol) else Ok(caps)
  }

  lemma {:induction false} ReadTokensStops(tokens: seq<string>, n: nat)
    requires n <= |tokens| && ReadTokens(tokens[..n]).Err?
    ensures ReadTokens(tokens) == ReadTokens(tokens[..n])
    decreases |tokens|
  {
    if n < |tokens| {
      assert tokens[..|tokens| - 1][..n] == tokens[..n];
      ReadTokensStops(tokens[..|tokens| - 1], n);
    } else {
      assert tokens[..n] == tokens;
    }
  }

  method ReadTokenList(parts: seq<string>) returns (r: Result<Capabilities>)
    ensures r == ReadTokens(parts)
  {
    hide AddCapability;
    hide NameOf;
    hide TokenBytesOk;
    var seen: set<string> := {};
    var caps := NO_CAPABILITIES;
    for i := 0 to |parts|
      invariant seen == NamesOf(parts[..i])
      invariant ReadTokens(parts[..i]) == Ok(caps)
    {
      var token := parts[i];
      assert parts[..i + 1][..i] == parts[..i];
      if !TokenBytesOk(token) || NameOf(token) in seen {
        ReadTokensStops(parts, i + 1);
        return Err(InvalidProtocol);
      }
      seen := seen + {NameOf(token)};
      assert seen == NamesOf(parts[..i + 1]);
      var next := AddCapability(caps, token);
      if next.Err? {
        ReadTokensStops(parts, i + 1);
        return next;
      }
      caps := next.value;
    }
    assert parts[..|parts|] == parts;
    return Ok(caps);
  }

  method ParseCapabilityList(value: string, max: nat) returns (r: Result<Capabilities>)
    ensures r == ParseCapabilities(value, max)
  {
    hide ReadTokens;
    hide Split;
    hide Includes;
    if value == "" {
      return Ok(NO_CAPABILITIES);
    }
    var list := WithoutLeadingSpace(value);
    if list == "" || list[0] == ' ' || list[|list| - 1] == ' ' || Includes(list, "  ") {
      return Err(InvalidProtocol);
    }
    var parts := Split(list, ' ');
    if |parts| > max {
      return Err(LimitExceeded);
    }
    var read := ReadTokenList(parts);
    if read.Err? {
      return read;
    }
    var caps := read.value;
    if caps.reportStatus && caps.reportStatusV2 {
      return Err(InvalidProtocol);
    }
    return Ok(caps);
  }

  predicate HasCapability(tokens: seq<string>, name: string) {
    exists i :: 0 <= i < |tokens| && NameOf(tokens[i]) == name
  }

  // ----- lines -----

  function WithoutNewline(payload: string): string {
    if payload != "" && payload[|payload| - 1] == '\n' then payload[..|payload| - 1] else payload
  }

  function ProtocolLine(payload: string): (r: Result<string>)
    ensures r.Ok? ==> r.value != "" && '\n' !in r.value && '\r' !in r.value
  {
    var line := WithoutNewline(payload);
    if line == "" || '\r' in line || '\n' in line then Err(InvalidProtocol) else Ok(line)
  }
}
