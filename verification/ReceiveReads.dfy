/** Whatever body is accepted is, byte for byte, a way to write the request that was read from it. */
module ReceiveReads {
  import opened Text
  import opened PktLine
  import opened ReceiveLines
  import opened ReceivePack
  import opened ReceiveRoundTrip

  // ----- how a request may be written -----

  /** A payload holds a line, which may end in a newline. */
  predicate Holds(payload: string, line: string) {
    payload == line || payload == line + "\n"
  }

  /** Hexadecimal digits may be upper case. */
  predicate WritesOid(text: string, oid: string) {
    ToLower(text) == oid
  }

  ghost predicate WritesShallow(payload: string, oid: string) {
    exists text :: WritesOid(text, oid) && Holds(payload, "shallow " + text)
  }

  ghost predicate WritesUpdate(line: string, u: Update) {
    exists a, z :: WritesOid(a, u.oldOid) && WritesOid(z, u.newOid) && line == Join([a, z, u.ref], ' ')
  }

  ghost predicate WritesCommand(payload: string, u: Update) {
    exists line :: WritesUpdate(line, u) && Holds(payload, line)
  }

  predicate WritesCapabilities(text: string, tokens: seq<string>) {
    if tokens == [] then text == "" else text == Join(tokens, ' ') || text == " " + Join(tokens, ' ')
  }

  ghost predicate WritesFirstLine(line: string, u: Update, tokens: seq<string>) {
    exists at ::
      && 0 <= at < |line| && line[at] == NUL
      && WritesUpdate(line[..at], u) && WritesCapabilities(line[at + 1..], tokens)
  }

  ghost predicate WritesFirst(payload: string, u: Update, tokens: seq<string>) {
    exists line :: WritesFirstLine(line, u, tokens) && Holds(payload, line)
  }

  ghost predicate WritesShallows(payloads: seq<string>, oids: seq<string>) {
    |payloads| == |oids| && forall i :: 0 <= i < |oids| ==> WritesShallow(payloads[i], oids[i])
  }

  ghost predicate WritesCommands(payloads: seq<string>, updates: seq<Update>) {
    |payloads| == |updates| && forall i :: 0 <= i < |updates| ==> WritesCommand(payloads[i], updates[i])
  }

  predicate WritesOptions(payloads: seq<string>, options: seq<string>) {
    |payloads| == |options| && forall i :: 0 <= i < |options| ==> Holds(payloads[i], options[i])
  }

  // ----- packets -----

  lemma HeaderIsUnique(header: string)
    requires IsHexHeader(header)
    ensures LengthOf(header) < 65536 && header == Header(LengthOf(header))
  {
    var n := LengthOf(header);
    var d0, d1, d2, d3 := LengthDigit(header[0]), LengthDigit(header[1]), LengthDigit(header[2]), LengthDigit(header[3]);
    assert n / 16 == (d0 * 16 + d1) * 16 + d2 && n % 16 == d3;
    assert n / 16 / 16 == d0 * 16 + d1 && n / 16 % 16 == d2;
    assert n / 16 / 16 / 16 == d0 && n / 16 / 16 % 16 == d1;
    forall i | 0 <= i < 4 ensures header[i] == HexChar(LengthDigit(header[i])) {
    }
  }

  lemma PacketIsWritten(data: string, pos: nat, max: nat, packet: Packet, next: nat)
    requires pos <= |data| && PacketAt(data, pos, max) == Ok((packet, next))
    ensures packet.Flush? ==> Spans(data, pos, next, FLUSH)
    ensures packet.Data? ==> |packet.payload| <= MAX_PKT_LINE - 4 && Spans(data, pos, next, Encoded(packet.payload))
  {
    hide IsHexHeader;
    hide LengthOf;
    hide Header;
    var header := data[pos..pos + 4];
    HeaderIsUnique(header);
    ZeroHeader();
    if packet.Data? {
      assert data[pos..next] == header + data[pos + 4..next];
    }
  }

  lemma ZeroHeader()
    ensures Header(0) == FLUSH
  {
  }

  /** The text fills the data between two offsets. */
  predicate Spans(data: string, from: nat, to: nat, text: string) {
    from <= to <= |data| && data[from..to] == text
  }

  lemma Glued(data: string, from: nat, mid: nat, to: nat, first: string, second: string)
    requires Spans(data, from, mid, first) && Spans(data, mid, to, second)
    ensures Spans(data, from, to, first + second)
  {
    assert data[from..to] == data[from..mid] + data[mid..to];
  }

  lemma StreamCons(payload: string, payloads: seq<string>)
    requires Framed(payloads) && |payload| <= MAX_PKT_LINE - 4
    ensures Framed([payload] + payloads)
    ensures Stream([payload] + payloads) == Encoded(payload) + Stream(payloads)
  {
    assert ([payload] + payloads)[1..] == payloads;
  }

  // ----- lines -----

  lemma LineIsHeld(payload: string)
    ensures Holds(payload, WithoutNewline(payload))
  {
    if payload != "" && payload[|payload| - 1] == '\n' {
      assert payload == payload[..|payload| - 1] + "\n";
    }
  }

  lemma OidIsWritten(text: string, format: ObjectFormat)
    requires ParseOid(text, format).Ok?
    ensures WritesOid(text, ParseOid(text, format).value)
  {
  }

  lemma UpdateIsWritten(line: string, format: ObjectFormat, maxRef: nat)
    requires ParseUpdate(line, format, maxRef).Ok?
    ensures WritesUpdate(line, ParseUpdate(line, format, maxRef).value)
  {
    hide IsRefName;
    hide IsOid;
    hide ToLower;
    var u := ParseUpdate(line, format, maxRef).value;
    SplitCount(line, ' ');
    JoinSplit(line, ' ');
    var parts := Split(line, ' ');
    OidIsWritten(parts[0], format);
    OidIsWritten(parts[1], format);
    assert parts == [parts[0], parts[1], u.ref];
    assert WritesOid(parts[0], u.oldOid) && WritesOid(parts[1], u.newOid);
  }

  lemma CapabilitiesAreWritten(text: string, max: nat)
    requires ParseCapabilities(text, max).Ok?
    ensures WritesCapabilities(text, ParseCapabilities(text, max).value.tokens)
  {
    hide ReadTokens;
    hide Includes;
    if text != "" {
      var list := WithoutLeadingSpace(text);
      JoinSplit(list, ' ');
      if text[0] == ' ' {
        assert text == " " + list;
      }
    }
  }

  lemma {:induction false} OidsAreWritten(raw: seq<string>, format: ObjectFormat)
    requires CanonicalOids(raw, format).Ok?
    ensures |CanonicalOids(raw, format).value| == |raw|
    ensures forall i :: 0 <= i < |raw| ==> WritesOid(raw[i], CanonicalOids(raw, format).value[i])
  {
    if raw != [] {
      OidsAreWritten(raw[..|raw| - 1], format);
      OidIsWritten(raw[|raw| - 1], format);
    }
  }

  lemma FirstIsWritten(line: string, raw: seq<string>, opts: Options, req: Request)
    requires CarrierOf(line, raw, opts) == Ok(req)
    ensures |req.updates| == 1 && WritesFirstLine(line, req.updates[0], req.capabilities)
  {
    hide ParseUpdate;
    hide ParseCapabilities;
    hide CanonicalOids;
    hide WritesUpdate;
    hide WritesCapabilities;
    hide Count;
    var at := IndexOf(line, NUL);
    CountNone(line, NUL);
    var caps := ParseCapabilities(line[at + 1..], opts.maxCapabilities).value;
    CapabilitiesAreWritten(line[at + 1..], opts.maxCapabilities);
    UpdateIsWritten(line[..at], caps.objectFormat, opts.maxRef);
  }

  // ----- what capabilities mean -----

  const SHA256_TOKEN := "object-format" + "=" + "sha256"

  /** The flags and the object format are those the tokens name. */
  predicate Means(tokens: seq<string>, format: ObjectFormat, atomic: bool, reportStatus: bool, reportStatusV2: bool) {
    && (atomic <==> "atomic" in tokens)
    && (reportStatus <==> "report-status" in tokens)
    && (reportStatusV2 <==> "report-status-v2" in tokens)
    && (format == SHA256 <==> SHA256_TOKEN in tokens)
  }

  lemma TokenParts(token: string)
    ensures HasParameter(token) ==> token == NameOf(token) + "=" + ParameterOf(token)
    ensures !HasParameter(token) ==> token == NameOf(token)
  {
    hide IndexOf;
  }

  lemma FlagName(flag: string)
    requires '=' !in flag
    ensures NameOf(flag) == flag && !HasParameter(flag)
  {
    hide IndexOf;
  }

  lemma ParameterName(name: string, parameter: string)
    requires '=' !in name
    ensures NameOf(name + "=" + parameter) == name
  {
    hide IndexOf;
    IndexOfFirst(name, '=', parameter);
  }

  /** The effect of one more token on a flag: it is set by its own name and by nothing else. */
  lemma AddMeansFlags(caps: Capabilities, token: string)
    requires AddCapability(caps, token).Ok?
    ensures AddCapability(caps, token).value.atomic == (caps.atomic || token == "atomic")
    ensures AddCapability(caps, token).value.reportStatus == (caps.reportStatus || token == "report-status")
    ensures AddCapability(caps, token).value.reportStatusV2 == (caps.reportStatusV2 || token == "report-status-v2")
  {
    hide NameOf;
    hide HasParameter;
    hide ParameterOf;
    TokenParts(token);
    FlagName("atomic");
    FlagName("report-status");
    FlagName("report-status-v2");
  }

  lemma AddMeansFormat(caps: Capabilities, token: string)
    requires AddCapability(caps, token).Ok?
    ensures NameOf(token) == "object-format" ==> (AddCapability(caps, token).value.objectFormat == SHA256 <==> token == SHA256_TOKEN)
    ensures NameOf(token) != "object-format" ==> AddCapability(caps, token).value.objectFormat == caps.objectFormat
  {
    hide NameOf;
    hide HasParameter;
    hide ParameterOf;
    TokenParts(token);
    ParameterName("object-format", "sha256");
    if NameOf(token) == "object-format" && HasParameter(token) && token == SHA256_TOKEN {
      assert ParameterOf(token) == token[|"object-format" + "="|..];
      assert ParameterOf(token) == "sha256";
    }
  }

  lemma {:induction false} TokensMean(tokens: seq<string>)
    requires ReadTokens(tokens).Ok?
    ensures var caps := ReadTokens(tokens).value;
            Means(tokens, caps.objectFormat, caps.atomic, caps.reportStatus, caps.reportStatusV2)
    decreases |tokens|
  {
    hide AddCapability;
    hide NameOf;
    hide TokenBytesOk;
    hide NamesOf;
    hide Means;
    if tokens == [] {
      NothingMeans();
    } else {
      var front, last := tokens[..|tokens| - 1], tokens[|tokens| - 1];
      TokensMean(front);
      TokenAdded(front, last, ReadTokens(front).value);
      assert tokens == front + [last];
    }
  }

  lemma NothingMeans()
    ensures Means([], SHA1, false, false, false)
  {
  }

  lemma TokenAdded(front: seq<string>, last: string, caps: Capabilities)
    requires Means(front, caps.objectFormat, caps.atomic, caps.reportStatus, caps.reportStatusV2)
    requires NameOf(last) !in NamesOf(front) && AddCapability(caps, last).Ok?
    ensures var next := AddCapability(caps, last).value;
            Means(front + [last], next.objectFormat, next.atomic, next.reportStatus, next.reportStatusV2)
  {
    hide AddCapability;
    hide NameOf;
    hide NamesOf;
    AddMeansFlags(caps, last);
    AddMeansFormat(caps, last);
    ParameterName("object-format", "sha256");
    FreshName(front, last);
    forall token ensures token in front + [last] <==> token in front || token == last {
    }
  }

  lemma FreshName(front: seq<string>, last: string)
    requires NameOf(last) !in NamesOf(front)
    ensures forall token :: token in front ==> NameOf(token) != NameOf(last)
  {
  }

  lemma CapabilitiesMean(text: string, max: nat)
    requires ParseCapabilities(text, max).Ok?
    ensures var caps := ParseCapabilities(text, max).value;
            Means(caps.tokens, caps.objectFormat, caps.atomic, caps.reportStatus, caps.reportStatusV2)
  {
    hide ReadTokens;
    hide Includes;
    hide Split;
    if text != "" {
      TokensMean(Split(WithoutLeadingSpace(text), ' '));
    }
  }

  predicate FlagsMean(req: Request) {
    Means(req.capabilities, req.objectFormat, req.atomic, req.reportStatus, req.reportStatusV2)
  }

  // ----- the body -----

  /** A request once its last packet is read: a pack follows exactly when something is not deleted. */
  function Finished(req: Request): Request {
    req.(hasPack := !AllDeletes(req.updates))
  }

  predicate EndsThere(b: Body, p: Parsed) {
    p.consumed <= |b.data| && (!p.request.hasPack ==> AtEnd(b, p.consumed))
  }

  lemma FinishReads(b: Body, pos: nat, opts: Options, req: Request, p: Parsed)
    requires pos <= |b.data| && !req.hasPack && Finish(b, pos, opts, req) == Ok(p)
    ensures p.request == Finished(req) && EndsThere(b, p) && Spans(b.data, pos, p.consumed, PackText(p.request))
  {
  }

  predicate OptionsWithin(options: seq<string>, opts: Options) {
    |options| <= opts.maxPushOptions && forall o :: o in options ==> |o| <= opts.maxPushOptionBytes
  }

  lemma {:induction false} OptionsRead(b: Body, pos: nat, opts: Options, req: Request, p: Parsed)
    returns (payloads: seq<string>, more: seq<string>)
    requires pos <= |b.data| && !req.hasPack && FromOptions(b, pos, opts, req) == Ok(p)
    requires OptionsWithin(req.pushOptions, opts)
    ensures Framed(payloads) && WritesOptions(payloads, more) && OptionsWithin(req.pushOptions + more, opts)
    ensures p.request == Finished(req.(pushOptions := req.pushOptions + more)) && EndsThere(b, p)
    ensures Spans(b.data, pos, p.consumed, Stream(payloads) + (FLUSH + PackText(p.request)))
    decreases |b.data| - pos
  {
    hide Finished;
    hide PacketAt;
    hide Finish;
    hide Spans;
    hide Stream;
    hide EndsThere;
    hide PackText;
    hide PushOptionOf;
    hide WritesOptions;
    hide OptionsWithin;
    hide Framed;
    hide Encoded;
    hide Holds;
    var (packet, next) := PacketAt(b.data, pos, opts.maxPrefix).value;
    PacketIsWritten(b.data, pos, opts.maxPrefix, packet, next);
    if packet.Flush? {
      payloads, more := [], [];
      FinishReads(b, next, opts, req, p);
      assert req.pushOptions + more == req.pushOptions;
      Glued(b.data, pos, next, p.consumed, FLUSH, PackText(p.request));
      NothingWritten(FLUSH + PackText(p.request));
    } else {
      var option := PushOptionOf(packet.payload, opts).value;
      OptionFits(packet.payload, req.pushOptions, opts);
      var payloads', more' := OptionsRead(b, next, opts, req.(pushOptions := req.pushOptions + [option]), p);
      payloads, more := [packet.payload] + payloads', [option] + more';
      assert req.pushOptions + more == req.pushOptions + [option] + more';
      OptionAdded(packet.payload, payloads', option, more');
      Prepended(b.data, pos, next, p.consumed, packet.payload, payloads', FLUSH + PackText(p.request));
    }
  }

  lemma NothingWritten(rest: string)
    ensures Framed([]) && Stream([]) + rest == rest && WritesOptions([], []) && WritesCommands([], [])
  {
  }

  lemma OptionAdded(payload: string, payloads: seq<string>, option: string, more: seq<string>)
    requires Holds(payload, option) && WritesOptions(payloads, more)
    ensures WritesOptions([payload] + payloads, [option] + more)
  {
  }

  lemma Prepended(data: string, pos: nat, next: nat, end: nat, payload: string, payloads: seq<string>, rest: string)
    requires |payload| <= MAX_PKT_LINE - 4 && Framed(payloads)
    requires Spans(data, pos, next, Encoded(payload)) && Spans(data, next, end, Stream(payloads) + rest)
    ensures Framed([payload] + payloads) && Spans(data, pos, end, Stream([payload] + payloads) + rest)
  {
    hide Spans;
    hide Stream;
    hide Encoded;
    StreamCons(payload, payloads);
    Glued(data, pos, next, end, Encoded(payload), Stream(payloads) + rest);
    assert Encoded(payload) + (Stream(payloads) + rest) == Encoded(payload) + Stream(payloads) + rest;
  }

  lemma OptionFits(payload: string, options: seq<string>, opts: Options)
    requires PushOptionOf(payload, opts).Ok? && OptionsWithin(options, opts) && |options| < opts.maxPushOptions
    ensures Holds(payload, PushOptionOf(payload, opts).value)
    ensures OptionsWithin(options + [PushOptionOf(payload, opts).value], opts)
  {
    LineIsHeld(payload);
  }

  // ----- commands -----

  /** What follows the flush after the commands. */
  function TailText(req: Request, options: seq<string>): string
    requires Framed(options)
  {
    if req.pushOptionsNegotiated then Stream(options) + (FLUSH + PackText(req)) else PackText(req)
  }

  /** The request with its commands complete, given the options read after them. */
  function Completed(req: Request, options: seq<string>): Request {
    Finished(req.(pushOptionsNegotiated := HasCapability(req.capabilities, "push-options"), pushOptions := options))
  }

  /** Read so far: commands only. */
  predicate Commanding(req: Request, opts: Options) {
    && !req.hasPack && req.pushOptions == [] && !req.pushOptionsNegotiated && UpdatesWithin(req.updates, opts)
  }

  /** The first command is read whatever the limit. */
  predicate UpdatesWithin(updates: seq<Update>, opts: Options) {
    (|updates| <= opts.maxCommands || |updates| == 1) && forall u :: u in updates ==> |u.ref| <= opts.maxRef
  }

  lemma TailReads(b: Body, pos: nat, opts: Options, req: Request, p: Parsed) returns (options: seq<string>)
    requires pos <= |b.data| && Commanding(req, opts) && AfterCommands(b, pos, opts, req) == Ok(p)
    ensures Framed(options) && WritesOptions(options, p.request.pushOptions) && OptionsWithin(p.request.pushOptions, opts)
    ensures p.request == Completed(req, p.request.pushOptions) && EndsThere(b, p)
    ensures Spans(b.data, pos, p.consumed, TailText(p.request, options))
  {
    hide FromOptions;
    hide Finish;
    hide Spans;
    hide Stream;
    hide EndsThere;
    hide PackText;
    hide DistinctRefs;
    hide AllDeletes;
    hide HasCapability;
    if HasCapability(req.capabilities, "push-options") {
      var more;
      options, more := OptionsRead(b, pos, opts, req.(pushOptionsNegotiated := true), p);
      assert [] + more == more;
    } else {
      options := [];
      FinishReads(b, pos, opts, req, p);
    }
  }

  lemma CommandIsWritten(payload: string, opts: Options, req: Request)
    requires CommandOf(payload, opts, req).Ok? && UpdatesWithin(req.updates, opts)
    ensures WritesCommand(payload, CommandOf(payload, opts, req).value)
    ensures UpdatesWithin(req.updates + [CommandOf(payload, opts, req).value], opts)
  {
    hide ParseUpdate;
    hide WritesUpdate;
    var line := ProtocolLine(payload).value;
    LineIsHeld(payload);
    UpdateIsWritten(line, req.objectFormat, opts.maxRef);
    assert WritesUpdate(line, CommandOf(payload, opts, req).value);
  }

  lemma CommandAdded(payload: string, payloads: seq<string>, u: Update, more: seq<Update>)
    requires WritesCommand(payload, u) && WritesCommands(payloads, more)
    ensures WritesCommands([payload] + payloads, [u] + more)
  {
    hide WritesCommand;
  }

  lemma {:induction false} CommandsRead(b: Body, pos: nat, opts: Options, req: Request, p: Parsed)
    returns (commands: seq<string>, more: seq<Update>, options: seq<string>)
    requires pos <= |b.data| && Commanding(req, opts) && FromCommands(b, pos, opts, req) == Ok(p)
    ensures Framed(commands) && WritesCommands(commands, more) && UpdatesWithin(req.updates + more, opts)
    ensures Framed(options) && WritesOptions(options, p.request.pushOptions) && OptionsWithin(p.request.pushOptions, opts)
    ensures p.request == Completed(req.(updates := req.updates + more), p.request.pushOptions) && EndsThere(b, p)
    ensures Spans(b.data, pos, p.consumed, Stream(commands) + (FLUSH + TailText(p.request, options)))
    decreases |b.data| - pos
  {
    hide Completed;
    hide PacketAt;
    hide AfterCommands;
    hide CommandOf;
    hide Spans;
    hide Stream;
    hide EndsThere;
    hide TailText;
    hide WritesCommands;
    hide WritesOptions;
    hide OptionsWithin;
    hide UpdatesWithin;
    hide Framed;
    var (packet, next) := PacketAt(b.data, pos, opts.maxPrefix).value;
    PacketIsWritten(b.data, pos, opts.maxPrefix, packet, next);
    if packet.Flush? {
      commands, more := [], [];
      options := TailReads(b, next, opts, req, p);
      assert req.updates + more == req.updates;
      Glued(b.data, pos, next, p.consumed, FLUSH, TailText(p.request, options));
      NothingWritten(FLUSH + TailText(p.request, options));
    } else {
      var u := CommandOf(packet.payload, opts, req).value;
      CommandIsWritten(packet.payload, opts, req);
      var commands', more';
      commands', more', options := CommandsRead(b, next, opts, req.(updates := req.updates + [u]), p);
      commands, more := [packet.payload] + commands', [u] + more';
      assert req.updates + more == req.updates + [u] + more';
      CommandAdded(packet.payload, commands', u, more');
      Prepended(b.data, pos, next, p.consumed, packet.payload, commands', FLUSH + TailText(p.request, options));
    }
  }

  // ----- the whole body -----

  /** The payloads of a push's packets. */
  datatype Script = Script(shallows: seq<string>, first: string, commands: seq<string>, options: seq<string>)

  ghost predicate Writes(script: Script, req: Request) {
    && req.updates != []
    && Framed(script.shallows) && Framed([script.first]) && Framed(script.commands) && Framed(script.options)
    && WritesShallows(script.shallows, req.shallowOids)
    && WritesFirst(script.first, req.updates[0], req.capabilities)
    && WritesCommands(script.commands, req.updates[1..])
    && WritesOptions(script.options, req.pushOptions)
  }

  function TextFromFirst(first: string, commands: seq<string>, options: seq<string>, req: Request): string
    requires Framed([first]) && Framed(commands) && Framed(options)
  {
    assert |[first][0]| <= MAX_PKT_LINE - 4;
    Encoded(first) + (Stream(commands) + (FLUSH + TailText(req, options)))
  }

  /** The bytes of those packets, up to and including the pack signature. */
  function TextOf(script: Script, req: Request): string
    requires Framed(script.shallows) && Framed([script.first]) && Framed(script.commands) && Framed(script.options)
  {
    Stream(script.shallows) + TextFromFirst(script.first, script.commands, script.options, req)
  }

  predicate WithinLimits(req: Request, opts: Options) {
    && UpdatesWithin(req.updates, opts) && OptionsWithin(req.pushOptions, opts)
    && |req.shallowOids| <= opts.maxShallows && |req.capabilities| <= opts.maxCapabilities
  }

  /** Shallow lines as read, before their object format is known. */
  predicate HoldsShallows(payloads: seq<string>, raw: seq<string>) {
    |payloads| == |raw| && forall i :: 0 <= i < |raw| ==> Holds(payloads[i], "shallow " + raw[i])
  }

  lemma ShallowsAreWritten(payloads: seq<string>, raw: seq<string>, format: ObjectFormat)
    requires HoldsShallows(payloads, raw) && CanonicalOids(raw, format).Ok?
    ensures WritesShallows(payloads, CanonicalOids(raw, format).value)
  {
    hide CanonicalOids;
    hide Holds;
    hide WritesOid;
    OidsAreWritten(raw, format);
    var oids := CanonicalOids(raw, format).value;
    forall i | 0 <= i < |oids| ensures WritesShallow(payloads[i], oids[i]) {
      assert WritesOid(raw[i], oids[i]) && Holds(payloads[i], "shallow " + raw[i]);
    }
  }

  lemma ShallowIsHeld(payload: string, raw: seq<string>, opts: Options)
    requires ProtocolLine(payload).Ok? && IsShallowLine(ProtocolLine(payload).value)
    requires ShallowOf(ProtocolLine(payload).value, raw, opts).Ok?
    ensures Holds(payload, "shallow " + ShallowOf(ProtocolLine(payload).value, raw, opts).value)
    ensures |raw| < opts.maxShallows
  {
    var line := ProtocolLine(payload).value;
    LineIsHeld(payload);
    assert line == "shallow " + line[8..];
  }

  lemma CarrierBegins(line: string, raw: seq<string>, opts: Options, req: Request)
    requires CarrierOf(line, raw, opts) == Ok(req)
    ensures Commanding(req, opts) && req.kind == Push && |req.capabilities| <= opts.maxCapabilities
    ensures CanonicalOids(raw, req.objectFormat) == Ok(req.shallowOids) && FlagsMean(req)
  {
    hide CanonicalOids;
    hide ReadTokens;
    hide Split;
    hide Means;
    CountNone(line, NUL);
    CapabilitiesMean(line[IndexOf(line, NUL) + 1..], opts.maxCapabilities);
  }

  lemma FirstReads(b: Body, pos: nat, next: nat, opts: Options, raw: seq<string>, payload: string, req: Request, p: Parsed)
    returns (commands: seq<string>, options: seq<string>)
    requires pos <= next <= |b.data| && |payload| <= MAX_PKT_LINE - 4 && Spans(b.data, pos, next, Encoded(payload))
    requires ProtocolLine(payload).Ok? && CarrierOf(ProtocolLine(payload).value, raw, opts) == Ok(req)
    requires FromCommands(b, next, opts, req) == Ok(p) && |raw| <= opts.maxShallows
    ensures p.request.kind == Push && EndsThere(b, p) && p.request.updates != [] && FlagsMean(p.request)
    ensures Framed([payload]) && Framed(commands) && Framed(options)
    ensures WritesFirst(payload, p.request.updates[0], p.request.capabilities)
    ensures WritesCommands(commands, p.request.updates[1..]) && WritesOptions(options, p.request.pushOptions)
    ensures CanonicalOids(raw, p.request.objectFormat) == Ok(p.request.shallowOids) && WithinLimits(p.request, opts)
    ensures Spans(b.data, pos, p.consumed, TextFromFirst(payload, commands, options, p.request))
  {
    hide FromCommands;
    hide CarrierOf;
    hide CanonicalOids;
    hide ProtocolLine;
    hide Spans;
    hide Stream;
    hide Encoded;
    hide EndsThere;
    hide TailText;
    hide AllDeletes;
    hide HasCapability;
    hide WritesCommands;
    hide WritesOptions;
    hide WritesFirstLine;
    hide UpdatesWithin;
    hide OptionsWithin;
    hide Holds;
    hide Means;
    var line := ProtocolLine(payload).value;
    CarrierBegins(line, raw, opts, req);
    FirstIsWritten(line, raw, opts, req);
    HeldLine(payload);
    var more;
    commands, more, options := CommandsRead(b, next, opts, req, p);
    assert (req.updates + more)[1..] == more;
    assert (req.updates + more)[0] == req.updates[0];
    assert WritesFirstLine(line, p.request.updates[0], p.request.capabilities);
    Glued(b.data, pos, next, p.consumed, Encoded(payload), Stream(commands) + (FLUSH + TailText(p.request, options)));
  }

  lemma HeldLine(payload: string)
    requires ProtocolLine(payload).Ok?
    ensures Holds(payload, ProtocolLine(payload).value)
  {
    LineIsHeld(payload);
  }

  /** A body of shallow lines alone. */
  ghost predicate OnlyShallows(payloads: seq<string>, req: Request) {
    && WritesShallows(payloads, req.shallowOids)
    && req == EMPTY.(kind := req.kind, objectFormat := req.objectFormat, shallowOids := req.shallowOids)
    && (req.kind == Probe <==> req.shallowOids == [])
  }

  lemma NoCarrierReads(b: Body, pos: nat, raw: seq<string>, payloads: seq<string>, p: Parsed)
    requires pos <= |b.data| && WithoutCarrier(b, pos, raw) == Ok(p) && HoldsShallows(payloads, raw)
    ensures p.request.kind != Push && p.consumed == pos && AtEnd(b, pos) && OnlyShallows(payloads, p.request)
  {
    hide CanonicalOids;
    hide Holds;
    hide WritesShallow;
    if raw != [] {
      ShallowsAreWritten(payloads, raw, if |raw[0]| == 40 then SHA1 else SHA256);
    }
  }

  lemma SnocStream(payloads: seq<string>, payload: string)
    requires Framed(payloads) && |payload| <= MAX_PKT_LINE - 4
    ensures Framed(payloads + [payload]) && Stream(payloads + [payload]) == Stream(payloads) + Encoded(payload)
    decreases |payloads|
  {
    hide Encoded;
    if payloads == [] {
      assert [payload][1..] == [];
      assert payloads + [payload] == [payload];
    } else {
      SnocStream(payloads[1..], payload);
      assert (payloads + [payload])[1..] == payloads[1..] + [payload];
    }
  }

  /** The consumed bytes are the request's, written out, and say all that the request holds. */
  ghost predicate Reads(b: Body, opts: Options, p: Parsed) {
    if p.request.kind == Push then
      EndsThere(b, p) && WithinLimits(p.request, opts) && FlagsMean(p.request) && exists script ::
        Writes(script, p.request) && Spans(b.data, 0, p.consumed, TextOf(script, p.request))
    else
      AtEnd(b, p.consumed) && exists payloads ::
        Framed(payloads) && OnlyShallows(payloads, p.request) && Spans(b.data, 0, p.consumed, Stream(payloads) + FLUSH)
  }

  lemma {:induction false} ShallowsRead(b: Body, pos: nat, opts: Options, raw: seq<string>, payloads: seq<string>, p: Parsed)
    requires pos <= |b.data| && FromShallows(b, pos, opts, raw) == Ok(p) && |raw| <= opts.maxShallows
    requires Framed(payloads) && HoldsShallows(payloads, raw) && Spans(b.data, 0, pos, Stream(payloads))
    ensures Reads(b, opts, p)
    decreases |b.data| - pos
  {
    hide Reads;
    hide PacketAt;
    hide FromCommands;
    hide CarrierOf;
    hide WithoutCarrier;
    hide ShallowOf;
    hide IsShallowLine;
    hide ProtocolLine;
    hide Spans;
    hide Stream;
    hide Encoded;
    hide Holds;
    var (packet, next) := PacketAt(b.data, pos, opts.maxPrefix).value;
    PacketIsWritten(b.data, pos, opts.maxPrefix, packet, next);
    if packet.Flush? {
      FlushReads(b, pos, next, opts, raw, payloads, p);
    } else {
      var line := ProtocolLine(packet.payload).value;
      if IsShallowLine(line) {
        var oid := ShallowOf(line, raw, opts).value;
        ShallowIsHeld(packet.payload, raw, opts);
        SnocStream(payloads, packet.payload);
        Glued(b.data, 0, pos, next, Stream(payloads), Encoded(packet.payload));
        ShallowsRead(b, next, opts, raw + [oid], payloads + [packet.payload], p);
      } else {
        PushReads(b, pos, next, opts, raw, payloads, packet.payload, CarrierOf(line, raw, opts).value, p);
      }
    }
  }

  lemma FlushReads(b: Body, pos: nat, next: nat, opts: Options, raw: seq<string>, payloads: seq<string>, p: Parsed)
    requires pos <= next <= |b.data| && Spans(b.data, pos, next, FLUSH) && WithoutCarrier(b, next, raw) == Ok(p)
    requires Framed(payloads) && HoldsShallows(payloads, raw) && Spans(b.data, 0, pos, Stream(payloads))
    ensures Reads(b, opts, p)
  {
    hide WithoutCarrier;
    hide HoldsShallows;
    hide Spans;
    hide Stream;
    hide OnlyShallows;
    NoCarrierReads(b, next, raw, payloads, p);
    Glued(b.data, 0, pos, next, Stream(payloads), FLUSH);
  }

  lemma PushReads(b: Body, pos: nat, next: nat, opts: Options, raw: seq<string>, payloads: seq<string>, payload: string,
                  req: Request, p: Parsed)
    requires pos <= next <= |b.data| && |payload| <= MAX_PKT_LINE - 4 && Spans(b.data, pos, next, Encoded(payload))
    requires ProtocolLine(payload).Ok? && CarrierOf(ProtocolLine(payload).value, raw, opts) == Ok(req)
    requires FromCommands(b, next, opts, req) == Ok(p) && |raw| <= opts.maxShallows
    requires Framed(payloads) && HoldsShallows(payloads, raw) && Spans(b.data, 0, pos, Stream(payloads))
    ensures Reads(b, opts, p)
  {
    hide FromCommands;
    hide CarrierOf;
    hide CanonicalOids;
    hide ProtocolLine;
    hide HoldsShallows;
    hide Spans;
    hide Stream;
    hide Encoded;
    hide EndsThere;
    hide TextFromFirst;
    hide FlagsMean;
    hide WithinLimits;
    hide WritesShallows;
    hide WritesFirst;
    hide WritesCommands;
    hide WritesOptions;
    hide Framed;
    var commands, options := FirstReads(b, pos, next, opts, raw, payload, req, p);
    ShallowsAreWritten(payloads, raw, p.request.objectFormat);
    var script := Script(payloads, payload, commands, options);
    Glued(b.data, 0, pos, p.consumed, Stream(payloads), TextFromFirst(payload, commands, options, p.request));
    assert Writes(script, p.request) && Spans(b.data, 0, p.consumed, TextOf(script, p.request));
  }

  /**
   Whatever is accepted was written: the consumed bytes are the packets of the request that was read, nothing is
   left over when no pack follows, and all of it is within the limits.
   */
  lemma AcceptedIsWritten(b: Body, opts: Options, p: Parsed)
    requires Parse(b, opts) == Ok(p)
    ensures Reads(b, opts, p)
  {
    hide FromShallows;
    hide Reads;
    NothingWritten("");
    ShallowsRead(b, 0, opts, [], [], p);
  }

  // ----- reference names as paths -----

  lemma {:induction false} LastPart(s: string, t: string, c: char)
    requires c !in t
    ensures exists part :: part in Split(s + t, c) && HasSuffix(part, t)
    decreases |s|
  {
    hide HasSuffix;
    hide IndexOf;
    if c in s {
      var i := IndexOf(s, c);
      var before, after := s[..i], s[i + 1..];
      assert s + t == before + [c] + (after + t);
      SplitHead(before, c, after + t);
      LastPart(after, t, c);
      var part :| part in Split(after + t, c) && HasSuffix(part, t);
      assert part in Split(s + t, c);
    } else {
      SuffixOf(s, t);
      JoinUnsplit(s + t, c);
      assert IndexOf(s + t, c) == |s + t|;
      assert (s + t) in Split(s + t, c);
    }
  }

  lemma SuffixOf(s: string, t: string)
    ensures HasSuffix(s + t, t)
  {
  }

  /** A reference is a path that never climbs, and its lock file's name is never a reference. */
  lemma RefIsSafePath(name: string)
    requires IsRefName(name)
    ensures forall part :: part in Split(name, '/') ==> part != "" && part != "." && part != ".."
    ensures !IsRefName(name + ".lock")
  {
    forall part | part in Split(name, '/') ensures part != "" && part != "." && part != ".." {
      assert RefComponent(part);
    }
    LastPart(name, ".lock", '/');
    var part :| part in Split(name + ".lock", '/') && HasSuffix(part, ".lock");
    assert !RefComponent(part);
  }
}
