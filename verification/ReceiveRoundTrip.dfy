/** Encoding any valid unsigned push and parsing it gives it back, with exactly that prefix. */
module ReceiveRoundTrip {
  import opened Text
  import opened PktLine
  import opened ReceiveLines
  import opened ReceivePack

  /** Clients may end lines with a newline, and may put a space before the capabilities. */
  datatype Style = Style(newline: bool, leadingSpace: bool)

  function EndLine(line: string, style: Style): string {
    if style.newline then line + "\n" else line
  }

  function UpdateText(u: Update): string {
    Join([u.oldOid, u.newOid, u.ref], ' ')
  }

  function CapabilityText(tokens: seq<string>, style: Style): string {
    if tokens == [] then ""
    else if style.leadingSpace then " " + Join(tokens, ' ')
    else Join(tokens, ' ')
  }

  function FirstLine(req: Request, style: Style): string
    requires req.updates != []
  {
    UpdateText(req.updates[0]) + [NUL] + CapabilityText(req.capabilities, style)
  }

  predicate Framed(payloads: seq<string>) {
    forall i :: 0 <= i < |payloads| ==> |payloads[i]| <= MAX_PKT_LINE - 4
  }

  function Stream(payloads: seq<string>): string
    requires Framed(payloads)
  {
    if payloads == [] then "" else Encoded(payloads[0]) + Stream(payloads[1..])
  }

  function ShallowLines(oids: seq<string>, style: Style): seq<string> {
    seq(|oids|, i requires 0 <= i < |oids| => EndLine("shallow " + oids[i], style))
  }

  function CommandLines(updates: seq<Update>, style: Style): seq<string> {
    seq(|updates|, i requires 0 <= i < |updates| => EndLine(UpdateText(updates[i]), style))
  }

  function OptionLines(options: seq<string>, style: Style): seq<string> {
    seq(|options|, i requires 0 <= i < |options| => EndLine(options[i], style))
  }

  // ----- lines -----

  lemma LineReadsBack(line: string, style: Style)
    requires line != "" && '\n' !in line && '\r' !in line
    ensures ProtocolLine(EndLine(line, style)) == Ok(line)
    ensures WithoutNewline(EndLine(line, style)) == line
  {
    if style.newline {
      assert (line + "\n")[..|line|] == line;
    } else {
      assert line[|line| - 1] in line;
    }
  }

  lemma OidHasNo(oid: string, format: ObjectFormat, c: char)
    requires IsOid(oid, format) && !IsHexDigit(c)
    ensures c !in oid
  {
  }

  lemma RefHasNo(name: string, c: char)
    requires IsRefName(name) && !RefChar(c)
    ensures c !in name
  {
  }

  lemma UpdateTextHasNo(u: Update, format: ObjectFormat, c: char)
    requires IsUpdate(u, format) && !IsHexDigit(c) && !RefChar(c) && c != ' '
    ensures c !in UpdateText(u)
  {
    var parts := [u.oldOid, u.newOid, u.ref];
    OidHasNo(u.oldOid, format, c);
    OidHasNo(u.newOid, format, c);
    RefHasNo(u.ref, c);
    JoinMembers(parts, ' ', c);
  }

  lemma UpdateTextShape(u: Update, format: ObjectFormat)
    requires IsUpdate(u, format)
    ensures Split(UpdateText(u), ' ') == [u.oldOid, u.newOid, u.ref]
    ensures Count(UpdateText(u), ' ') == 2
    ensures |UpdateText(u)| > 80 && IsHexDigit(UpdateText(u)[0])
  {
    hide IsRefName;
    hide Count;
    hide Split;
    OidHasNo(u.oldOid, format, ' ');
    OidHasNo(u.newOid, format, ' ');
    RefHasNo(u.ref, ' ');
    var parts := [u.oldOid, u.newOid, u.ref];
    SplitJoin(parts, ' ');
    SplitCount(UpdateText(u), ' ');
    JoinCons(u.oldOid, [u.newOid, u.ref], ' ');
    JoinCons(u.newOid, [u.ref], ' ');
    assert [u.oldOid] + [u.newOid, u.ref] == parts && [u.newOid] + [u.ref] == [u.newOid, u.ref];
  }

  lemma UpdateTextBytes(u: Update, format: ObjectFormat)
    requires IsUpdate(u, format)
    ensures LineBytesOk(UpdateText(u))
    ensures '\n' !in UpdateText(u) && '\r' !in UpdateText(u) && NUL !in UpdateText(u)
  {
    hide IsUpdate;
    hide UpdateText;
    UpdateTextHasNo(u, format, NUL);
    UpdateTextHasNo(u, format, '\r');
    UpdateTextHasNo(u, format, '\n');
    UpdateTextHasNo(u, format, '\t');
  }

  lemma UpdateReadsBack(u: Update, format: ObjectFormat, maxRef: nat)
    requires IsUpdate(u, format) && |u.ref| <= maxRef
    ensures ParseUpdate(UpdateText(u), format, maxRef) == Ok(u)
  {
    hide IsRefName;
    hide Count;
    hide Split;
    hide UpdateText;
    hide LineBytesOk;
    UpdateTextShape(u, format);
    UpdateTextBytes(u, format);
    RefNotEmpty(u.ref);
  }

  lemma RefNotEmpty(name: string)
    requires IsRefName(name)
    ensures name != ""
  {
  }

  // ----- capabilities -----

  lemma LeadingSpaceSplits(s: string)
    requires s == "" || s[0] == ' '
    ensures "" in Split(s, ' ')
  {
    assert IndexOf(s, ' ') == 0;
    assert Split(s, ' ')[0] == "";
  }

  lemma {:induction false} TrailingSpaceSplits(s: string)
    requires s != "" && s[|s| - 1] == ' '
    ensures "" in Split(s, ' ')
    decreases |s|
  {
    hide Split;
    var i := IndexOf(s, ' ');
    var rest := s[i + 1..];
    SplitUnfolds(s, ' ');
    if rest == "" {
      LeadingSpaceSplits(rest);
    } else {
      assert rest[|rest| - 1] == s[|s| - 1];
      TrailingSpaceSplits(rest);
    }
  }

  lemma {:induction false} DoubleSpaceSplits(s: string, k: nat)
    requires k + 1 < |s| && s[k] == ' ' && s[k + 1] == ' '
    ensures "" in Split(s, ' ')
    decreases |s|
  {
    hide Split;
    var i := IndexOf(s, ' ');
    IndexOfAtMost(s, ' ', k);
    var rest := s[i + 1..];
    SplitUnfolds(s, ' ');
    if i == k {
      LeadingSpaceSplits(rest);
    } else {
      assert rest[k - i - 1] == s[k] && rest[k - i] == s[k + 1];
      DoubleSpaceSplits(rest, k - i - 1);
    }
  }

  /** A list that starts or ends with a space, or has two in a row, splits into an empty part. */
  lemma BadListHasEmptyPart(s: string)
    ensures s == "" || s[0] == ' ' || s[|s| - 1] == ' ' || Includes(s, "  ") ==> "" in Split(s, ' ')
  {
    hide Split;
    if s == "" || s[0] == ' ' {
      LeadingSpaceSplits(s);
    } else if s[|s| - 1] == ' ' {
      TrailingSpaceSplits(s);
    } else if Includes(s, "  ") {
      var k :| 0 <= k <= |s| && HasPrefix(s[k..], "  ");
      assert s[k] == s[k..][..2][0] && s[k + 1] == s[k..][..2][1];
      DoubleSpaceSplits(s, k);
    }
  }

  lemma EmptyTokenFails(caps: Capabilities)
    ensures AddCapability(caps, "").Err?
  {
    assert NameOf("") == "";
  }

  lemma {:induction false} TokensAreWords(tokens: seq<string>)
    requires ReadTokens(tokens).Ok?
    ensures forall t :: t in tokens ==> t != "" && TokenBytesOk(t)
    decreases |tokens|
  {
    hide AddCapability;
    if tokens != [] {
      var front, last := tokens[..|tokens| - 1], tokens[|tokens| - 1];
      TokensAreWords(front);
      EmptyTokenFails(ReadTokens(front).value);
      assert tokens == front + [last];
    }
  }

  predicate CapabilitiesFit(req: Request, opts: Options) {
    && |req.capabilities| <= opts.maxCapabilities
    && ReadTokens(req.capabilities)
       == Ok(Capabilities(req.capabilities, req.objectFormat, req.atomic, req.reportStatus, req.reportStatusV2))
    && !(req.reportStatus && req.reportStatusV2)
  }

  lemma CapabilityListSplits(tokens: seq<string>, style: Style)
    requires tokens != [] && ReadTokens(tokens).Ok?
    ensures var list := WithoutLeadingSpace(CapabilityText(tokens, style));
            && list == Join(tokens, ' ') && Split(list, ' ') == tokens
            && list != "" && list[0] != ' ' && list[|list| - 1] != ' ' && !Includes(list, "  ")
    ensures CapabilityText(tokens, style) != ""
  {
    hide ReadTokens;
    hide Split;
    hide Includes;
    TokensAreWords(tokens);
    forall t | t in tokens ensures ' ' !in t {
      assert TokenBytesOk(t);
    }
    SplitJoin(tokens, ' ');
    BadListHasEmptyPart(Join(tokens, ' '));
  }

  lemma CapabilityTextBytes(tokens: seq<string>, style: Style)
    requires ReadTokens(tokens).Ok?
    ensures forall c :: c in CapabilityText(tokens, style) ==> 0x20 <= c as int <= 0x7e
  {
    hide ReadTokens;
    TokensAreWords(tokens);
    if tokens != [] {
      forall c | c in CapabilityText(tokens, style) ensures 0x20 <= c as int <= 0x7e {
        JoinMembers(tokens, ' ', c);
        assert forall t :: t in tokens && c in t ==> TokenBytesOk(t);
      }
    }
  }

  lemma CapabilitiesReadBack(req: Request, opts: Options, style: Style)
    requires CapabilitiesFit(req, opts)
    ensures ParseCapabilities(CapabilityText(req.capabilities, style), opts.maxCapabilities)
         == Ok(Capabilities(req.capabilities, req.objectFormat, req.atomic, req.reportStatus, req.reportStatusV2))
  {
    hide AddCapability;
    hide Split;
    hide Includes;
    hide WithoutLeadingSpace;
    if req.capabilities != [] {
      CapabilityListSplits(req.capabilities, style);
    }
  }

  // ----- the first line -----

  lemma FirstLineShape(req: Request, opts: Options, style: Style)
    requires req.updates != [] && IsUpdate(req.updates[0], req.objectFormat) && CapabilitiesFit(req, opts)
    ensures var line, text := FirstLine(req, style), UpdateText(req.updates[0]);
            && Count(line, NUL) == 1 && IndexOf(line, NUL) == |text|
            && line[..|text|] == text && line[|text| + 1..] == CapabilityText(req.capabilities, style)
            && |text| > 80 && line != "" && '\n' !in line && '\r' !in line && !IsShallowLine(line)
  {
    hide UpdateText;
    hide CapabilityText;
    hide ReadTokens;
    hide IsUpdate;
    var text, caps := UpdateText(req.updates[0]), CapabilityText(req.capabilities, style);
    UpdateTextShape(req.updates[0], req.objectFormat);
    UpdateTextBytes(req.updates[0], req.objectFormat);
    CapabilityTextBytes(req.capabilities, style);
    IndexOfFirst(text, NUL, caps);
    assert NUL !in caps;
    CountConcat(text + [NUL], caps, NUL);
    CountConcat(text, [NUL], NUL);
    CountNone(text, NUL);
    CountNone(caps, NUL);
    assert Count([NUL], NUL) == 1;
    assert FirstLine(req, style)[0] == text[0];
  }

  lemma {:induction false} CanonicalOidsReadBack(oids: seq<string>, format: ObjectFormat)
    requires forall oid :: oid in oids ==> IsCanonicalOid(oid, format)
    ensures CanonicalOids(oids, format) == Ok(oids)
    decreases |oids|
  {
    hide IsCanonicalOid;
    if oids != [] {
      CanonicalOidsReadBack(oids[..|oids| - 1], format);
      assert oids == oids[..|oids| - 1] + [oids[|oids| - 1]];
    }
  }

  /** The request as it stands after the first command. */
  function Begun(req: Request): Request
    requires req.updates != []
  {
    EMPTY.(objectFormat := req.objectFormat, updates := [req.updates[0]], shallowOids := req.shallowOids,
           capabilities := req.capabilities, atomic := req.atomic,
           reportStatus := req.reportStatus, reportStatusV2 := req.reportStatusV2)
  }

  lemma FirstLineReadsBack(req: Request, opts: Options, style: Style)
    requires req.updates != [] && IsUpdate(req.updates[0], req.objectFormat) && CapabilitiesFit(req, opts)
    requires |req.updates[0].ref| <= opts.maxRef
    requires forall oid :: oid in req.shallowOids ==> IsCanonicalOid(oid, req.objectFormat)
    ensures CarrierOf(FirstLine(req, style), req.shallowOids, opts) == Ok(Begun(req))
  {
    hide FirstLine;
    hide UpdateText;
    hide CapabilityText;
    hide ReadTokens;
    hide ParseCapabilities;
    hide ParseUpdate;
    hide IsUpdate;
    hide IsCanonicalOid;
    hide CanonicalOids;
    FirstLineShape(req, opts, style);
    CapabilitiesReadBack(req, opts, style);
    CanonicalOidsReadBack(req.shallowOids, req.objectFormat);
    UpdateReadsBack(req.updates[0], req.objectFormat, opts.maxRef);
  }

  // ----- streams of packets -----

  /** The first packet of a stream is read, and the rest of the stream stands after it. */
  lemma StreamHead(data: string, pos: nat, payloads: seq<string>, max: nat)
    requires Framed(payloads) && payloads != [] && At(data, pos, Stream(payloads)) && pos + |Stream(payloads)| <= max
    ensures PacketAt(data, pos, max) == Ok((Data(payloads[0]), pos + |payloads[0]| + 4))
    ensures At(data, pos + |payloads[0]| + 4, Stream(payloads[1..]))
    ensures |Stream(payloads)| == |payloads[0]| + 4 + |Stream(payloads[1..])|
  {
    hide PacketAt;
    hide At;
    hide Encoded;
    AtSplits(data, pos, Encoded(payloads[0]), Stream(payloads[1..]));
    EncodedReadsBack(data, pos, payloads[0], max);
  }

  lemma StreamEmpty()
    ensures Stream([]) == ""
  {
  }

  lemma ShallowStep(b: Body, pos: nat, opts: Options, raw: seq<string>, payload: string, next: nat, line: string)
    requires pos <= |b.data| && PacketAt(b.data, pos, opts.maxPrefix) == Ok((Data(payload), next))
    requires ProtocolLine(payload) == Ok(line) && IsShallowLine(line) && ShallowOf(line, raw, opts).Ok?
    ensures FromShallows(b, pos, opts, raw) == FromShallows(b, next, opts, raw + [ShallowOf(line, raw, opts).value])
  {
  }

  lemma CommandStep(b: Body, pos: nat, opts: Options, req: Request, payload: string, next: nat)
    requires pos <= |b.data| && PacketAt(b.data, pos, opts.maxPrefix) == Ok((Data(payload), next))
    requires CommandOf(payload, opts, req).Ok?
    ensures FromCommands(b, pos, opts, req)
         == FromCommands(b, next, opts, req.(updates := req.updates + [CommandOf(payload, opts, req).value]))
  {
  }

  lemma OptionStep(b: Body, pos: nat, opts: Options, req: Request, payload: string, next: nat)
    requires pos <= |b.data| && PacketAt(b.data, pos, opts.maxPrefix) == Ok((Data(payload), next))
    requires |req.pushOptions| < opts.maxPushOptions && PushOptionOf(payload, opts).Ok?
    ensures FromOptions(b, pos, opts, req)
         == FromOptions(b, next, opts, req.(pushOptions := req.pushOptions + [PushOptionOf(payload, opts).value]))
  {
  }

  lemma {:induction false} ShallowsReadBack(b: Body, pos: nat, oids: seq<string>, opts: Options, raw: seq<string>,
                                            style: Style, format: ObjectFormat)
    requires Framed(ShallowLines(oids, style)) && At(b.data, pos, Stream(ShallowLines(oids, style)))
    requires pos + |Stream(ShallowLines(oids, style))| <= opts.maxPrefix
    requires |raw| + |oids| <= opts.maxShallows && forall oid :: oid in oids ==> IsCanonicalOid(oid, format)
    ensures FromShallows(b, pos, opts, raw)
         == FromShallows(b, pos + |Stream(ShallowLines(oids, style))|, opts, raw + oids)
    decreases |oids|
  {
    hide PacketAt;
    hide ProtocolLine;
    hide FromShallows;
    hide IsCanonicalOid;
    hide ShallowOf;
    hide Stream;
    hide EndLine;
    var lines := ShallowLines(oids, style);
    if oids == [] {
      StreamEmpty();
      assert raw + oids == raw;
    } else {
      StreamHead(b.data, pos, lines, opts.maxPrefix);
      assert lines[1..] == ShallowLines(oids[1..], style);
      ShallowLineReadsBack(oids[0], raw, opts, style, format);
      ShallowStep(b, pos, opts, raw, lines[0], pos + |lines[0]| + 4, "shallow " + oids[0]);
      ShallowsReadBack(b, pos + |lines[0]| + 4, oids[1..], opts, raw + [oids[0]], style, format);
      assert raw + oids == raw + [oids[0]] + oids[1..];
    }
  }

  lemma ShallowLineReadsBack(oid: string, raw: seq<string>, opts: Options, style: Style, format: ObjectFormat)
    requires IsCanonicalOid(oid, format) && |raw| < opts.maxShallows
    ensures var line := "shallow " + oid;
            ProtocolLine(EndLine(line, style)) == Ok(line) && IsShallowLine(line) && ShallowOf(line, raw, opts) == Ok(oid)
  {
    OidHasNo(oid, format, '\n');
    OidHasNo(oid, format, '\r');
    LineReadsBack("shallow " + oid, style);
    assert ("shallow " + oid)[8..] == oid;
  }

  lemma {:induction false} CommandsReadBack(b: Body, pos: nat, updates: seq<Update>, opts: Options, req: Request,
                                            style: Style)
    requires Framed(CommandLines(updates, style)) && At(b.data, pos, Stream(CommandLines(updates, style)))
    requires pos + |Stream(CommandLines(updates, style))| <= opts.maxPrefix
    requires |req.updates| + |updates| <= opts.maxCommands
    requires forall u :: u in updates ==> IsUpdate(u, req.objectFormat) && |u.ref| <= opts.maxRef
    ensures FromCommands(b, pos, opts, req)
         == FromCommands(b, pos + |Stream(CommandLines(updates, style))|, opts, req.(updates := req.updates + updates))
    decreases |updates|
  {
    hide PacketAt;
    hide CommandOf;
    hide FromCommands;
    hide IsUpdate;
    hide Stream;
    hide EndLine;
    hide UpdateText;
    var lines := CommandLines(updates, style);
    if updates == [] {
      StreamEmpty();
      assert req.updates + updates == req.updates;
    } else {
      StreamHead(b.data, pos, lines, opts.maxPrefix);
      assert lines[1..] == CommandLines(updates[1..], style);
      CommandReadsBack(updates[0], opts, req, style);
      CommandStep(b, pos, opts, req, lines[0], pos + |lines[0]| + 4);
      CommandsReadBack(b, pos + |lines[0]| + 4, updates[1..], opts, req.(updates := req.updates + [updates[0]]), style);
      assert req.updates + updates == req.updates + [updates[0]] + updates[1..];
    }
  }

  lemma CommandReadsBack(u: Update, opts: Options, req: Request, style: Style)
    requires IsUpdate(u, req.objectFormat) && |u.ref| <= opts.maxRef && |req.updates| < opts.maxCommands
    ensures CommandOf(EndLine(UpdateText(u), style), opts, req) == Ok(u)
  {
    hide UpdateText;
    hide ParseUpdate;
    hide IsUpdate;
    hide EndLine;
    hide ProtocolLine;
    UpdateTextShape(u, req.objectFormat);
    UpdateTextBytes(u, req.objectFormat);
    LineReadsBack(UpdateText(u), style);
    UpdateReadsBack(u, req.objectFormat, opts.maxRef);
  }

  lemma {:induction false} OptionsReadBack(b: Body, pos: nat, options: seq<string>, opts: Options, req: Request,
                                           style: Style)
    requires Framed(OptionLines(options, style)) && At(b.data, pos, Stream(OptionLines(options, style)))
    requires pos + |Stream(OptionLines(options, style))| <= opts.maxPrefix
    requires |req.pushOptions| + |options| <= opts.maxPushOptions
    requires forall o :: o in options ==> o != "" && Printable(o) && |o| <= opts.maxPushOptionBytes
    ensures FromOptions(b, pos, opts, req)
         == FromOptions(b, pos + |Stream(OptionLines(options, style))|, opts,
                        req.(pushOptions := req.pushOptions + options))
    decreases |options|
  {
    hide PacketAt;
    hide PushOptionOf;
    hide FromOptions;
    hide Printable;
    hide Stream;
    hide EndLine;
    var lines := OptionLines(options, style);
    if options == [] {
      StreamEmpty();
      assert req.pushOptions + options == req.pushOptions;
    } else {
      StreamHead(b.data, pos, lines, opts.maxPrefix);
      assert lines[1..] == OptionLines(options[1..], style);
      OptionReadsBack(options[0], opts, style);
      OptionStep(b, pos, opts, req, lines[0], pos + |lines[0]| + 4);
      OptionsReadBack(b, pos + |lines[0]| + 4, options[1..], opts,
                      req.(pushOptions := req.pushOptions + [options[0]]), style);
      assert req.pushOptions + options == req.pushOptions + [options[0]] + options[1..];
    }
  }

  lemma OptionReadsBack(option: string, opts: Options, style: Style)
    requires option != "" && Printable(option) && |option| <= opts.maxPushOptionBytes
    ensures PushOptionOf(EndLine(option, style), opts) == Ok(option)
  {
    LineReadsBack(option, style) by {
      assert forall c :: c in option ==> 0x20 <= c as int <= 0x7e;
    }
  }

  // ----- whole requests -----

  function PackText(req: Request): string {
    if req.hasPack then "PACK" else ""
  }

  function FromFlush(req: Request, style: Style): string
    requires Framed(OptionLines(req.pushOptions, style))
  {
    if req.pushOptionsNegotiated then Stream(OptionLines(req.pushOptions, style)) + (FLUSH + PackText(req))
    else PackText(req)
  }

  function FromSecond(req: Request, style: Style): string
    requires req.updates != [] && Framed(CommandLines(req.updates[1..], style)) && Framed(OptionLines(req.pushOptions, style))
  {
    Stream(CommandLines(req.updates[1..], style)) + (FLUSH + FromFlush(req, style))
  }

  predicate Encodable(req: Request, style: Style) {
    && req.updates != []
    && Framed(ShallowLines(req.shallowOids, style)) && Framed([EndLine(FirstLine(req, style), style)])
    && Framed(CommandLines(req.updates[1..], style)) && Framed(OptionLines(req.pushOptions, style))
  }

  /** The bytes of a push up to and including the pack signature. */
  function Encode(req: Request, style: Style): string
    requires Encodable(req, style)
  {
    Stream(ShallowLines(req.shallowOids, style))
    + (Stream([EndLine(FirstLine(req, style), style)]) + FromSecond(req, style))
  }

  /** A valid push that keeps within the parser's limits. */
  predicate Fits(req: Request, opts: Options, style: Style) {
    && GoodPush(req) && CapabilitiesFit(req, opts) && Encodable(req, style)
    && |req.updates| <= opts.maxCommands && |req.shallowOids| <= opts.maxShallows
    && |req.pushOptions| <= opts.maxPushOptions
    && (forall o :: o in req.pushOptions ==> |o| <= opts.maxPushOptionBytes)
    && (forall u :: u in req.updates ==> |u.ref| <= opts.maxRef)
    && |Encode(req, style)| <= opts.maxPrefix
  }

  /** The end of the prefix in the body, and of the body itself when there is no pack. */
  predicate EndsRight(b: Body, req: Request, end: nat) {
    !req.hasPack ==> AtEnd(b, end)
  }

  lemma PackReadsBack(b: Body, pos: nat, opts: Options, req: Request)
    requires GoodPush(req) && At(b.data, pos, PackText(req)) && pos + |PackText(req)| <= opts.maxPrefix
    requires EndsRight(b, req, pos + |PackText(req)|)
    ensures Finish(b, pos, opts, req.(hasPack := false)) == Ok(Parsed(req, pos + |PackText(req)|))
  {
  }

  function Unoptioned(req: Request): Request {
    req.(pushOptions := [], pushOptionsNegotiated := false, hasPack := false)
  }

  predicate OptionsFit(req: Request, opts: Options, style: Style) {
    && Framed(OptionLines(req.pushOptions, style)) && |req.pushOptions| <= opts.maxPushOptions
    && forall o :: o in req.pushOptions ==> o != "" && Printable(o) && |o| <= opts.maxPushOptionBytes
  }

  lemma OptionLinesReadBack(b: Body, pos: nat, opts: Options, req: Request, style: Style)
    requires OptionsFit(req, opts, style) && req.pushOptionsNegotiated
    requires At(b.data, pos, Stream(OptionLines(req.pushOptions, style)))
    requires pos + |Stream(OptionLines(req.pushOptions, style))| <= opts.maxPrefix
    ensures FromOptions(b, pos, opts, Unoptioned(req).(pushOptionsNegotiated := true))
         == FromOptions(b, pos + |Stream(OptionLines(req.pushOptions, style))|, opts, req.(hasPack := false))
  {
    hide FromOptions;
    hide Stream;
    hide At;
    hide Printable;
    var bare := Unoptioned(req).(pushOptionsNegotiated := true);
    OptionsReadBack(b, pos, req.pushOptions, opts, bare, style);
    assert bare.pushOptions + req.pushOptions == req.pushOptions;
  }

  lemma OptionPacketsReadBack(b: Body, pos: nat, opts: Options, req: Request, style: Style)
    requires GoodPush(req) && OptionsFit(req, opts, style) && req.pushOptionsNegotiated
    requires At(b.data, pos, FromFlush(req, style)) && pos + |FromFlush(req, style)| <= opts.maxPrefix
    requires EndsRight(b, req, pos + |FromFlush(req, style)|)
    ensures FromOptions(b, pos, opts, Unoptioned(req).(pushOptionsNegotiated := true))
         == Ok(Parsed(req, pos + |FromFlush(req, style)|))
  {
    hide GoodPush;
    hide PacketAt;
    hide Finish;
    hide FromOptions;
    hide Stream;
    hide PackText;
    hide At;
    hide Printable;
    hide EndsRight;
    var options, pack := Stream(OptionLines(req.pushOptions, style)), PackText(req);
    AtSplits(b.data, pos, options, FLUSH + pack);
    AtSplits(b.data, pos + |options|, FLUSH, pack);
    OptionLinesReadBack(b, pos, opts, req, style);
    FlushReadsBack(b.data, pos + |options|, opts.maxPrefix);
    OptionsFlush(b, pos + |options|, opts, req.(hasPack := false));
    PackReadsBack(b, pos + |options| + 4, opts, req);
  }

  lemma FromFlushReadsBack(b: Body, pos: nat, opts: Options, req: Request, style: Style)
    requires GoodPush(req) && OptionsFit(req, opts, style)
    requires At(b.data, pos, FromFlush(req, style)) && pos + |FromFlush(req, style)| <= opts.maxPrefix
    requires EndsRight(b, req, pos + |FromFlush(req, style)|)
    ensures AfterCommands(b, pos, opts, Unoptioned(req)) == Ok(Parsed(req, pos + |FromFlush(req, style)|))
  {
    hide Finish;
    hide FromOptions;
    hide Stream;
    hide IsUpdate;
    hide IsCanonicalOid;
    hide HasCapability;
    hide DistinctRefs;
    hide Printable;
    hide OptionsFit;
    if req.pushOptionsNegotiated {
      OptionPacketsReadBack(b, pos, opts, req, style);
    } else {
      assert Unoptioned(req) == req.(hasPack := false);
      PackReadsBack(b, pos, opts, req);
    }
  }

  lemma OptionsFlush(b: Body, pos: nat, opts: Options, req: Request)
    requires pos <= |b.data| && PacketAt(b.data, pos, opts.maxPrefix) == Ok((Flush, pos + 4))
    ensures FromOptions(b, pos, opts, req) == Finish(b, pos + 4, opts, req)
  {
  }

  lemma CommandsFlush(b: Body, pos: nat, opts: Options, req: Request)
    requires pos <= |b.data| && PacketAt(b.data, pos, opts.maxPrefix) == Ok((Flush, pos + 4))
    ensures FromCommands(b, pos, opts, req) == AfterCommands(b, pos + 4, opts, req)
  {
  }

  predicate CommandsFit(req: Request, opts: Options, style: Style) {
    && req.updates != [] && Framed(CommandLines(req.updates[1..], style)) && |req.updates| <= opts.maxCommands
    && forall u :: u in req.updates ==> IsUpdate(u, req.objectFormat) && |u.ref| <= opts.maxRef
  }

  lemma BegunContinues(req: Request)
    requires req.updates != [] && req.kind == Push && !req.signed
    ensures Begun(req).(updates := Begun(req).updates + req.updates[1..]) == Unoptioned(req)
  {
    assert [req.updates[0]] + req.updates[1..] == req.updates;
  }

  lemma FromSecondReadsBack(b: Body, pos: nat, opts: Options, req: Request, style: Style)
    requires req.kind == Push && !req.signed && Framed(OptionLines(req.pushOptions, style))
    requires GoodPush(req) && CommandsFit(req, opts, style) && OptionsFit(req, opts, style)
    requires At(b.data, pos, FromSecond(req, style)) && pos + |FromSecond(req, style)| <= opts.maxPrefix
    requires EndsRight(b, req, pos + |FromSecond(req, style)|)
    ensures FromCommands(b, pos, opts, Begun(req)) == Ok(Parsed(req, pos + |FromSecond(req, style)|))
  {
    hide GoodPush;
    hide PacketAt;
    hide AfterCommands;
    hide FromCommands;
    hide Stream;
    hide FromFlush;
    hide IsUpdate;
    hide At;
    hide Unoptioned;
    hide OptionsFit;
    hide EndLine;
    hide UpdateText;
    var rest := req.updates[1..];
    var commands, tail := Stream(CommandLines(rest, style)), FromFlush(req, style);
    AtSplits(b.data, pos, commands, FLUSH + tail);
    AtSplits(b.data, pos + |commands|, FLUSH, tail);
    CommandsReadBack(b, pos, rest, opts, Begun(req), style);
    BegunContinues(req);
    FlushReadsBack(b.data, pos + |commands|, opts.maxPrefix);
    CommandsFlush(b, pos + |commands|, opts, Unoptioned(req));
    FromFlushReadsBack(b, pos + |commands| + 4, opts, req, style);
  }

  lemma CarrierStep(b: Body, pos: nat, opts: Options, raw: seq<string>, payload: string, next: nat, line: string)
    requires pos <= |b.data| && PacketAt(b.data, pos, opts.maxPrefix) == Ok((Data(payload), next))
    requires ProtocolLine(payload) == Ok(line) && !IsShallowLine(line) && CarrierOf(line, raw, opts).Ok?
    ensures FromShallows(b, pos, opts, raw) == FromCommands(b, next, opts, CarrierOf(line, raw, opts).value)
  {
  }

  lemma FirstReadsBack(b: Body, pos: nat, opts: Options, req: Request, style: Style)
    requires req.updates != [] && IsUpdate(req.updates[0], req.objectFormat) && |req.updates[0].ref| <= opts.maxRef
    requires CapabilitiesFit(req, opts) && forall oid :: oid in req.shallowOids ==> IsCanonicalOid(oid, req.objectFormat)
    requires Framed([EndLine(FirstLine(req, style), style)])
    requires At(b.data, pos, Stream([EndLine(FirstLine(req, style), style)]))
    requires pos + |Stream([EndLine(FirstLine(req, style), style)])| <= opts.maxPrefix
    ensures FromShallows(b, pos, opts, req.shallowOids)
         == FromCommands(b, pos + |Stream([EndLine(FirstLine(req, style), style)])|, opts, Begun(req))
  {
    hide PacketAt;
    hide FromShallows;
    hide FromCommands;
    hide Stream;
    hide CarrierOf;
    hide ProtocolLine;
    hide EndLine;
    hide FirstLine;
    hide UpdateText;
    hide CapabilityText;
    hide Count;
    hide IsUpdate;
    hide IsCanonicalOid;
    hide CapabilitiesFit;
    var line, payload := FirstLine(req, style), EndLine(FirstLine(req, style), style);
    StreamHead(b.data, pos, [payload], opts.maxPrefix);
    StreamEmpty();
    assert [payload][1..] == [];
    FirstLineShape(req, opts, style);
    LineReadsBack(line, style);
    FirstLineReadsBack(req, opts, style);
    CarrierStep(b, pos, opts, req.shallowOids, payload, pos + |payload| + 4, line);
  }

  lemma FitsParts(req: Request, opts: Options, style: Style)
    requires Fits(req, opts, style)
    ensures req.kind == Push && !req.signed && CommandsFit(req, opts, style) && OptionsFit(req, opts, style)
    ensures IsUpdate(req.updates[0], req.objectFormat) && |req.updates[0].ref| <= opts.maxRef
    ensures forall oid :: oid in req.shallowOids ==> IsCanonicalOid(oid, req.objectFormat)
  {
    hide Encode;
    hide CapabilitiesFit;
    hide IsUpdate;
    hide IsCanonicalOid;
  }

  /**
   Round trip: for every valid unsigned push within the limits, in every line style and before
   any pack, parsing the encoded push yields that push and consumes exactly its encoding.
   */
  lemma EncodedPushParses(req: Request, opts: Options, style: Style, pack: string, clean: bool)
    requires Fits(req, opts, style) && (!req.hasPack ==> pack == "" && clean)
    ensures Parse(Body(Encode(req, style) + pack, clean), opts) == Ok(Parsed(req, |Encode(req, style)|))
  {
    hide FromShallows;
    hide FromCommands;
    hide Stream;
    hide FromSecond;
    hide FirstLine;
    hide EndLine;
    hide CapabilitiesFit;
    hide GoodPush;
    hide IsUpdate;
    hide IsCanonicalOid;
    hide CommandsFit;
    hide OptionsFit;
    FitsParts(req, opts, style);
    var b := Body(Encode(req, style) + pack, clean);
    var shallows, first := Stream(ShallowLines(req.shallowOids, style)), Stream([EndLine(FirstLine(req, style), style)]);
    assert At(b.data, 0, Encode(req, style));
    AtSplits(b.data, 0, shallows, first + FromSecond(req, style));
    AtSplits(b.data, |shallows|, first, FromSecond(req, style));
    ShallowsReadBack(b, 0, req.shallowOids, opts, [], style, req.objectFormat);
    assert [] + req.shallowOids == req.shallowOids;
    FirstReadsBack(b, |shallows|, opts, req, style);
    FromSecondReadsBack(b, |shallows| + |first|, opts, req, style);
  }
}
