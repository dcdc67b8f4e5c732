/**
 The receive-pack prefix parser. It consumes a request body packet by packet up to the pack
 signature, keeps every consumed byte for replay, and hands the policy a checked request.
 */
module ReceivePack {
  import opened Text
  import opened PktLine
  import opened ReceiveLines

  /** Limits after defaults were filled in; push certificates are not allowed. */
  datatype Options = Options(
    maxPrefix: nat, maxCommands: nat, maxShallows: nat, maxCapabilities: nat,
    maxPushOptions: nat, maxPushOptionBytes: nat, maxRef: nat)

  datatype Kind = Probe | Noop | Push

  datatype Request = Request(
    kind: Kind,
    objectFormat: ObjectFormat,
    updates: seq<Update>,
    shallowOids: seq<string>,
    capabilities: seq<string>,
    pushOptions: seq<string>,
    pushOptionsNegotiated: bool,
    signed: bool,
    atomic: bool,
    hasPack: bool,
    reportStatus: bool,
    reportStatusV2: bool)

  const EMPTY := Request(Push, SHA1, [], [], [], [], false, false, false, false, false, false)

  /** All bytes of a body, and whether it then ends cleanly or with a read error. */
  datatype Body = Body(data: string, clean: bool)

  /** The request, and how much of the body is its prefix. */
  datatype Parsed = Parsed(request: Request, consumed: nat)

  predicate AtEnd(b: Body, pos: nat) {
    pos == |b.data| && b.clean
  }

  predicate Printable(option: string) {
    forall i :: 0 <= i < |option| ==> 0x20 <= option[i] as int <= 0x7e
  }

  predicate DistinctRefs(updates: seq<Update>) {
    forall i, j :: 0 <= i < j < |updates| ==> updates[i].ref != updates[j].ref
  }

  predicate AllDeletes(updates: seq<Update>) {
    forall i :: 0 <= i < |updates| ==> updates[i].kind == Delete
  }

  /** Everything the parser promises about a push it accepts. */
  predicate GoodPush(req: Request) {
    && req.kind == Push && !req.signed
    && req.updates != [] && DistinctRefs(req.updates)
    && (forall u :: u in req.updates ==> IsUpdate(u, req.objectFormat))
    && (forall oid :: oid in req.shallowOids ==> IsCanonicalOid(oid, req.objectFormat))
    && req.pushOptionsNegotiated == HasCapability(req.capabilities, "push-options")
    && (req.pushOptions != [] ==> req.pushOptionsNegotiated)
    && (forall o :: o in req.pushOptions ==> o != "" && Printable(o))
    && (req.hasPack <==> !AllDeletes(req.updates))
  }

  // ----- the parser as a function of the body -----

  function CanonicalOids(raw: seq<string>, format: ObjectFormat): (r: Result<seq<string>>)
    ensures r.Ok? ==> |r.value| == |raw| && forall oid :: oid in r.value ==> IsCanonicalOid(oid, format)
  {
    if raw == [] then Ok([])
    else
      var front :- CanonicalOids(raw[..|raw| - 1], format);
      var last :- ParseOid(raw[|raw| - 1], format);
      Ok(front + [last])
  }

  /** After the commands and options: a pack, or the end of the body when nothing needs one. */
  function Finish(b: Body, pos: nat, opts: Options, req: Request): Result<Parsed>
    requires pos <= |b.data|
  {
    if AllDeletes(req.updates) then
      if AtEnd(b, pos) then Ok(Parsed(req, pos)) else Err(InvalidProtocol)
    else if pos + 4 > |b.data| || b.data[pos..pos + 4] != "PACK" then Err(InvalidProtocol)
    else if pos + 4 > opts.maxPrefix then Err(LimitExceeded)
    else Ok(Parsed(req.(hasPack := true), pos + 4))
  }

  function PushOptionOf(payload: string, opts: Options): Result<string> {
    var line := WithoutNewline(payload);
    if line == "" || |line| > opts.maxPushOptionBytes || !Printable(line) then Err(InvalidProtocol) else Ok(line)
  }

  function FromOptions(b: Body, pos: nat, opts: Options, req: Request): (r: Result<Parsed>)
    requires pos <= |b.data|
    decreases |b.data| - pos
  {
    var (packet, next) :- PacketAt(b.data, pos, opts.maxPrefix);
    match packet
    case Flush => Finish(b, next, opts, req)
    case Delimiter => Err(InvalidProtocol)
    case ResponseEnd => Err(InvalidProtocol)
    case Data(payload) =>
      if |req.pushOptions| >= opts.maxPushOptions then Err(LimitExceeded)
      else
        var option :- PushOptionOf(payload, opts);
        FromOptions(b, next, opts, req.(pushOptions := req.pushOptions + [option]))
  }

  function AfterCommands(b: Body, pos: nat, opts: Options, req: Request): Result<Parsed>
    requires pos <= |b.data|
  {
    if req.updates == [] || !DistinctRefs(req.updates) then Err(InvalidProtocol)
    else if HasCapability(req.capabilities, "push-options") then
      FromOptions(b, pos, opts, req.(pushOptionsNegotiated := true))
    else Finish(b, pos, opts, req)
  }

  function CommandOf(payload: string, opts: Options, req: Request): Result<Update> {
    var line :- ProtocolLine(payload);
    if NUL in line || HasPrefix(line, "shallow ") then Err(InvalidProtocol)
    else if |req.updates| >= opts.maxCommands then Err(LimitExceeded)
    else ParseUpdate(line, req.objectFormat, opts.maxRef)
  }

  function FromCommands(b: Body, pos: nat, opts: Options, req: Request): (r: Result<Parsed>)
    requires pos <= |b.data|
    decreases |b.data| - pos
  {
    var (packet, next) :- PacketAt(b.data, pos, opts.maxPrefix);
    match packet
    case Flush => AfterCommands(b, next, opts, req)
    case Delimiter => Err(InvalidProtocol)
    case ResponseEnd => Err(InvalidProtocol)
    case Data(payload) =>
      var update :- CommandOf(payload, opts, req);
      FromCommands(b, next, opts, req.(updates := req.updates + [update]))
  }

  /** The request that the first command line and the shallow lines before it begin. */
  function CarrierOf(line: string, raw: seq<string>, opts: Options): (r: Result<Request>)
  {
    if Count(line, NUL) != 1 then Err(InvalidProtocol)
    else
      var at := IndexOf(line, NUL);
      CountNone(line, NUL);
      var caps :- ParseCapabilities(line[at + 1..], opts.maxCapabilities);
      var shallows :- CanonicalOids(raw, caps.objectFormat);
      if line[..at] == "push-cert" then Err(Unsupported)
      else
        var update :- ParseUpdate(line[..at], caps.objectFormat, opts.maxRef);
        Ok(EMPTY.(objectFormat := caps.objectFormat, updates := [update], shallowOids := shallows,
                  capabilities := caps.tokens, atomic := caps.atomic,
                  reportStatus := caps.reportStatus, reportStatusV2 := caps.reportStatusV2))
  }

  predicate IsShallowLine(line: string) {
    HasPrefix(line, "shallow ")
  }

  function ShallowOf(line: string, raw: seq<string>, opts: Options): Result<string>
    requires IsShallowLine(line)
  {
    if |raw| >= opts.maxShallows then Err(LimitExceeded)
    else if !IsAnyOid(line[8..]) then Err(InvalidProtocol)
    else Ok(line[8..])
  }

  /** A body of shallow lines only: a no-op, or with none at all a probe. */
  function WithoutCarrier(b: Body, pos: nat, raw: seq<string>): Result<Parsed>
    requires pos <= |b.data|
  {
    if !AtEnd(b, pos) then Err(InvalidProtocol)
    else if raw == [] then Ok(Parsed(EMPTY.(kind := Probe), pos))
    else
      var format := if |raw[0]| == 40 then SHA1 else SHA256;
      var oids :- CanonicalOids(raw, format);
      Ok(Parsed(EMPTY.(kind := Noop, objectFormat := format, shallowOids := oids), pos))
  }

  function FromShallows(b: Body, pos: nat, opts: Options, raw: seq<string>): (r: Result<Parsed>)
    requires pos <= |b.data|
    decreases |b.data| - pos
  {
    var (packet, next) :- PacketAt(b.data, pos, opts.maxPrefix);
    match packet
    case Flush => WithoutCarrier(b, next, raw)
    case Delimiter => Err(InvalidProtocol)
    case ResponseEnd => Err(InvalidProtocol)
    case Data(payload) =>
      var line :- ProtocolLine(payload);
      if IsShallowLine(line) then
        var oid :- ShallowOf(line, raw, opts);
        FromShallows(b, next, opts, raw + [oid])
      else
        var req :- CarrierOf(line, raw, opts);
        FromCommands(b, next, opts, req)
  }

  function Parse(b: Body, opts: Options): Result<Parsed> {
    FromShallows(b, 0, opts, [])
  }

  // ----- what the parser promises -----

  /** A request under construction. */
  predicate Partial(req: Request) {
    && req.kind == Push && !req.signed && !req.hasPack && req.updates != []
    && (forall u :: u in req.updates ==> IsUpdate(u, req.objectFormat))
    && (forall oid :: oid in req.shallowOids ==> IsCanonicalOid(oid, req.objectFormat))
    && (forall o :: o in req.pushOptions ==> o != "" && Printable(o))
  }

  predicate Bounded(r: Result<Parsed>, b: Body, opts: Options) {
    r.Ok? ==> r.value.consumed <= |b.data| && r.value.consumed <= opts.maxPrefix
  }

  lemma FinishGood(b: Body, pos: nat, opts: Options, req: Request)
    requires pos <= |b.data| && pos <= opts.maxPrefix
    requires Partial(req) && DistinctRefs(req.updates)
    requires req.pushOptionsNegotiated == HasCapability(req.capabilities, "push-options")
    requires req.pushOptions != [] ==> req.pushOptionsNegotiated
    ensures Bounded(Finish(b, pos, opts, req), b, opts)
    ensures Finish(b, pos, opts, req).Ok? ==> GoodPush(Finish(b, pos, opts, req).value.request)
  {
  }

  lemma {:induction false} OptionsGood(b: Body, pos: nat, opts: Options, req: Request)
    requires pos <= |b.data| && Partial(req) && DistinctRefs(req.updates)
    requires req.pushOptionsNegotiated && HasCapability(req.capabilities, "push-options")
    ensures Bounded(FromOptions(b, pos, opts, req), b, opts)
    ensures FromOptions(b, pos, opts, req).Ok? ==> GoodPush(FromOptions(b, pos, opts, req).value.request)
    decreases |b.data| - pos
  {
    hide IsUpdate;
    hide IsCanonicalOid;
    hide GoodPush;
    hide Finish;
    var r := PacketAt(b.data, pos, opts.maxPrefix);
    if r.Ok? {
      var (packet, next) := r.value;
      if packet.Flush? {
        FinishGood(b, next, opts, req);
      } else if packet.Data? {
        var option := PushOptionOf(packet.payload, opts);
        if option.Ok? {
          OptionsGood(b, next, opts, req.(pushOptions := req.pushOptions + [option.value]));
        }
      }
    }
  }

  lemma {:induction false} CommandsGood(b: Body, pos: nat, opts: Options, req: Request)
    requires pos <= |b.data| && Partial(req) && req.pushOptions == [] && !req.pushOptionsNegotiated
    ensures Bounded(FromCommands(b, pos, opts, req), b, opts)
    ensures FromCommands(b, pos, opts, req).Ok? ==> GoodPush(FromCommands(b, pos, opts, req).value.request)
    decreases |b.data| - pos
  {
    hide IsUpdate;
    hide IsCanonicalOid;
    hide GoodPush;
    hide Finish;
    hide FromOptions;
    var r := PacketAt(b.data, pos, opts.maxPrefix);
    if r.Ok? {
      var (packet, next) := r.value;
      if packet.Flush? {
        if DistinctRefs(req.updates) {
          if HasCapability(req.capabilities, "push-options") {
            OptionsGood(b, next, opts, req.(pushOptionsNegotiated := true));
          } else {
            FinishGood(b, next, opts, req);
          }
        }
      } else if packet.Data? {
        var update := CommandOf(packet.payload, opts, req);
        if update.Ok? {
          CommandsGood(b, next, opts, req.(updates := req.updates + [update.value]));
        }
      }
    }
  }

  lemma {:induction false} ShallowsGood(b: Body, pos: nat, opts: Options, raw: seq<string>)
    requires pos <= |b.data|
    ensures Bounded(FromShallows(b, pos, opts, raw), b, opts)
    ensures FromShallows(b, pos, opts, raw).Ok? ==>
              var req := FromShallows(b, pos, opts, raw).value.request;
              req.kind == Push ==> GoodPush(req)
    decreases |b.data| - pos
  {
    hide IsUpdate;
    hide IsCanonicalOid;
    hide GoodPush;
    hide FromCommands;
    hide ParseCapabilities;
    hide ParseUpdate;
    var r := PacketAt(b.data, pos, opts.maxPrefix);
    if r.Ok? {
      var (packet, next) := r.value;
      if packet.Data? {
        var line := ProtocolLine(packet.payload);
        if line.Ok? {
          if IsShallowLine(line.value) {
            var oid := ShallowOf(line.value, raw, opts);
            if oid.Ok? {
              ShallowsGood(b, next, opts, raw + [oid.value]);
            }
          } else {
            var req := CarrierOf(line.value, raw, opts);
            if req.Ok? {
              CommandsGood(b, next, opts, req.value);
            }
          }
        }
      }
    }
  }

  /**
   Every accepted body has a prefix within its limit, and every accepted push is one the policy
   can decide: canonical ids, legal distinct refs, the kinds their ids imply, and consistent options.
   */
  lemma AcceptedIsGood(b: Body, opts: Options)
    ensures Bounded(Parse(b, opts), b, opts)
    ensures Parse(b, opts).Ok? && Parse(b, opts).value.request.kind == Push ==> GoodPush(Parse(b, opts).value.request)
  {
    ShallowsGood(b, 0, opts, []);
  }

  // ----- the parser as it reads -----

  ghost function BodyOf(reader: Reader): Body {
    Body(reader.data, reader.clean)
  }

  /** The reader and the buffer stand where the function says, with its request, or both failed alike. */
  ghost predicate Delivers(reader: Reader, prefix: PrefixBuffer, r: Result<Request>, expected: Result<Parsed>)
    reads reader, prefix
  {
    match expected
    case Ok(parsed) => r == Ok(parsed.request) && reader.pos == parsed.consumed && InStep(reader, prefix)
    case Err(e) => r == Err(e)
  }

  method RejectDuplicateRefs(updates: seq<Update>) returns (duplicate: bool)
    ensures duplicate <==> !DistinctRefs(updates)
  {
    var seen: set<string> := {};
    for i := 0 to |updates|
      invariant seen == (set k | 0 <= k < i :: updates[k].ref)
      invariant forall k, l :: 0 <= k < l < i ==> updates[k].ref != updates[l].ref
    {
      if updates[i].ref in seen {
        var k :| 0 <= k < i && updates[k].ref == updates[i].ref;
        return true;
      }
      seen := seen + {updates[i].ref};
    }
    return false;
  }

  method NeedsPack(updates: seq<Update>) returns (needed: bool)
    ensures needed <==> !AllDeletes(updates)
  {
    for i := 0 to |updates|
      invariant forall k :: 0 <= k < i ==> updates[k].kind == Delete
    {
      if updates[i].kind != Delete {
        return true;
      }
    }
    return false;
  }

  method FinishPush(reader: Reader, prefix: PrefixBuffer, opts: Options, req: Request) returns (r: Result<Request>)
    requires InStep(reader, prefix) && prefix.max == opts.maxPrefix
    modifies reader, prefix
    ensures Delivers(reader, prefix, r, Finish(BodyOf(reader), old(reader.pos), opts, req))
  {
    hide AllDeletes;
    ghost var start := reader.pos;
    var needed := NeedsPack(req.updates);
    if !needed {
      var ended := reader.RequireEOF();
      return if ended then Ok(req) else Err(InvalidProtocol);
    }
    var ok, marker := reader.ReadFull(4);
    if !ok || marker != "PACK" {
      return Err(InvalidProtocol);
    }
    ok := prefix.Append(marker);
    if !ok {
      return Err(LimitExceeded);
    }
    TakeGrows(reader.data, start, start + 4);
    return Ok(req.(hasPack := true));
  }

  method ParsePushOptions(reader: Reader, prefix: PrefixBuffer, opts: Options, req: Request) returns (r: Result<Request>)
    requires InStep(reader, prefix) && prefix.max == opts.maxPrefix
    modifies reader, prefix
    ensures reader.pos <= |reader.data|
    ensures r.Ok? ==> InStep(reader, prefix)
    ensures r.Ok? ==> FromOptions(BodyOf(reader), old(reader.pos), opts, req)
                      == Finish(BodyOf(reader), reader.pos, opts, r.value)
    ensures r.Err? ==> FromOptions(BodyOf(reader), old(reader.pos), opts, req) == Err(r.error)
  {
    hide Finish;
    hide PacketAt;
    hide PushOptionOf;
    var current := req;
    while true
      invariant InStep(reader, prefix)
      invariant FromOptions(BodyOf(reader), old(reader.pos), opts, req) == FromOptions(BodyOf(reader), reader.pos, opts, current)
      decreases |reader.data| - reader.pos
    {
      var packet := ReadPacket(reader, prefix);
      if packet.Err? {
        return Err(packet.error);
      }
      match packet.value {
        case Flush => return Ok(current);
        case Delimiter => return Err(InvalidProtocol);
        case ResponseEnd => return Err(InvalidProtocol);
        case Data(payload) =>
          if |current.pushOptions| >= opts.maxPushOptions {
            return Err(LimitExceeded);
          }
          var option := PushOptionOf(payload, opts);
          if option.Err? {
            return Err(option.error);
          }
          current := current.(pushOptions := current.pushOptions + [option.value]);
      }
    }
  }

  /** From the flush after the commands to the end of the prefix. */
  method CommandsDone(reader: Reader, prefix: PrefixBuffer, opts: Options, req: Request) returns (r: Result<Request>)
    requires InStep(reader, prefix) && prefix.max == opts.maxPrefix
    modifies reader, prefix
    ensures Delivers(reader, prefix, r, AfterCommands(BodyOf(reader), old(reader.pos), opts, req))
  {
    hide DistinctRefs;
    hide Finish;
    hide FromOptions;
    hide HasCapability;
    if |req.updates| == 0 {
      return Err(InvalidProtocol);
    }
    var duplicate := RejectDuplicateRefs(req.updates);
    if duplicate {
      return Err(InvalidProtocol);
    }
    if HasCapability(req.capabilities, "push-options") {
      var options := ParsePushOptions(reader, prefix, opts, req.(pushOptionsNegotiated := true));
      if options.Err? {
        return Err(options.error);
      }
      r := FinishPush(reader, prefix, opts, options.value);
    } else {
      r := FinishPush(reader, prefix, opts, req);
    }
  }

  method NoCarrier(reader: Reader, prefix: PrefixBuffer, raw: seq<string>) returns (r: Result<Request>)
    requires InStep(reader, prefix)
    modifies reader
    ensures Delivers(reader, prefix, r, WithoutCarrier(BodyOf(reader), old(reader.pos), raw))
  {
    hide CanonicalOids;
    var ended := reader.RequireEOF();
    if !ended {
      return Err(InvalidProtocol);
    }
    if |raw| == 0 {
      return Ok(EMPTY.(kind := Probe));
    }
    var format := if |raw[0]| == 40 then SHA1 else SHA256;
    var oids := CanonicalOids(raw, format);
    return if oids.Err? then Err(oids.error)
           else Ok(EMPTY.(kind := Noop, objectFormat := format, shallowOids := oids.value));
  }

  /** The command packets up to the flush; the carrier was already read. */
  method ReadCommands(reader: Reader, prefix: PrefixBuffer, opts: Options, first: Request) returns (r: Result<Request>)
    requires InStep(reader, prefix) && prefix.max == opts.maxPrefix
    modifies reader, prefix
    ensures Delivers(reader, prefix, r, FromCommands(BodyOf(reader), old(reader.pos), opts, first))
  {
    hide PacketAt;
    hide CommandOf;
    hide AfterCommands;
    var req := first;
    while true
      invariant InStep(reader, prefix)
      invariant FromCommands(BodyOf(reader), old(reader.pos), opts, first) == FromCommands(BodyOf(reader), reader.pos, opts, req)
      decreases |reader.data| - reader.pos
    {
      var packet := ReadPacket(reader, prefix);
      if packet.Err? {
        return Err(packet.error);
      }
      match packet.value {
        case Flush =>
          r := CommandsDone(reader, prefix, opts, req);
          return;
        case Delimiter => return Err(InvalidProtocol);
        case ResponseEnd => return Err(InvalidProtocol);
        case Data(payload) =>
          var update := CommandOf(payload, opts, req);
          if update.Err? {
            return Err(update.error);
          }
          req := req.(updates := req.updates + [update.value]);
      }
    }
  }

  /**
   Reads and checks the policy-relevant prefix. On success the buffer replays exactly the bytes
   consumed, so that it and the unread rest are the whole original body.
   */
  method ParseReceivePackPrefix(reader: Reader, opts: Options) returns (r: Result<Request>, prefix: PrefixBuffer)
    requires reader.pos == 0
    modifies reader
    ensures fresh(prefix)
    ensures Delivers(reader, prefix, r, Parse(BodyOf(reader), opts))
    ensures r.Ok? ==> reader.pos <= |reader.data| && prefix.bytes + reader.data[reader.pos..] == reader.data
    ensures r.Ok? ==> |prefix.bytes| <= opts.maxPrefix
    ensures r.Ok? && r.value.kind == Push ==> GoodPush(r.value)
  {
    hide PacketAt;
    hide CarrierOf;
    hide ShallowOf;
    hide ProtocolLine;
    hide FromCommands;
    hide WithoutCarrier;
    hide GoodPush;
    prefix := new PrefixBuffer(opts.maxPrefix);
    AcceptedIsGood(BodyOf(reader), opts);
    var raw: seq<string> := [];
    while true
      invariant fresh(prefix) && prefix.max == opts.maxPrefix && InStep(reader, prefix)
      invariant Parse(BodyOf(reader), opts) == FromShallows(BodyOf(reader), reader.pos, opts, raw)
      decreases |reader.data| - reader.pos
    {
      var packet := ReadPacket(reader, prefix);
      if packet.Err? {
        return Err(packet.error), prefix;
      }
      match packet.value {
        case Flush =>
          r := NoCarrier(reader, prefix, raw);
          return;
        case Delimiter => return Err(InvalidProtocol), prefix;
        case ResponseEnd => return Err(InvalidProtocol), prefix;
        case Data(payload) =>
          var line := ProtocolLine(payload);
          if line.Err? {
            return Err(line.error), prefix;
          }
          if IsShallowLine(line.value) {
            var oid := ShallowOf(line.value, raw, opts);
            if oid.Err? {
              return Err(oid.error), prefix;
            }
            raw := raw + [oid.value];
          } else {
            var req := CarrierOf(line.value, raw, opts);
            if req.Err? {
              return Err(req.error), prefix;
            }
            r := ReadCommands(reader, prefix, opts, req.value);
            return;
          }
      }
    }
  }
}
