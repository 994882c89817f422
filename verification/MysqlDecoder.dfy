/** The binlog decoder: event headers, payload validation, the shared context, and decoding from a file
    buffer or frame by frame (mysql/decode/decoder/file_decoder.go, mysql/decode/events). */
module MysqlDecoder {
  import opened Bytes
  import opened MysqlTableMap
  import opened MysqlRows

  const DEFAULT_HEADER_SIZE := 19
  const MIN_HEADER_SIZE := 13
  const FORMAT_DESCRIPTION_EVENT := 0x0f
  const CHECKSUM_LENGTH := 4

  /** Code the decoder calls that is not modelled: version parsing, CRC-32, the dialect plugin's event
      types for a server version, and the bodies of the remaining event types. */
  datatype Env = Env(
    hasChecksum: bytes -> Result<bool>,
    crc: bytes -> bytes,
    pluginTypes: bytes -> set<byte>,
    builtin: set<byte>,
    other: (byte, bytes, Option<FmtDesc>) -> Result<bytes>)

  datatype Mode = Auto | Strict | Loose

  /** Positions of 0 and absent times mean no bound. The start time is in nanoseconds. */
  datatype Options = Options(startPos: int, endPos: int, startTime: Option<int>, endTime: Option<int>, mode: Mode)

  datatype EventHeader = EventHeader(
    timestamp: nat, eventType: byte, serverID: nat, eventSize: nat, logPos: nat, flag: nat, data: bytes)

  /** The decoder's shared state: the last format description, the latest map of each table, and the event
      types a plugin registered at the first format description. */
  datatype Context = Context(desc: Option<FmtDesc>, tables: Tables, plugins: set<byte>, pluginsApplied: bool)

  const EMPTY_CONTEXT := Context(None, map[], {}, false)

  datatype Body = FmtBody(desc: FmtDesc) | TableMapBody(table: TableMap) | RowsBody(rows: RowsEvent)
    | OtherBody(payload: bytes)

  /** What one call yields: an event, nothing because the event was skipped, or an error. */
  datatype Outcome = Decoded(header: EventHeader, body: Body) | Skipped | Stopped(error: Error)

  // ---- context ----

  function HeaderLength(ctx: Context): nat {
    if ctx.desc.None? then DEFAULT_HEADER_SIZE else ctx.desc.value.headerLength
  }

  predicate HasChecksum(ctx: Context) { ctx.desc.Some? && ctx.desc.value.hasChecksum }

  predicate DeclaresType(ctx: Context, typ: byte) {
    ctx.desc.Some? && typ != 0 && typ <= |ctx.desc.value.postHeaders|
  }

  predicate KnowsEventType(env: Env, o: Options, ctx: Context, typ: byte) {
    || o.mode == Loose
    || typ in env.builtin || typ in ctx.plugins
    || (o.mode == Auto && DeclaresType(ctx, typ))
  }

  predicate NeedStart(o: Options, h: EventHeader) {
    && !(o.startPos != 0 && h.logPos - h.eventSize < o.startPos)
    && !(o.startTime.Some? && h.timestamp * 1_000_000_000 < o.startTime.value)
  }

  predicate NeedStop(o: Options, h: EventHeader) {
    || (o.endPos != 0 && o.endPos < h.logPos)
    || (o.endTime.Some? && o.endTime.value / 1_000_000_000 <= h.timestamp)
  }

  /** A format description is never skipped: the rest of the log is read against it. */
  predicate CheckSkip(o: Options, h: EventHeader) { h.eventType != FORMAT_DESCRIPTION_EVENT && !NeedStart(o, h) }

  // ---- one event ----

  function Field(data: bytes, at: nat, width: nat): (n: nat)
    requires at + width <= |data|
    ensures n < Pow(256, width)
  {
    LittleEndianBound(data[at..at + width]);
    LittleEndian(data[at..at + width])
  }

  function DecodeEventHeader(data: bytes, size: nat): (r: Result<EventHeader>)
    ensures r.Ok? ==> r.value.eventSize < MAX_PAYLOAD && r.value.logPos < MAX_PAYLOAD && size >= MIN_HEADER_SIZE
  {
    if size != MIN_HEADER_SIZE && size < DEFAULT_HEADER_SIZE then Err(Invalid)
    else if |data| < size then Err(Invalid)
    else
      Powers256();
      Ok(EventHeader(
           Field(data, 0, 4), data[4], Field(data, 5, 4), Field(data, 9, 4),
           if size > MIN_HEADER_SIZE then Field(data, 13, 4) else 0,
           if size > MIN_HEADER_SIZE then Field(data, 17, 2) else 0,
           data))
  }

  function ReadHeader(env: Env, o: Options, ctx: Context, data: bytes): (r: Result<EventHeader>)
    ensures r.Ok? ==> r.value.eventSize < MAX_PAYLOAD && r.value.logPos < MAX_PAYLOAD
                      && HeaderLength(ctx) >= MIN_HEADER_SIZE
  {
    var h :- DecodeEventHeader(data, HeaderLength(ctx));
    if KnowsEventType(env, o, ctx, h.eventType) then Ok(h) else Err(Invalid)
  }

  /** The payload without its checksum, once its size and checksum are right. */
  function ValidateData(env: Env, ctx: Context, h: EventHeader, body: bytes): (r: Result<bytes>)
    ensures r.Ok? ==> |r.value| <= |body|
  {
    if |body| + |h.data| != h.eventSize then Err(Invalid)
    else if !HasChecksum(ctx) then Ok(body)
    else if |body| < CHECKSUM_LENGTH then Err(Invalid)
    else
      var payload := body[..|body| - CHECKSUM_LENGTH];
      if env.crc(h.data + payload) != body[|body| - CHECKSUM_LENGTH..] then Err(Invalid) else Ok(payload)
  }

  function DecodeFmtDesc(env: Env, data: bytes): Result<FmtDesc> {
    if |data| < 57 then Err(Panic)
    else
      var version := TrimZeros(data[2..52]);
      var hasChecksum :- env.hasChecksum(version);
      Ok(FmtDesc(Field(data, 0, 2), version, Field(data, 52, 4), data[56], data[57..], hasChecksum))
  }

  function TrimZeros(b: bytes): bytes {
    if b == [] then b else if b[0] == 0 then TrimZeros(b[1..]) else TrimTail(b)
  }

  function TrimTail(b: bytes): bytes {
    if b != [] && b[|b| - 1] == 0 then TrimTail(b[..|b| - 1]) else b
  }

  datatype Change = Change(body: Body, ctx: Context)

  /** A format description replaces the current one, and the first of them decides the plugin's types. */
  function Describe(env: Env, ctx: Context, desc: FmtDesc): Context {
    if ctx.pluginsApplied then ctx.(desc := Some(desc))
    else ctx.(desc := Some(desc), plugins := env.pluginTypes(desc.version), pluginsApplied := true)
  }

  /** The latest map of a table wins. */
  function Remember(ctx: Context, t: TableMap): Context
    requires Consistent(t)
  {
    ctx.(tables := ctx.tables[t.tableID := t])
  }

  function DecodeEventBody(env: Env, ctx: Context, typ: byte, data: bytes): (r: Result<Change>)
    requires |data| < MAX_PAYLOAD
  {
    if typ == FORMAT_DESCRIPTION_EVENT then
      var desc :- DecodeFmtDesc(env, data);
      Ok(Change(FmtBody(desc), Describe(env, ctx, desc)))
    else if typ == TABLE_MAP_EVENT then
      var table :- Decode(data, ctx.desc);
      Ok(Change(TableMapBody(table), Remember(ctx, table)))
    else if IsRowsType(typ) then
      var rows :- DecodeRowsEvent(data, ctx.desc, ctx.tables, typ);
      Ok(Change(RowsBody(rows), ctx))
    else
      var payload :- env.other(typ, data, ctx.desc);
      Ok(Change(OtherBody(payload), ctx))
  }

  datatype Turn = Turn(outcome: Outcome, ctx: Context)

  function Finish(env: Env, ctx: Context, h: EventHeader, body: bytes): Turn
    requires |body| < MAX_PAYLOAD
  {
    match ValidateData(env, ctx, h, body)
    case Err(e) => Turn(Stopped(e), ctx)
    case Ok(payload) =>
      match DecodeEventBody(env, ctx, h.eventType, payload)
      case Err(e) => Turn(Stopped(e), ctx)
      case Ok(c) => Turn(Decoded(h, c.body), c.ctx)
  }

  /** DecodeRawEvent: one frame holding header, body and optional checksum. A skipped frame is not looked into. */
  function DecodeRaw(env: Env, o: Options, ctx: Context, raw: bytes): Turn {
    var length := HeaderLength(ctx);
    if |raw| < length then Turn(Stopped(UnexpectedEOF), ctx)
    else
      match ReadHeader(env, o, ctx, raw[..length])
      case Err(e) => Turn(Stopped(e), ctx)
      case Ok(h) =>
        if h.eventSize < length || |raw| < h.eventSize then Turn(Stopped(UnexpectedEOF), ctx)
        else if CheckSkip(o, h) then Turn(Skipped, ctx)
        else Finish(env, ctx, h, raw[length..h.eventSize])
  }

  datatype Next = Next(outcome: Outcome, ctx: Context, rest: bytes)

  /** DecodeEvent: the next event of a buffer. A skipped event is still read and validated. */
  function DecodeNext(env: Env, o: Options, ctx: Context, buf: bytes): (n: Next)
    ensures !n.outcome.Stopped? ==> |n.rest| < |buf|
  {
    var length := HeaderLength(ctx);
    if |buf| < length then Next(Stopped(EOF), ctx, [])
    else
      var rest := buf[length..];
      match ReadHeader(env, o, ctx, buf[..length])
      case Err(e) => Next(Stopped(e), ctx, rest)
      case Ok(h) =>
        var size := h.eventSize - length;
        if size < 0 then Next(Stopped(Panic), ctx, rest)
        else if |rest| < size then Next(Stopped(EOF), ctx, [])
        else
          var turn := FinishOrSkip(env, o, ctx, h, rest[..size]);
          Next(turn.outcome, turn.ctx, rest[size..])
  }

  function FinishOrSkip(env: Env, o: Options, ctx: Context, h: EventHeader, body: bytes): Turn
    requires |body| < MAX_PAYLOAD
  {
    if CheckSkip(o, h) then
      match ValidateData(env, ctx, h, body)
      case Err(e) => Turn(Stopped(e), ctx)
      case Ok(_) => Turn(Skipped, ctx)
    else Finish(env, ctx, h, body)
  }

  // ---- the whole log ----

  datatype Event = Event(header: EventHeader, body: Body)

  /** How an event iterator ended: input used up, the stop bound reached, or an error handed over. */
  datatype End = AtEOF | AtStop | Failed(error: Error)

  datatype Run = Run(events: seq<Event>, end: End)

  function ErrorEnd(e: Error): End { if e == EOF then AtEOF else Failed(e) }

  function Yield(e: Event, rest: Run): Run { Run([e] + rest.events, rest.end) }

  /** Events: everything the file decoder yields. Any io.EOF, even one from a body, ends it silently. */
  function RunFile(env: Env, o: Options, ctx: Context, buf: bytes): Run
    decreases |buf|
  {
    var n := DecodeNext(env, o, ctx, buf);
    match n.outcome
    case Stopped(e) => Run([], ErrorEnd(e))
    case Skipped => RunFile(env, o, n.ctx, n.rest)
    case Decoded(h, body) =>
      if NeedStop(o, h) then Run([], AtStop) else Yield(Event(h, body), RunFile(env, o, n.ctx, n.rest))
  }

  /** Frame-by-frame decoding, as the live decoder does it; every error is handed over. */
  function RunRaw(env: Env, o: Options, ctx: Context, frames: seq<bytes>): Run
    decreases |frames|
  {
    if frames == [] then Run([], AtEOF)
    else
      var turn := DecodeRaw(env, o, ctx, frames[0]);
      match turn.outcome
      case Stopped(e) => Run([], Failed(e))
      case Skipped => RunRaw(env, o, turn.ctx, frames[1..])
      case Decoded(h, body) => Yield(Event(h, body), RunRaw(env, o, turn.ctx, frames[1..]))
  }

  // ---- the decoder object ----

  class BinFileDecoder {
    const env: Env
    const option: Options
    var buf: bytes
    var context: Context

    constructor (env: Env, option: Options, log: bytes)
      ensures this.env == env && this.option == option && buf == log && context == EMPTY_CONTEXT
    {
      this.env, this.option := env, option;
      buf, context := log, EMPTY_CONTEXT;
    }

    method ReadNBytes(size: nat) returns (r: Result<bytes>)
      modifies this`buf
      ensures |old(buf)| < size ==> r == Err(EOF) && buf == []
      ensures |old(buf)| >= size ==> r == Ok(old(buf)[..size]) && buf == old(buf)[size..]
    {
      if |buf| < size {
        buf := [];
        return Err(EOF);
      }
      r := Ok(buf[..size]);
      buf := buf[size..];
    }

    method ReadEventData(h: EventHeader) returns (r: Result<bytes>)
      requires h.eventSize < MAX_PAYLOAD
      modifies this`buf
      ensures var size := h.eventSize - HeaderLength(context);
              if size < 0 then r == Err(Panic) && buf == old(buf)
              else if |old(buf)| < size then r == Err(EOF) && buf == []
              else r == ValidateData(env, context, h, old(buf)[..size]) && buf == old(buf)[size..]
      ensures r.Ok? ==> |r.value| < MAX_PAYLOAD
    {
      var size := h.eventSize - HeaderLength(context);
      if size < 0 { return Err(Panic); }
      var data := ReadNBytes(size);
      if data.Err? { return data; }
      r := ValidateData(env, context, h, data.value);
    }

    method Apply(h: EventHeader, payload: bytes) returns (outcome: Outcome)
      requires |payload| < MAX_PAYLOAD
      modifies this`context
      ensures match DecodeEventBody(env, old(context), h.eventType, payload)
              case Err(e) => outcome == Stopped(e) && context == old(context)
              case Ok(c) => outcome == Decoded(h, c.body) && context == c.ctx
    {
      if h.eventType == FORMAT_DESCRIPTION_EVENT {
        var desc := DecodeFmtDesc(env, payload);
        if desc.Err? { return Stopped(desc.error); }
        context := context.(desc := Some(desc.value));
        if !context.pluginsApplied {
          context := context.(plugins := env.pluginTypes(desc.value.version), pluginsApplied := true);
        }
        return Decoded(h, FmtBody(desc.value));
      }
      if h.eventType == TABLE_MAP_EVENT {
        var table := DecodeTableMap(payload, context.desc);
        if table.Err? { return Stopped(table.error); }
        context := context.(tables := context.tables[table.value.tableID := table.value]);
        return Decoded(h, TableMapBody(table.value));
      }
      if IsRowsType(h.eventType) {
        var rows := DecodeRowsEventLoop(payload, context.desc, context.tables, h.eventType);
        if rows.Err? { return Stopped(rows.error); }
        return Decoded(h, RowsBody(rows.value));
      }
      var body := env.other(h.eventType, payload, context.desc);
      if body.Err? { return Stopped(body.error); }
      return Decoded(h, OtherBody(body.value));
    }

    method DecodeEvent() returns (outcome: Outcome)
      modifies this
      ensures Next(outcome, context, buf) == DecodeNext(env, option, old(context), old(buf))
    {
      hide ValidateData, DecodeEventBody, ReadHeader, CheckSkip;
      var data := ReadNBytes(HeaderLength(context));
      if data.Err? { return Stopped(data.error); }
      var header := ReadHeader(env, option, context, data.value);
      if header.Err? { return Stopped(header.error); }
      var h := header.value;
      var payload := ReadEventData(h);
      if payload.Err? { return Stopped(payload.error); }
      if CheckSkip(option, h) { return Skipped; }
      outcome := Apply(h, payload.value);
    }

    method DecodeRawEvent(raw: bytes) returns (outcome: Outcome)
      modifies this`context
      ensures Turn(outcome, context) == DecodeRaw(env, option, old(context), raw)
    {
      hide ValidateData, DecodeEventBody, ReadHeader, CheckSkip;
      var length := HeaderLength(context);
      if |raw| < length { return Stopped(UnexpectedEOF); }
      var header := ReadHeader(env, option, context, raw[..length]);
      if header.Err? { return Stopped(header.error); }
      var h := header.value;
      if h.eventSize < length || |raw| < h.eventSize { return Stopped(UnexpectedEOF); }
      if CheckSkip(option, h) { return Skipped; }
      var payload := ValidateData(env, context, h, raw[length..h.eventSize]);
      if payload.Err? { return Stopped(payload.error); }
      outcome := Apply(h, payload.value);
    }

    /** The iterator, for a consumer that takes `wanted` events and then breaks off; `done` tells that it
        ended by itself, with `end`. */
    method Events(wanted: nat) returns (events: seq<Event>, done: bool, end: End)
      requires wanted >= 1
      modifies this
      ensures var all := RunFile(env, option, old(context), old(buf));
              var left := RunFile(env, option, context, buf);
              if done then events == all.events && end == all.end
              else |events| == wanted && all == Run(events + left.events, left.end)
    {
      hide DecodeNext, NeedStop;
      ghost var all := RunFile(env, option, context, buf);
      events, end := [], AtEOF;
      assert [] + all.events == all.events;
      while true
        invariant |events| < wanted
        invariant all.events == events + RunFile(env, option, context, buf).events
        invariant all.end == RunFile(env, option, context, buf).end
        decreases |buf|
      {
        ghost var here := RunFile(env, option, context, buf);
        var outcome := DecodeEvent();
        match outcome
        case Stopped(e) =>
          assert events + [] == events;
          return events, true, ErrorEnd(e);
        case Skipped =>
        case Decoded(h, body) =>
          if NeedStop(option, h) {
            assert events + [] == events;
            return events, true, AtStop;
          }
          Assoc(events, [Event(h, body)], RunFile(env, option, context, buf).events);
          events := events + [Event(h, body)];
          if |events| == wanted { return events, false, AtEOF; }
      }
    }
  }

  // ---- the two ways of decoding agree ----

  /** The frame is one event: it is as long as its header says. */
  predicate Framed(env: Env, o: Options, ctx: Context, frame: bytes) {
    && HeaderLength(ctx) <= |frame|
    && var h := ReadHeader(env, o, ctx, frame[..HeaderLength(ctx)]);
       h.Ok? ==> h.value.eventSize == |frame|
  }

  /** A frame the options skip is well formed as well: only the file decoder looks at its checksum. */
  predicate SoundSkip(env: Env, o: Options, ctx: Context, frame: bytes)
    requires Framed(env, o, ctx, frame)
  {
    var length := HeaderLength(ctx);
    var h := ReadHeader(env, o, ctx, frame[..length]);
    h.Ok? && CheckSkip(o, h.value) ==> ValidateData(env, ctx, h.value, frame[length..]).Ok?
  }

  /** From equal contexts, decoding a frame and decoding a buffer that starts with it give the same outcome
      and the same context, and the buffer moves on by exactly the frame. */
  lemma FrameAgreement(env: Env, o: Options, ctx: Context, frame: bytes, rest: bytes)
    requires Framed(env, o, ctx, frame) && SoundSkip(env, o, ctx, frame)
    ensures var next, turn := DecodeNext(env, o, ctx, frame + rest), DecodeRaw(env, o, ctx, frame);
            && next.outcome == turn.outcome && next.ctx == turn.ctx
            && (!turn.outcome.Stopped? ==> next.rest == rest)
  {
    hide ValidateData, DecodeEventBody, ReadHeader, CheckSkip, Finish;
    var length := HeaderLength(ctx);
    var buf := frame + rest;
    assert buf[..length] == frame[..length];
    assert buf[length..] == frame[length..] + rest;
    Concat(frame[length..], rest);
    assert frame[length..|frame|] == frame[length..];
  }

  /** The one case in which the two differ, exactly: a skipped frame whose payload does not validate. */
  lemma SkippedFrameAgreement(env: Env, o: Options, ctx: Context, frame: bytes, rest: bytes)
    requires Framed(env, o, ctx, frame) && DecodeRaw(env, o, ctx, frame).outcome == Skipped
    ensures DecodeNext(env, o, ctx, frame + rest).outcome == Skipped <==> SoundSkip(env, o, ctx, frame)
  {
    hide ValidateData, DecodeEventBody, ReadHeader, CheckSkip, Finish;
    var length := HeaderLength(ctx);
    var buf := frame + rest;
    assert buf[..length] == frame[..length];
    assert buf[length..] == frame[length..] + rest;
    Concat(frame[length..], rest);
    assert frame[length..|frame|] == frame[length..];
  }

  /** An event that claims to be shorter than its header: an error for the raw decoder, while the file decoder
      stops at run time, asking for a negative number of bytes. */
  lemma UndersizedEvent(env: Env, o: Options, ctx: Context, data: bytes)
    requires HeaderLength(ctx) <= |data|
    requires var h := ReadHeader(env, o, ctx, data[..HeaderLength(ctx)]);
             h.Ok? && h.value.eventSize < HeaderLength(ctx)
    ensures DecodeRaw(env, o, ctx, data) == Turn(Stopped(UnexpectedEOF), ctx)
    ensures DecodeNext(env, o, ctx, data).outcome == Stopped(Panic)
  {
    hide ReadHeader;
    var h := ReadHeader(env, o, ctx, data[..HeaderLength(ctx)]).value;
    assert h.eventSize - HeaderLength(ctx) < 0;
  }

  /** Which bodies end a file's iterator silently, exactly: table maps that overrun, and whatever code outside
      the model answers with io.EOF. */
  lemma BodyEndsSilently(env: Env, ctx: Context, typ: byte, data: bytes)
    requires |data| < MAX_PAYLOAD
    ensures DecodeEventBody(env, ctx, typ, data) == Err(EOF)
            <==> if typ == FORMAT_DESCRIPTION_EVENT then
                   |data| >= 57 && env.hasChecksum(TrimZeros(data[2..52])) == Err(EOF)
                 else if typ == TABLE_MAP_EVENT then Overruns(data, ctx.desc)
                 else !IsRowsType(typ) && env.other(typ, data, ctx.desc) == Err(EOF)
  {
    hide Decode, DecodeRowsEvent, Overruns, TrimZeros, IsRowsType;
    EndsSilently(data, ctx.desc);
  }

  /** Each frame is one sound event in the context that the frames before it leave, up to the first error or the
      stop bound; and if the frames run out, headers still have a length. */
  predicate FramedAll(env: Env, o: Options, ctx: Context, frames: seq<bytes>)
    decreases |frames|
  {
    if frames == [] then HeaderLength(ctx) > 0
    else
      && Framed(env, o, ctx, frames[0]) && SoundSkip(env, o, ctx, frames[0])
      && var turn := DecodeRaw(env, o, ctx, frames[0]);
         match turn.outcome
         case Stopped(_) => true
         case Skipped => FramedAll(env, o, turn.ctx, frames[1..])
         case Decoded(h, _) => NeedStop(o, h) || FramedAll(env, o, turn.ctx, frames[1..])
  }

  function Flatten(frames: seq<bytes>): bytes {
    if frames == [] then [] else frames[0] + Flatten(frames[1..])
  }

  /** A frame-by-frame run as the file iterator hands it out: cut before the first event beyond the stop bound,
      and an io.EOF taken for the end of the log. */
  function CutAtStop(o: Options, run: Run): Run
    decreases |run.events|
  {
    if run.events == [] then Run([], if run.end == Failed(EOF) then AtEOF else run.end)
    else if NeedStop(o, run.events[0].header) then Run([], AtStop)
    else Yield(run.events[0], CutAtStop(o, Run(run.events[1..], run.end)))
  }

  /** File decoding of a concatenation of frames equals frame-by-frame decoding of the list, cut at the stop
      bound, however header length, checksum flag and table maps change on the way. */
  lemma {:induction false} FramesAgreement(env: Env, o: Options, ctx: Context, frames: seq<bytes>)
    requires FramedAll(env, o, ctx, frames)
    ensures RunFile(env, o, ctx, Flatten(frames)) == CutAtStop(o, RunRaw(env, o, ctx, frames))
    decreases |frames|
  {
    hide DecodeNext, DecodeRaw, Framed, SoundSkip, NeedStop;
    if frames == [] {
      NothingLeft(env, o, ctx);
    } else {
      FrameAgreement(env, o, ctx, frames[0], Flatten(frames[1..]));
      var turn := DecodeRaw(env, o, ctx, frames[0]);
      match turn.outcome
      case Stopped(_) =>
      case Skipped => FramesAgreement(env, o, turn.ctx, frames[1..]);
      case Decoded(h, body) =>
        var rest := RunRaw(env, o, turn.ctx, frames[1..]);
        assert ([Event(h, body)] + rest.events)[1..] == rest.events;
        if !NeedStop(o, h) { FramesAgreement(env, o, turn.ctx, frames[1..]); }
    }
  }

  lemma NothingLeft(env: Env, o: Options, ctx: Context)
    requires HeaderLength(ctx) > 0
    ensures DecodeNext(env, o, ctx, []).outcome == Stopped(EOF)
  {
  }
}
