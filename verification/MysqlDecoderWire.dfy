/** Whole binlog events in bytes: which byte of a frame is which field of its header, what is cut off its body, and
    which type byte has which body (mysql/decode/events/event_header.go, mysql/decode/events/event.go,
    mysql/decode/decoder/file_decoder.go). */
module MysqlDecoderWire {
  import opened Bytes
  import opened MysqlTableMap
  import opened MysqlRows
  import opened MysqlDecoder

  // ---- headers ----

  predicate Narrow(h: EventHeader) {
    && h.timestamp < 0x1_0000_0000 && h.serverID < 0x1_0000_0000 && h.eventSize < 0x1_0000_0000
    && h.logPos < 0x1_0000_0000 && h.flag < 0x1_0000
  }

  /** What the 13 bytes of every header hold: timestamp, type, server and event size. */
  function HeaderFront(h: EventHeader): (b: bytes)
    ensures |b| == 13
  {
    EncodeLittleEndian(h.timestamp, 4) + [h.eventType] + EncodeLittleEndian(h.serverID, 4)
    + EncodeLittleEndian(h.eventSize, 4)
  }

  /** Log position and flags, which headers of 13 bytes do not have. */
  function HeaderBack(h: EventHeader): (b: bytes)
    ensures |b| == 6
  {
    EncodeLittleEndian(h.logPos, 4) + EncodeLittleEndian(h.flag, 2)
  }

  /** The header's bytes are its fields, those of a long header followed by some that are not looked at. */
  predicate Written(h: EventHeader, extra: bytes) {
    && Narrow(h)
    && (|| h.data == HeaderFront(h) + (HeaderBack(h) + extra)
        || (h.data == HeaderFront(h) && h.logPos == 0 && h.flag == 0))
  }

  lemma FieldAt(before: bytes, n: nat, width: nat, after: bytes)
    requires n < Pow(256, width)
    ensures Field(before + (EncodeLittleEndian(n, width) + after), |before|, width) == n
  {
    hide LittleEndian, EncodeLittleEndian, Pow;
    var b := EncodeLittleEndian(n, width);
    assert (before + (b + after))[|before|..|before| + width] == b;
    LittleEndianRoundTrip(n, width);
  }

  lemma FrontFields(h: EventHeader, tail: bytes)
    requires Narrow(h)
    ensures var data := HeaderFront(h) + tail;
            && Field(data, 0, 4) == h.timestamp && data[4] == h.eventType
            && Field(data, 5, 4) == h.serverID && Field(data, 9, 4) == h.eventSize
  {
    hide EncodeLittleEndian, Pow, Field;
    Powers256();
    var time, typ: bytes, server, size := EncodeLittleEndian(h.timestamp, 4), [h.eventType],
      EncodeLittleEndian(h.serverID, 4), EncodeLittleEndian(h.eventSize, 4);
    var data := HeaderFront(h) + tail;
    assert data == [] + (time + (typ + server + size + tail));
    assert data == (time + typ) + (server + (size + tail));
    assert data == (time + typ + server) + (size + tail);
    FieldAt([], h.timestamp, 4, typ + server + size + tail);
    FieldAt(time + typ, h.serverID, 4, size + tail);
    FieldAt(time + typ + server, h.eventSize, 4, tail);
  }

  lemma BackFields(h: EventHeader, extra: bytes)
    requires Narrow(h)
    ensures var data := HeaderFront(h) + (HeaderBack(h) + extra);
            Field(data, 13, 4) == h.logPos && Field(data, 17, 2) == h.flag
  {
    hide EncodeLittleEndian, Pow, Field, HeaderFront;
    Powers256();
    var front, pos, flag := HeaderFront(h), EncodeLittleEndian(h.logPos, 4), EncodeLittleEndian(h.flag, 2);
    var data := front + (HeaderBack(h) + extra);
    assert data == front + (pos + (flag + extra));
    assert data == (front + pos) + (flag + extra);
    FieldAt(front, h.logPos, 4, flag + extra);
    FieldAt(front + pos, h.flag, 2, extra);
  }

  /** A written header is read back, field by field. */
  lemma HeaderOnWire(h: EventHeader, extra: bytes)
    requires Written(h, extra)
    ensures DecodeEventHeader(h.data, |h.data|) == Ok(h)
  {
    hide HeaderFront, HeaderBack, Field, Pow;
    Powers256();
    FrontFields(h, HeaderBack(h) + extra);
    FrontFields(h, []);
    BackFields(h, extra);
    assert HeaderFront(h) + [] == HeaderFront(h);
  }

  /** Headers of fewer than 13 bytes, and of 14 to 18, are refused, and so are those that are cut short. */
  lemma HeadersRefused(data: bytes, size: nat)
    requires size < 13 || 14 <= size <= 18 || |data| < size
    ensures DecodeEventHeader(data, size) == Err(Invalid)
  {
  }

  // ---- bodies ----

  /** The log's current description says that events end in a checksum. */
  predicate Checksummed(ctx: Context) { ctx.desc.Some? && ctx.desc.value.hasChecksum }

  /** A right checksum is cut off and a wrong one refuses the body, which without checksums comes back whole. */
  lemma ChecksumCut(env: Env, ctx: Context, h: EventHeader, payload: bytes, trailer: bytes)
    requires |h.data| + |payload| + |trailer| == h.eventSize
    requires if Checksummed(ctx) then |trailer| == 4 else trailer == []
    ensures ValidateData(env, ctx, h, payload + trailer)
            == if Checksummed(ctx) && trailer != env.crc(h.data + payload) then Err(Invalid) else Ok(payload)
  {
    Concat(payload, trailer);
    assert |payload + trailer| - 4 == |payload| || !Checksummed(ctx);
    if !Checksummed(ctx) { assert payload + trailer == payload; }
  }

  /** A body of another size than its header says, or with no room for its checksum, is refused. */
  lemma BodiesRefused(env: Env, ctx: Context, h: EventHeader, body: bytes)
    requires |h.data| + |body| != h.eventSize || (Checksummed(ctx) && |body| < 4)
    ensures ValidateData(env, ctx, h, body) == Err(Invalid)
  {
  }

  // ---- frames ----

  /** Strict mode knows built-in and plugin types, Auto those the log itself declares as well, Loose all. */
  predicate Known(env: Env, o: Options, ctx: Context, typ: byte) {
    match o.mode
    case Loose => true
    case Strict => typ in env.builtin + ctx.plugins
    case Auto => typ in env.builtin + ctx.plugins
                 || (ctx.desc.Some? && 1 <= typ <= |ctx.desc.value.postHeaders|)
  }

  /** The event begins before the start position, or was written before the start time. */
  predicate Before(o: Options, h: EventHeader) {
    || (o.startPos != 0 && h.logPos < o.startPos + h.eventSize)
    || (o.startTime.Some? && 1_000_000_000 * h.timestamp < o.startTime.value)
  }

  /** What becomes of a payload. */
  function Handled(env: Env, ctx: Context, h: EventHeader, payload: bytes): Turn
    requires |payload| < MAX_PAYLOAD
  {
    var r := DecodeEventBody(env, ctx, h.eventType, payload);
    if r.Ok? then Turn(Decoded(h, r.value.body), r.value.ctx) else Turn(Stopped(r.error), ctx)
  }

  /** A frame written with these header fields, this payload and this trailer, in every case: its type is not known,
      or it lies before the start, or its checksum is wrong, or its payload is decoded under the header it was written
      with. Headers have 19 bytes until a description says otherwise. */
  lemma FrameOnWire(env: Env, o: Options, ctx: Context, h: EventHeader, extra: bytes, payload: bytes, trailer: bytes)
    requires Written(h, extra) && |h.data| == if ctx.desc.None? then 19 else ctx.desc.value.headerLength
    requires |h.data| + |payload| + |trailer| == h.eventSize
    requires if Checksummed(ctx) then |trailer| == 4 else trailer == []
    ensures DecodeRaw(env, o, ctx, h.data + (payload + trailer))
            == if !Known(env, o, ctx, h.eventType) then Turn(Stopped(Invalid), ctx)
               else if h.eventType != 0x0f && Before(o, h) then Turn(Skipped, ctx)
               else if Checksummed(ctx) && trailer != env.crc(h.data + payload) then Turn(Stopped(Invalid), ctx)
               else Handled(env, ctx, h, payload)
  {
    hide ValidateData, DecodeEventBody, DecodeEventHeader, Written, CheckSkip, KnowsEventType, Known, Before;
    var frame := h.data + (payload + trailer);
    Concat(h.data, payload + trailer);
    assert frame[|h.data|..h.eventSize] == payload + trailer;
    HeaderOnWire(h, extra);
    assert Narrow(h) by { WrittenNarrow(h, extra); }
    ChecksumCut(env, ctx, h, payload, trailer);
    SkippedExactly(o, h);
    KnownExactly(env, o, ctx, h.eventType);
  }

  /** A frame that ends within its header, or before its announced size, is an unexpected end for the raw decoder and
      the end of the file for the other. */
  lemma FrameCutOff(env: Env, o: Options, ctx: Context, h: EventHeader, extra: bytes, part: bytes, n: nat)
    requires Written(h, extra) && |h.data| == if ctx.desc.None? then 19 else ctx.desc.value.headerLength
    requires n < |h.data| && |h.data| + |part| < h.eventSize && Known(env, o, ctx, h.eventType)
    ensures DecodeRaw(env, o, ctx, h.data[..n]).outcome == DecodeRaw(env, o, ctx, h.data + part).outcome
            == Stopped(UnexpectedEOF)
    ensures DecodeNext(env, o, ctx, h.data[..n]).outcome == DecodeNext(env, o, ctx, h.data + part).outcome
            == Stopped(EOF)
  {
    hide DecodeEventHeader, Written, CheckSkip, KnowsEventType, Known;
    Concat(h.data, part);
    HeaderOnWire(h, extra);
    KnownExactly(env, o, ctx, h.eventType);
  }

  lemma WrittenNarrow(h: EventHeader, extra: bytes)
    requires Written(h, extra)
    ensures Narrow(h)
  {
  }

  lemma SkippedExactly(o: Options, h: EventHeader)
    ensures CheckSkip(o, h) <==> h.eventType != 0x0f && Before(o, h)
  {
  }

  lemma KnownExactly(env: Env, o: Options, ctx: Context, typ: byte)
    ensures KnowsEventType(env, o, ctx, typ) <==> Known(env, o, ctx, typ)
  {
  }

  // ---- payloads ----

  /** `n` zero bytes. */
  function Padding(n: nat): (b: bytes)
    ensures |b| == n
  {
    if n == 0 then [] else Padding(n - 1) + [0]
  }

  lemma NoPadding()
    ensures Padding(0) == []
  {
  }

  lemma {:induction false} TrimPadding(version: bytes, n: nat)
    requires version == [] || version[|version| - 1] != 0
    ensures TrimTail(version + Padding(n)) == version
  {
    if n == 0 {
      assert version + [] == version;
    } else {
      TrimPadding(version, n - 1);
      assert (version + Padding(n))[..|version| + n - 1] == version + Padding(n - 1);
    }
  }

  lemma {:induction false} TrimAllZeros(n: nat)
    ensures TrimZeros(Padding(n)) == []
    decreases n
  {
    if n == 0 {
    } else {
      ZerosInFront(n);
      TrimAllZeros(n - 1);
    }
  }

  lemma {:induction false} ZerosInFront(n: nat)
    requires n > 0
    ensures Padding(n)[0] == 0 && Padding(n)[1..] == Padding(n - 1)
  {
    if n == 1 {
    } else {
      ZerosInFront(n - 1);
      assert Padding(n)[1..] == Padding(n - 1)[1..] + [0];
    }
  }

  /** A server version with neither a leading nor a trailing zero byte survives zeros around it. */
  lemma {:induction false} VersionOnWire(front: nat, version: bytes, n: nat)
    requires version == [] || (version[0] != 0 && version[|version| - 1] != 0)
    ensures TrimZeros(Padding(front) + (version + Padding(n))) == version
    decreases front
  {
    var all := Padding(front) + (version + Padding(n));
    if front > 0 {
      ZerosInFront(front);
      assert all[1..] == Padding(front - 1) + (version + Padding(n));
      VersionOnWire(front - 1, version, n);
    } else {
      assert all == version + Padding(n);
      if version == [] {
        assert all == Padding(n);
        TrimAllZeros(n);
      } else {
        TrimPadding(version, n);
      }
    }
  }

  /** A format description: log version, 50 bytes of server version, time, header length, post-header lengths. */
  function EncodeDescription(d: FmtDesc): bytes
    requires |d.version| <= 50 && d.headerLength < 256
  {
    EncodeLittleEndian(d.binlogVersion, 2)
    + ((d.version + Padding(50 - |d.version|))
       + (EncodeLittleEndian(d.createTime, 4) + ([d.headerLength] + d.postHeaders)))
  }

  lemma DescriptionFields(d: FmtDesc, data: bytes)
    requires d.binlogVersion < 0x1_0000 && d.createTime < 0x1_0000_0000 && d.headerLength < 256
    requires |d.version| <= 50 && data == EncodeDescription(d)
    ensures |data| == 57 + |d.postHeaders| && data[57..] == d.postHeaders && data[56] == d.headerLength
    ensures Field(data, 0, 2) == d.binlogVersion && Field(data, 52, 4) == d.createTime
    ensures data[2..52] == d.version + Padding(50 - |d.version|)
  {
    hide EncodeLittleEndian, Pow, Field, Padding;
    Powers256();
    var version := d.version + Padding(50 - |d.version|);
    var front, time := EncodeLittleEndian(d.binlogVersion, 2), EncodeLittleEndian(d.createTime, 4);
    var tail := [d.headerLength] + d.postHeaders;
    assert data == [] + (front + (version + (time + tail)));
    assert data == (front + version) + (time + tail);
    FieldAt([], d.binlogVersion, 2, version + (time + tail));
    FieldAt(front + version, d.createTime, 4, tail);
  }

  /** Type 0x0f: the description is read back and replaces the one before it; the first one settles the types that
      the plugin for its server version adds. */
  lemma DescriptionOnWire(env: Env, ctx: Context, d: FmtDesc)
    requires d.binlogVersion < 0x1_0000 && d.createTime < 0x1_0000_0000 && d.headerLength < 256
    requires |d.version| <= 50 && |d.postHeaders| < MAX_PAYLOAD - 57
    requires d.version == [] || (d.version[0] != 0 && d.version[|d.version| - 1] != 0)
    requires env.hasChecksum(d.version) == Ok(d.hasChecksum)
    ensures DecodeEventBody(env, ctx, 0x0f, EncodeDescription(d))
            == Ok(Change(FmtBody(d),
                         Context(Some(d), ctx.tables,
                                 if ctx.pluginsApplied then ctx.plugins else env.pluginTypes(d.version), true)))
  {
    hide EncodeDescription, Pow, Field, TrimZeros, Padding;
    DescriptionFields(d, EncodeDescription(d));
    var version := d.version + Padding(50 - |d.version|);
    assert Padding(0) + version == version by { NoPadding(); }
    VersionOnWire(0, d.version, 50 - |d.version|);
  }

  /** Type 0x13: the table map is read back, and its table is known by it from then on. */
  lemma TableMapEventOnWire(env: Env, ctx: Context, t: TableMap, width: nat)
    requires ctx.desc.Some? && |ctx.desc.value.postHeaders| >= 19
    requires width == if ctx.desc.value.postHeaders[18] == 6 then 4 else 6
    requires WellFormedMap(t, width) && |Encode(t, width)| < MAX_PAYLOAD
    ensures DecodeEventBody(env, ctx, 0x13, Encode(t, width))
            == Ok(Change(TableMapBody(t), ctx.(tables := ctx.tables[t.tableID := t])))
  {
    hide WellFormedMap, Encode, Decode;
    TableMapRoundTrip(t, ctx.desc, width);
    assert Consistent(t) by { WellFormedConsistent(t, width); }
  }

  lemma WellFormedConsistent(t: TableMap, width: nat)
    requires WellFormedMap(t, width)
    ensures Consistent(t)
  {
  }

  /** Types 0x14 to 0x19, 0x1e to 0x20 and 0x27 are rows events; any other is left to code outside the model. Neither
      changes the context. */
  lemma OtherEventsOnWire(env: Env, ctx: Context, typ: byte, data: bytes)
    requires typ != 0x0f && typ != 0x13 && |data| < MAX_PAYLOAD
    ensures var r := DecodeEventBody(env, ctx, typ, data);
            if 0x14 <= typ <= 0x19 || 0x1e <= typ <= 0x20 || typ == 0x27 then
              var rows := DecodeRowsEvent(data, ctx.desc, ctx.tables, typ);
              r == if rows.Ok? then Ok(Change(RowsBody(rows.value), ctx)) else Err(rows.error)
            else
              var other := env.other(typ, data, ctx.desc);
              r == if other.Ok? then Ok(Change(OtherBody(other.value), ctx)) else Err(other.error)
  {
    hide DecodeRowsEvent;
  }

  // ---- bounds over whole runs ----

  /** The event ends after the stop position, or was written at or after the second of the stop time. */
  predicate Beyond(o: Options, h: EventHeader) {
    || (o.endPos != 0 && h.logPos > o.endPos)
    || (o.endTime.Some? && h.timestamp >= o.endTime.value / 1_000_000_000)
  }

  lemma StopsExactly(o: Options, h: EventHeader)
    ensures NeedStop(o, h) <==> Beyond(o, h)
  {
  }

  /** Whatever a log holds, its iterator hands out nothing before the start bounds but format descriptions, and
      nothing beyond the stop bounds. */
  lemma {:induction false} RunWithinBounds(env: Env, o: Options, ctx: Context, buf: bytes)
    ensures forall e :: e in RunFile(env, o, ctx, buf).events ==>
              !Beyond(o, e.header) && (e.header.eventType == 0x0f || !Before(o, e.header))
    decreases |buf|
  {
    hide NeedStop, CheckSkip, Beyond, Before;
    var n := DecodeNext(env, o, ctx, buf);
    match n.outcome
    case Stopped(_) =>
    case Skipped => RunWithinBounds(env, o, n.ctx, n.rest);
    case Decoded(h, body) =>
      StopsExactly(o, h);
      SkippedExactly(o, h);
      DecodedUnskipped(env, o, ctx, buf);
      if !NeedStop(o, h) { RunWithinBounds(env, o, n.ctx, n.rest); }
  }

  lemma DecodedUnskipped(env: Env, o: Options, ctx: Context, buf: bytes)
    ensures var n := DecodeNext(env, o, ctx, buf);
            n.outcome.Decoded? ==> !CheckSkip(o, n.outcome.header)
  {
    hide ReadHeader, CheckSkip, ValidateData, DecodeEventBody;
  }

  // ---- whole logs ----

  /** An event as a server logs it; `extra` is what a long header has behind its fields. */
  datatype Logged = Logged(header: EventHeader, extra: bytes, payload: bytes)

  /** The checksum that a server puts behind a payload, when it does. */
  function Trailer(env: Env, ctx: Context, l: Logged): bytes {
    if Checksummed(ctx) then env.crc(l.header.data + l.payload) else []
  }

  function FrameOf(env: Env, ctx: Context, l: Logged): bytes { l.header.data + (l.payload + Trailer(env, ctx, l)) }

  /** The event is of a known type and its header says where it lies: its bytes, their number and its size are right in
      this context. */
  predicate WellLogged(env: Env, o: Options, ctx: Context, l: Logged) {
    && Written(l.header, l.extra) && Known(env, o, ctx, l.header.eventType)
    && |l.header.data| == (if ctx.desc.None? then 19 else ctx.desc.value.headerLength)
    && (Checksummed(ctx) ==> |Trailer(env, ctx, l)| == 4)
    && |FrameOf(env, ctx, l)| == l.header.eventSize
  }

  predicate Skips(o: Options, h: EventHeader) { h.eventType != 0x0f && Before(o, h) }

  /** Every event is written for the context that the events before it leave behind. */
  predicate LogWritten(env: Env, o: Options, ctx: Context, log: seq<Logged>)
    decreases |log|
  {
    if log == [] then ctx.desc.Some? ==> ctx.desc.value.headerLength > 0
    else
      && WellLogged(env, o, ctx, log[0])
      && if Skips(o, log[0].header) then LogWritten(env, o, ctx, log[1..])
         else
           var r := DecodeEventBody(env, ctx, log[0].header.eventType, log[0].payload);
           r.Ok? && !Beyond(o, log[0].header) ==> LogWritten(env, o, r.value.ctx, log[1..])
  }

  /** The file: header lengths and checksums change as descriptions come by. */
  function LogBytes(env: Env, o: Options, ctx: Context, log: seq<Logged>): bytes
    requires LogWritten(env, o, ctx, log)
    decreases |log|
  {
    if log == [] then []
    else
      FrameOf(env, ctx, log[0])
      + if Skips(o, log[0].header) then LogBytes(env, o, ctx, log[1..])
        else
          var r := DecodeEventBody(env, ctx, log[0].header.eventType, log[0].payload);
          if r.Ok? && !Beyond(o, log[0].header) then LogBytes(env, o, r.value.ctx, log[1..]) else []
  }

  /** What was logged within the bounds, each body decoded in the context of those before it. */
  function Told(env: Env, o: Options, ctx: Context, log: seq<Logged>): Run
    requires LogWritten(env, o, ctx, log)
    decreases |log|
  {
    if log == [] then Run([], AtEOF)
    else if Skips(o, log[0].header) then Told(env, o, ctx, log[1..])
    else
      var r := DecodeEventBody(env, ctx, log[0].header.eventType, log[0].payload);
      if r.Err? then Run([], ErrorEnd(r.error))
      else if Beyond(o, log[0].header) then Run([], AtStop)
      else Yield(Event(log[0].header, r.value.body), Told(env, o, r.value.ctx, log[1..]))
  }

  lemma PayloadFits(env: Env, o: Options, ctx: Context, l: Logged)
    requires WellLogged(env, o, ctx, l)
    ensures |l.payload| < MAX_PAYLOAD
  {
    hide Known;
  }

  /** A logged frame at the front of a file: skipped, or its payload decoded; and the file moves on by the frame. */
  lemma FrameInFile(env: Env, o: Options, ctx: Context, l: Logged, rest: bytes)
    requires WellLogged(env, o, ctx, l)
    ensures var next := DecodeNext(env, o, ctx, FrameOf(env, ctx, l) + rest);
            var turn := if Skips(o, l.header) then Turn(Skipped, ctx) else Handled(env, ctx, l.header, l.payload);
            next.outcome == turn.outcome && next.ctx == turn.ctx && (!turn.outcome.Stopped? ==> next.rest == rest)
  {
    hide DecodeNext, DecodeRaw, DecodeEventBody, Written, Known, Before, Framed, SoundSkip;
    FrameOnWire(env, o, ctx, l.header, l.extra, l.payload, Trailer(env, ctx, l));
    FrameSound(env, o, ctx, l);
    FrameAgreement(env, o, ctx, FrameOf(env, ctx, l), rest);
  }

  lemma FrameSound(env: Env, o: Options, ctx: Context, l: Logged)
    requires WellLogged(env, o, ctx, l)
    ensures var frame := FrameOf(env, ctx, l);
            Framed(env, o, ctx, frame) && SoundSkip(env, o, ctx, frame)
  {
    hide ValidateData, DecodeEventHeader, Written, CheckSkip, Known, KnowsEventType;
    Concat(l.header.data, l.payload + Trailer(env, ctx, l));
    HeaderOnWire(l.header, l.extra);
    ChecksumCut(env, ctx, l.header, l.payload, Trailer(env, ctx, l));
  }

  /** Whatever a server logs, in whatever bounds it is read, the file is decoded to what was logged, with every header
      field and every body, however header length, checksums and table maps change on the way. */
  lemma {:induction false} LogRoundTrip(env: Env, o: Options, ctx: Context, log: seq<Logged>)
    requires LogWritten(env, o, ctx, log)
    ensures RunFile(env, o, ctx, LogBytes(env, o, ctx, log)) == Told(env, o, ctx, log)
    decreases |log|
  {
    hide DecodeNext, DecodeEventBody, WellLogged, FrameOf, Before, Beyond, NeedStop;
    if log == [] {
      NothingLeft(env, o, ctx);
    } else {
      var l := log[0];
      StopsExactly(o, l.header);
      assert |l.payload| < MAX_PAYLOAD by { PayloadFits(env, o, ctx, l); }
      var r := DecodeEventBody(env, ctx, l.header.eventType, l.payload);
      if Skips(o, l.header) {
        FrameInFile(env, o, ctx, l, LogBytes(env, o, ctx, log[1..]));
        LogRoundTrip(env, o, ctx, log[1..]);
      } else if r.Ok? && !Beyond(o, l.header) {
        FrameInFile(env, o, ctx, l, LogBytes(env, o, r.value.ctx, log[1..]));
        LogRoundTrip(env, o, r.value.ctx, log[1..]);
      } else {
        FrameInFile(env, o, ctx, l, []);
      }
    }
  }
}
