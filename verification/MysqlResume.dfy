/** Reopening a binlog at a checkpoint (mysql/backend/backend.go, mysql/decode/decoder/options.go,
    mysql/decode/decoder/dblog.go): position text, the start bound, and how a resumed run relates to
    the full one. */
module MysqlResume {
  import opened Bytes
  import opened Numerals
  import opened Text
  import opened MysqlTableMap
  import opened MysqlRows
  import opened MysqlDecoder
  import Recovery

  const DRIVER := "mysql"

  // ---- position text ----

  function PositionString(file: string, pos: nat): string {
    if file == "" then Itoa(pos) else file + ":" + Itoa(pos)
  }

  function ParsePosition(position: string): Option<int> { ParseInt(position[AfterLast(position, ':')..]) }

  function StartFile(position: string): string {
    if AfterLast(position, ':') > 0 then position[..AfterLast(position, ':') - 1] else ""
  }

  function StartPosition(position: Recovery.Position): (r: Result<nat>) {
    if position.value == "" then Ok(0)
    else if position.driver != "" && position.driver != DRIVER then Err(Invalid)
    else
      var n := ParsePosition(position.value);
      if n.None? || n.value < 0 then Err(Invalid) else Ok(n.value)
  }

  lemma {:induction false} NoneAfter(s: string, digits: string, c: char)
    requires c !in digits
    ensures AfterLast(s + [c] + digits, c) == |s| + 1
    ensures AfterLast(digits, c) == 0
    decreases |digits|
  {
    var t := s + [c] + digits;
    if digits == "" {
      assert t == s + [c];
    } else {
      var d := digits[..|digits| - 1];
      NoneAfter(s, d, c);
      assert t[..|t| - 1] == s + [c] + d && t[|t| - 1] == digits[|digits| - 1];
    }
  }

  /** Position text converts back to the same file and number, for every file name, colons and all. */
  lemma PositionRoundTrip(file: string, pos: nat)
    requires pos < TWO_63
    ensures ParsePosition(PositionString(file, pos)) == Some(pos)
    ensures StartFile(PositionString(file, pos)) == file
  {
    var digits := Itoa(pos);
    ParseIntOfItoa(pos);
    NoneAfter(file, digits, ':');
    if file == "" {
      assert digits[0..] == digits;
    } else {
      Concat(file + ":", digits);
      Assoc(file, ":", digits);
      Concat(file, ":" + digits);
    }
  }

  /** Which positions a log opens at: no text is the beginning whatever the driver; otherwise the number behind the
      last colon counts, when it is not negative and the driver is this one or none. */
  lemma StartsAt(driver: string, file: string, n: int)
    requires -TWO_63 <= n < TWO_63
    ensures StartPosition(Recovery.Position(driver, "")) == Ok(0)
    ensures StartPosition(Recovery.Position(driver, file + ":" + Itoa(n)))
            == if n >= 0 && (driver == "" || driver == "mysql") then Ok(n) else Err(Invalid)
  {
    hide AfterLast;
    var text := file + ":" + Itoa(n);
    ParseIntOfItoa(n);
    assert ':' !in Itoa(n) by { assert n < 0 ==> forall c :: c in Digits(-n) ==> IsDigit(c); }
    NoneAfter(file, Itoa(n), ':');
    assert text[|file| + 1..] == Itoa(n);
  }

  // ---- opening a log ----

  function StartAt(start: nat, mode: Mode): Options { Options(start, 0, None, None, mode) }

  /** Drops events that end at or before the start; one whose position does not parse is kept. */
  function EventsAfter(events: seq<Event>, file: string, start: nat): seq<Event> {
    if events == [] then []
    else
      var position := ParsePosition(PositionString(file, events[0].header.logPos));
      if position.Some? && position.value <= start then EventsAfter(events[1..], file, start)
      else [events[0]] + EventsAfter(events[1..], file, start)
  }

  /** The loop over the inner iterator. */
  method EventsAfterLoop(events: seq<Event>, file: string, start: nat) returns (kept: seq<Event>)
    ensures kept == EventsAfter(events, file, start)
  {
    hide ParsePosition, PositionString;
    kept := [];
    assert events[0..] == events;
    for i := 0 to |events|
      invariant EventsAfter(events, file, start) == kept + EventsAfter(events[i..], file, start)
    {
      Cursor(events, i, 1);
      var position := ParsePosition(PositionString(file, events[i].header.logPos));
      if position.Some? && position.value <= start { continue; }
      Assoc(kept, [events[i]], EventsAfter(events[i + 1..], file, start));
      kept := kept + [events[i]];
    }
  }

  /** What a backend opened over a log yields; `log` is the file after its four magic bytes. */
  function Open(env: Env, mode: Mode, log: bytes, file: string, position: Recovery.Position): Result<Run> {
    var start :- StartPosition(position);
    var run := RunFile(env, StartAt(start, mode), EMPTY_CONTEXT, log);
    Ok(if start > 0 then Run(EventsAfter(run.events, file, start), run.end) else run)
  }

  /** The position part of an event's checkpoint. */
  function PositionOf(file: string, e: Event): Recovery.Position {
    Recovery.Position(DRIVER, PositionString(file, e.header.logPos))
  }

  // ---- how a resumed run differs ----

  /** A rows event whose table map was not seen: its header and bitmaps, the error mark, and no rows. */
  function Unresolved(r: RowsEvent): RowsEvent {
    r.(schema := [], table := [], rows := [], before := [], after := [], decodeError := true)
  }

  function Mapped(e: Event): set<nat> { if e.body.TableMapBody? then {e.body.table.tableID} else {} }

  function ResumedEvent(e: Event, seen: set<nat>): Event {
    if e.body.RowsBody? && e.body.rows.tableID !in seen then e.(body := RowsBody(Unresolved(e.body.rows))) else e
  }

  /** The same events, each rows event resolved only if its table is among those mapped since the start. */
  function Resumed(events: seq<Event>, seen: set<nat>): (r: seq<Event>)
    ensures |r| == |events|
  {
    if events == [] then []
    else [ResumedEvent(events[0], seen)] + Resumed(events[1..], seen + Mapped(events[0]))
  }

  function MappedIn(events: seq<Event>): set<nat> {
    if events == [] then {} else Mapped(events[0]) + MappedIn(events[1..])
  }

  /** Event by event: headers never differ, and a body differs exactly when it is a resolved rows event whose
      table map lies before the start. */
  lemma {:induction false} ResumedAt(events: seq<Event>, seen: set<nat>, j: nat)
    requires j < |events|
    ensures Resumed(events, seen)[j] == ResumedEvent(events[j], seen + MappedIn(events[..j]))
  {
    if j > 0 {
      ResumedAt(events[1..], seen + Mapped(events[0]), j - 1);
      assert events[..j][1..] == events[1..][..j - 1];
      assert seen + Mapped(events[0]) + MappedIn(events[1..][..j - 1]) == seen + MappedIn(events[..j]);
    } else {
      assert seen + MappedIn([]) == seen;
    }
  }

  // ---- the two runs in lockstep ----

  /** The resumed decoder knows the same description and types, and exactly the maps seen since the start,
      each the latest one: a stale map is never used. */
  predicate Behind(full: Context, resumed: Context, seen: set<nat>) {
    && resumed.desc == full.desc && resumed.plugins == full.plugins && resumed.pluginsApplied == full.pluginsApplied
    && resumed.tables.Keys == seen
    && forall id :: id in resumed.tables ==> id in full.tables && resumed.tables[id] == full.tables[id]
  }

  function Start(e: Event): int { e.header.logPos - e.header.eventSize }

  /** What one body decodes to in both runs, and what it leaves them with. */
  predicate BodiesInStep(f: Result<Change>, r: Result<Change>, seen: set<nat>, h: EventHeader) {
    && (f.Ok? ==> r.Ok? && Event(h, r.value.body) == ResumedEvent(Event(h, f.value.body), seen)
                  && Behind(f.value.ctx, r.value.ctx, seen + Mapped(Event(h, f.value.body))))
    && (f == Err(EOF) ==> r == f)
  }

  /** A map remembered by both runs is seen by both from then on. */
  lemma RememberInStep(full: Context, resumed: Context, seen: set<nat>, t: TableMap)
    requires Behind(full, resumed, seen) && Consistent(t)
    ensures Behind(Remember(full, t), Remember(resumed, t), seen + {t.tableID})
  {
  }

  lemma MapInStep(env: Env, full: Context, resumed: Context, seen: set<nat>, h: EventHeader, payload: bytes)
    requires |payload| < MAX_PAYLOAD && Behind(full, resumed, seen) && h.eventType == TABLE_MAP_EVENT
    ensures BodiesInStep(DecodeEventBody(env, full, h.eventType, payload),
                         DecodeEventBody(env, resumed, h.eventType, payload), seen, h)
  {
    hide Decode, Behind, Remember;
    var table := Decode(payload, full.desc);
    assert full.desc == resumed.desc by { SameDescription(full, resumed, seen); }
    if table.Ok? { RememberInStep(full, resumed, seen, table.value); }
  }

  lemma SameDescription(full: Context, resumed: Context, seen: set<nat>)
    requires Behind(full, resumed, seen)
    ensures full.desc == resumed.desc
  {
  }

  lemma DescriptionInStep(env: Env, full: Context, resumed: Context, seen: set<nat>, h: EventHeader, payload: bytes)
    requires |payload| < MAX_PAYLOAD && Behind(full, resumed, seen) && h.eventType == FORMAT_DESCRIPTION_EVENT
    ensures BodiesInStep(DecodeEventBody(env, full, h.eventType, payload),
                         DecodeEventBody(env, resumed, h.eventType, payload), seen, h)
  {
    hide DecodeFmtDesc;
    assert seen + {} == seen;
  }

  /** One event that is decoded in both runs. */
  lemma BodyInStep(env: Env, full: Context, resumed: Context, seen: set<nat>, h: EventHeader, payload: bytes)
    requires |payload| < MAX_PAYLOAD && Behind(full, resumed, seen)
    ensures BodiesInStep(DecodeEventBody(env, full, h.eventType, payload),
                         DecodeEventBody(env, resumed, h.eventType, payload), seen, h)
  {
    hide DecodeFmtDesc, Decode, DecodeRowsEvent, IsRowsType;
    if h.eventType == FORMAT_DESCRIPTION_EVENT {
      DescriptionInStep(env, full, resumed, seen, h, payload);
    } else if h.eventType == TABLE_MAP_EVENT {
      MapInStep(env, full, resumed, seen, h, payload);
    } else {
      assert seen + {} == seen;
      if IsRowsType(h.eventType) { RowsInStep(payload, full, resumed, seen, h.eventType); }
    }
  }

  lemma RowsInStep(payload: bytes, full: Context, resumed: Context, seen: set<nat>, typ: byte)
    requires Behind(full, resumed, seen)
    ensures var f := DecodeRowsEvent(payload, full.desc, full.tables, typ);
            var r := DecodeRowsEvent(payload, resumed.desc, resumed.tables, typ);
            f.Ok? ==> r == Ok(if f.value.tableID in seen then f.value else Unresolved(f.value))
  {
    hide DecodeHeader, DecodeBody;
    var h := DecodeHeader(payload, full.desc, typ);
    if h.Ok? {
      var id := h.value.event.tableID;
      HeaderNames(payload, full.desc, typ);
      if id in full.tables && DecodeBody(h.value, full.tables[id], typ).Ok? {
        BodyHeader(h.value, full.tables[id], typ);
      }
    }
  }

  lemma HeaderNames(payload: bytes, desc: Option<FmtDesc>, typ: byte)
    requires DecodeHeader(payload, desc, typ).Ok?
    ensures var e := DecodeHeader(payload, desc, typ).value.event;
            Unresolved(e) == e.(decodeError := true)
  {
    hide TableIDLength, ExtraData, LengthEncodedInt, Expect, BitmapByteSize;
  }

  /** Decoding the rows adds to the header and changes nothing in it. */
  lemma BodyHeader(h: Header, table: TableMap, typ: byte)
    requires Consistent(table) && DecodeBody(h, table, typ).Ok?
    ensures var e := DecodeBody(h, table, typ).value;
            e.tableID == h.event.tableID && Unresolved(e) == Unresolved(h.event)
  {
    hide DecodePairs, DecodeRowList;
  }

  /** The run reads its input to the very end, meeting no error on the way. */
  predicate Complete(env: Env, o: Options, ctx: Context, buf: bytes)
    decreases |buf|
  {
    var n := DecodeNext(env, o, ctx, buf);
    if n.outcome.Stopped? then n.outcome.error == EOF && n.rest == [] else Complete(env, o, n.ctx, n.rest)
  }

  lemma HeaderInStep(env: Env, mode: Mode, p: nat, full: Context, resumed: Context, seen: set<nat>, data: bytes)
    requires Behind(full, resumed, seen)
    ensures HeaderLength(full) == HeaderLength(resumed)
    ensures ReadHeader(env, StartAt(0, mode), full, data) == ReadHeader(env, StartAt(p, mode), resumed, data)
    ensures forall h, body :: ValidateData(env, full, h, body) == ValidateData(env, resumed, h, body)
  {
    hide DecodeEventHeader;
  }

  lemma NeverSkipped(mode: Mode, p: nat, h: EventHeader)
    ensures !CheckSkip(StartAt(0, mode), h)
    ensures CheckSkip(StartAt(p, mode), h)
            <==> h.eventType != FORMAT_DESCRIPTION_EVENT && p != 0 && h.logPos - h.eventSize < p
  {
  }

  /** An event that both runs decode: same header, same bytes consumed, contexts still in step. */
  lemma DecodedInStep(env: Env, mode: Mode, p: nat, full: Context, resumed: Context, seen: set<nat>, buf: bytes)
    requires Behind(full, resumed, seen)
    requires var f := DecodeNext(env, StartAt(0, mode), full, buf);
             f.outcome.Decoded? && !CheckSkip(StartAt(p, mode), f.outcome.header)
    ensures var f, r := DecodeNext(env, StartAt(0, mode), full, buf), DecodeNext(env, StartAt(p, mode), resumed, buf);
            var e := Event(f.outcome.header, f.outcome.body);
            && r.outcome == Decoded(e.header, ResumedEvent(e, seen).body) && r.rest == f.rest
            && ResumedEvent(e, seen).header == e.header
            && Behind(f.ctx, r.ctx, seen + Mapped(e)) && e.header.eventSize > 0
            && (e.body.FmtBody? <==> e.header.eventType == FORMAT_DESCRIPTION_EVENT)
  {
    hide ReadHeader, CheckSkip, ValidateData, Behind, ResumedEvent, Mapped, DecodeFmtDesc, Decode, DecodeRowsEvent;
    var length := HeaderLength(full);
    HeaderInStep(env, mode, p, full, resumed, seen, buf[..length]);
    var h := ReadHeader(env, StartAt(0, mode), full, buf[..length]).value;
    NeverSkipped(mode, p, h);
    var payload := ValidateData(env, full, h, buf[length..][..h.eventSize - length]).value;
    BodyInStep(env, full, resumed, seen, h, payload);
    HeaderKept(Event(h, DecodeNext(env, StartAt(0, mode), full, buf).outcome.body), seen);
  }

  lemma HeaderKept(e: Event, seen: set<nat>)
    ensures ResumedEvent(e, seen).header == e.header
  {
  }

  /** An event that only the full run decodes: the other reads past the same bytes and learns nothing. */
  lemma SkippedInStep(env: Env, mode: Mode, p: nat, full: Context, resumed: Context, buf: bytes)
    requires Behind(full, resumed, {})
    requires var f := DecodeNext(env, StartAt(0, mode), full, buf);
             f.outcome.Decoded? && CheckSkip(StartAt(p, mode), f.outcome.header)
    ensures var f, r := DecodeNext(env, StartAt(0, mode), full, buf), DecodeNext(env, StartAt(p, mode), resumed, buf);
            && r.outcome == Skipped && r.rest == f.rest && Behind(f.ctx, r.ctx, {})
            && !f.outcome.body.FmtBody? && f.outcome.header.eventSize > 0
  {
    hide ReadHeader, ValidateData, DecodeFmtDesc, Decode, DecodeRowsEvent;
    var length := HeaderLength(full);
    HeaderInStep(env, mode, p, full, resumed, {}, buf[..length]);
    var h := ReadHeader(env, StartAt(0, mode), full, buf[..length]).value;
    NeverSkipped(mode, p, h);
  }

  /** Where the full run ends, so does the resumed one. */
  lemma EndInStep(env: Env, mode: Mode, p: nat, full: Context, resumed: Context, seen: set<nat>, buf: bytes)
    requires Behind(full, resumed, seen)
    requires var f := DecodeNext(env, StartAt(0, mode), full, buf);
             f.outcome == Stopped(EOF) && f.rest == []
    ensures RunFile(env, StartAt(p, mode), resumed, buf) == Run([], AtEOF)
  {
    hide ReadHeader, CheckSkip, ValidateData, Behind, DecodeEventBody;
    var length := HeaderLength(full);
    if |buf| >= length {
      HeaderInStep(env, mode, p, full, resumed, seen, buf[..length]);
      var header := ReadHeader(env, StartAt(0, mode), full, buf[..length]);
      HeaderErrors(env, StartAt(0, mode), full, buf[..length]);
      var h := header.value;
      NeverSkipped(mode, p, h);
      if h.eventSize - length <= |buf| - length {
        ValidationErrors(env, full, h, buf[length..][..h.eventSize - length]);
        var payload := ValidateData(env, full, h, buf[length..][..h.eventSize - length]).value;
        BodyInStep(env, full, resumed, seen, h, payload);
        if CheckSkip(StartAt(p, mode), h) { NothingLeft(env, StartAt(p, mode), resumed); }
      }
    } else {
      assert HeaderLength(resumed) == length by { HeaderInStep(env, mode, p, full, resumed, seen, []); }
    }
  }

  lemma HeaderErrors(env: Env, o: Options, ctx: Context, data: bytes)
    ensures ReadHeader(env, o, ctx, data) != Err(EOF)
    ensures ReadHeader(env, o, ctx, data).Ok? ==> HeaderLength(ctx) > 0
  {
  }

  lemma ValidationErrors(env: Env, ctx: Context, h: EventHeader, body: bytes)
    ensures ValidateData(env, ctx, h, body) != Err(EOF)
  {
  }

  /** From the start bound on, the runs yield the same events but for unresolved rows. */
  lemma {:induction false} AfterStart(env: Env, mode: Mode, p: nat, full: Context, resumed: Context,
                                      seen: set<nat>, buf: bytes)
    requires Behind(full, resumed, seen) && Complete(env, StartAt(0, mode), full, buf)
    requires forall e :: e in RunFile(env, StartAt(0, mode), full, buf).events ==> Start(e) >= p
    ensures RunFile(env, StartAt(p, mode), resumed, buf)
            == Run(Resumed(RunFile(env, StartAt(0, mode), full, buf).events, seen), AtEOF)
    decreases |buf|
  {
    hide DecodeNext, Behind, CheckSkip, ResumedEvent, Mapped;
    var f := DecodeNext(env, StartAt(0, mode), full, buf);
    NoSkips(env, mode, full, buf);
    if f.outcome.Stopped? {
      EndInStep(env, mode, p, full, resumed, seen, buf);
    } else {
      var e := Event(f.outcome.header, f.outcome.body);
      var rest := RunFile(env, StartAt(0, mode), f.ctx, f.rest);
      assert RunFile(env, StartAt(0, mode), full, buf).events == [e] + rest.events;
      assert Start(e) >= p;
      NeverSkipped(mode, p, e.header);
      DecodedInStep(env, mode, p, full, resumed, seen, buf);
      var r := DecodeNext(env, StartAt(p, mode), resumed, buf);
      AfterStart(env, mode, p, f.ctx, r.ctx, seen + Mapped(e), f.rest);
      assert ([e] + rest.events)[1..] == rest.events;
    }
  }

  lemma NoSkips(env: Env, mode: Mode, ctx: Context, buf: bytes)
    ensures !DecodeNext(env, StartAt(0, mode), ctx, buf).outcome.Skipped?
  {
    hide ReadHeader, ValidateData, DecodeEventBody;
  }

  function Descriptions(events: seq<Event>): seq<Event> {
    if events == [] then []
    else (if events[0].body.FmtBody? then [events[0]] else []) + Descriptions(events[1..])
  }

  /** The first m events start before the bound and the others do not. */
  predicate Divided(events: seq<Event>, m: nat, p: nat) {
    && m <= |events|
    && (forall i :: 0 <= i < m ==> Start(events[i]) < p)
    && (forall i :: m <= i < |events| ==> Start(events[i]) >= p)
  }

  lemma DividedTail(e: Event, rest: seq<Event>, m: nat, p: nat)
    requires m > 0 && Divided([e] + rest, m, p)
    ensures Start(e) < p && Divided(rest, m - 1, p)
  {
    hide Start;
    var events := [e] + rest;
    assert events[0] == e;
    assert forall i :: 0 <= i < |rest| ==> rest[i] == events[i + 1];
  }

  lemma SplitCons(e: Event, rest: seq<Event>, m: nat)
    requires 0 < m <= |rest| + 1
    ensures ([e] + rest)[..m] == [e] + rest[..m - 1] && ([e] + rest)[m..] == rest[m - 1..]
    ensures ([e] + rest[..m - 1])[1..] == rest[..m - 1]
  {
  }

  /** Of the events before the start bound, only format descriptions come through. */
  lemma {:induction false} BeforeStart(env: Env, mode: Mode, p: nat, full: Context, resumed: Context,
                                       buf: bytes, m: nat)
    requires Behind(full, resumed, {}) && Complete(env, StartAt(0, mode), full, buf) && p != 0
    requires Divided(RunFile(env, StartAt(0, mode), full, buf).events, m, p)
    ensures var events := RunFile(env, StartAt(0, mode), full, buf).events;
            RunFile(env, StartAt(p, mode), resumed, buf)
            == Run(Descriptions(events[..m]) + Resumed(events[m..], {}), AtEOF)
    decreases m
  {
    hide DecodeNext, Behind, CheckSkip, ResumedEvent, Start, Divided, Mapped;
    var events := RunFile(env, StartAt(0, mode), full, buf).events;
    if m == 0 {
      assert forall e :: e in events ==> Start(e) >= p by { AllAfter(events, p); }
      AfterStart(env, mode, p, full, resumed, {}, buf);
      assert events[0..] == events && Descriptions([]) + Resumed(events, {}) == Resumed(events, {});
    } else {
      var f := DecodeNext(env, StartAt(0, mode), full, buf);
      NoSkips(env, mode, full, buf);
      DividedLength(events, m, p);
      var e := Event(f.outcome.header, f.outcome.body);
      var rest := RunFile(env, StartAt(0, mode), f.ctx, f.rest).events;
      DividedTail(e, rest, m, p);
      SplitCons(e, rest, m);
      StartOf(mode, p, e);
      var r := DecodeNext(env, StartAt(p, mode), resumed, buf);
      if CheckSkip(StartAt(p, mode), e.header) {
        SkippedInStep(env, mode, p, full, resumed, buf);
        BeforeStart(env, mode, p, f.ctx, r.ctx, f.rest, m - 1);
        assert [] + Descriptions(rest[..m - 1]) == Descriptions(rest[..m - 1]);
      } else {
        DecodedInStep(env, mode, p, full, resumed, {}, buf);
        DescriptionUnchanged(e, {});
        assert {} + Mapped(e) == {};
        BeforeStart(env, mode, p, f.ctx, r.ctx, f.rest, m - 1);
        Assoc([e], Descriptions(rest[..m - 1]), Resumed(rest[m - 1..], {}));
      }
    }
  }

  lemma AllAfter(events: seq<Event>, p: nat)
    requires Divided(events, 0, p)
    ensures forall e :: e in events ==> Start(e) >= p
  {
  }

  lemma DividedLength(events: seq<Event>, m: nat, p: nat)
    requires Divided(events, m, p)
    ensures m <= |events|
  {
  }

  lemma StartOf(mode: Mode, p: nat, e: Event)
    requires Start(e) < p && p != 0
    ensures CheckSkip(StartAt(p, mode), e.header) <==> e.header.eventType != FORMAT_DESCRIPTION_EVENT
  {
  }

  lemma DescriptionUnchanged(e: Event, seen: set<nat>)
    requires e.body.FmtBody?
    ensures Mapped(e) == {} && ResumedEvent(e, seen) == e
  {
  }

  // ---- resuming at a checkpoint ----

  /** End positions leave no gap: each event starts where the one before it ended. */
  predicate Contiguous(events: seq<Event>) {
    && (events != [] ==> Start(events[0]) >= 0)
    && forall i :: 0 < i < |events| ==> Start(events[i]) == events[i - 1].header.logPos
  }

  /** Sizes and positions that every decoded event has. */
  predicate Bounded(e: Event) { 0 < e.header.eventSize && e.header.logPos < MAX_PAYLOAD }

  lemma DecodedBounded(env: Env, o: Options, ctx: Context, buf: bytes)
    requires DecodeNext(env, o, ctx, buf).outcome.Decoded?
    ensures var d := DecodeNext(env, o, ctx, buf).outcome;
            Bounded(Event(d.header, d.body))
  {
    hide ReadHeader, ValidateData, DecodeEventBody, CheckSkip;
  }

  lemma {:induction false} RunBounded(env: Env, o: Options, ctx: Context, buf: bytes)
    ensures forall e :: e in RunFile(env, o, ctx, buf).events ==> Bounded(e)
    decreases |buf|
  {
    hide DecodeNext, NeedStop, Bounded;
    var n := DecodeNext(env, o, ctx, buf);
    if !n.outcome.Stopped? {
      RunBounded(env, o, n.ctx, n.rest);
      if n.outcome.Decoded? { DecodedBounded(env, o, ctx, buf); }
    }
  }

  lemma {:induction false} PositionsRise(events: seq<Event>, i: nat, j: nat)
    requires Contiguous(events) && i <= j < |events| && forall e :: e in events ==> Bounded(e)
    ensures 0 <= Start(events[i]) && events[i].header.logPos <= events[j].header.logPos
    ensures i < j ==> events[i].header.logPos <= Start(events[j])
    decreases j
  {
    if j == 0 {
    } else {
      assert events[j - 1] in events && events[j] in events;
      PositionsRise(events, if i < j then i else j - 1, j - 1);
    }
  }

  lemma CheckpointDivides(events: seq<Event>, k: nat)
    requires Contiguous(events) && k < |events| && forall e :: e in events ==> Bounded(e)
    ensures events[k].header.logPos > 0
    ensures Divided(events, k + 1, events[k].header.logPos)
    ensures forall i :: 0 <= i <= k ==> events[i].header.logPos <= events[k].header.logPos
    ensures forall i :: k < i < |events| ==> events[i].header.logPos > events[k].header.logPos
  {
    var p := events[k].header.logPos;
    PositionsRise(events, k, k);
    assert events[k] in events;
    forall i | 0 <= i <= k ensures events[i].header.logPos <= p && Start(events[i]) < p {
      PositionsRise(events, i, k);
      assert events[i] in events;
    }
    forall i | k < i < |events| ensures events[i].header.logPos > p && Start(events[i]) >= p {
      PositionsRise(events, k, i);
      assert events[i] in events;
    }
  }

  predicate Late(e: Event, p: nat) { p < e.header.logPos < MAX_PAYLOAD }
  predicate Early(e: Event, p: nat) { e.header.logPos <= p && e.header.logPos < MAX_PAYLOAD }

  lemma {:induction false} AllKept(events: seq<Event>, file: string, p: nat)
    requires forall e :: e in events ==> Late(e, p)
    ensures EventsAfter(events, file, p) == events
  {
    hide PositionString, ParsePosition;
    if events == [] {
    } else {
      assert Late(events[0], p);
      PositionRoundTrip(file, events[0].header.logPos);
      AllKept(events[1..], file, p);
    }
  }

  lemma {:induction false} AllDropped(dropped: seq<Event>, kept: seq<Event>, file: string, p: nat)
    requires forall e :: e in dropped ==> Early(e, p)
    requires forall e :: e in kept ==> Late(e, p)
    ensures EventsAfter(dropped + kept, file, p) == kept
  {
    hide PositionString, ParsePosition;
    if dropped == [] {
      assert dropped + kept == kept;
      AllKept(kept, file, p);
    } else {
      assert Early(dropped[0], p);
      PositionRoundTrip(file, dropped[0].header.logPos);
      assert (dropped + kept)[1..] == dropped[1..] + kept;
      AllDropped(dropped[1..], kept, file, p);
    }
  }

  lemma {:induction false} DescriptionsAmong(events: seq<Event>)
    ensures forall e :: e in Descriptions(events) ==> e in events
  {
    if events == [] {
    } else {
      DescriptionsAmong(events[1..]);
    }
  }

  lemma {:induction false} ResumedLate(events: seq<Event>, seen: set<nat>, p: nat)
    requires forall e :: e in events ==> Late(e, p)
    ensures forall e :: e in Resumed(events, seen) ==> Late(e, p)
  {
    hide ResumedEvent;
    if events == [] {
    } else {
      HeaderKept(events[0], seen);
      assert Late(events[0], p);
      ResumedLate(events[1..], seen + Mapped(events[0]), p);
    }
  }

  /** The description of an empty context and one behind it. */
  lemma EmptyBehind()
    ensures Behind(EMPTY_CONTEXT, EMPTY_CONTEXT, {})
  {
  }

  /** Resuming refines the full run. On a log that is read to its end without an error and whose end
      positions are contiguous, reopening at the checkpoint of event k yields exactly the events after k,
      none lost or repeated; each is the full run's, except that a rows event whose table was not mapped
      since k comes back unresolved. A table map from before k is never used. */
  lemma ResumeRefinesFullRun(env: Env, mode: Mode, log: bytes, file: string, k: nat)
    requires Complete(env, StartAt(0, mode), EMPTY_CONTEXT, log)
    requires Contiguous(RunFile(env, StartAt(0, mode), EMPTY_CONTEXT, log).events)
    requires k < |RunFile(env, StartAt(0, mode), EMPTY_CONTEXT, log).events|
    ensures var full := RunFile(env, StartAt(0, mode), EMPTY_CONTEXT, log);
            && Open(env, mode, log, file, Recovery.Position("", "")) == Ok(full)
            && Open(env, mode, log, file, PositionOf(file, full.events[k]))
               == Ok(Run(Resumed(full.events[k + 1..], {}), AtEOF))
  {
    hide RunFile, Complete, Contiguous, Divided, Bounded, EventsAfter, Resumed, Descriptions,
      ParsePosition, PositionString, Behind, Late, Early;
    var events := RunFile(env, StartAt(0, mode), EMPTY_CONTEXT, log).events;
    var p := events[k].header.logPos;
    RunBounded(env, StartAt(0, mode), EMPTY_CONTEXT, log);
    CheckpointDivides(events, k);
    PositionAt(file, events[k]);
    EmptyBehind();
    BeforeStart(env, mode, p, EMPTY_CONTEXT, EMPTY_CONTEXT, log, k + 1);
    KeptAndDropped(events, k, file);
  }

  /** The checkpoint of a bounded event opens at its end position. */
  lemma PositionAt(file: string, e: Event)
    requires Bounded(e)
    ensures StartPosition(PositionOf(file, e)) == Ok(e.header.logPos)
  {
    PositionRoundTrip(file, e.header.logPos);
  }

  /** Filtering what the resumed decoder yields leaves exactly the events after k. */
  lemma KeptAndDropped(events: seq<Event>, k: nat, file: string)
    requires Contiguous(events) && k < |events| && forall e :: e in events ==> Bounded(e)
    ensures EventsAfter(Descriptions(events[..k + 1]) + Resumed(events[k + 1..], {}), file, events[k].header.logPos)
            == Resumed(events[k + 1..], {})
  {
    hide Contiguous, EventsAfter, Resumed, Descriptions;
    var p := events[k].header.logPos;
    CheckpointDivides(events, k);
    DescriptionsAmong(events[..k + 1]);
    forall e | e in Descriptions(events[..k + 1]) ensures Early(e, p) {
      var i :| 0 <= i <= k && events[..k + 1][i] == e;
      assert events[i] == e && e in events;
    }
    forall e | e in events[k + 1..] ensures Late(e, p) {
      var i :| 0 <= i < |events[k + 1..]| && events[k + 1..][i] == e;
      assert events[k + 1 + i] == e && e in events;
    }
    ResumedLate(events[k + 1..], {}, p);
    AllDropped(Descriptions(events[..k + 1]), Resumed(events[k + 1..], {}), file, p);
  }
}
