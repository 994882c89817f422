/** Streams of RESP commands: the printer's frames read back, prefix stability, and the offline decoder's
    event loop with its position counter (redis/decode/decoder/decoder.go, redis/decode/decoder/live.go). */
module RedisStream {
  import opened Bytes
  import opened Numerals
  import opened Reading
  import opened Text
  import opened RedisResp
  import opened Restart
  import Recovery

  const DRIVER := "redis"

  // ---- the printer ----

  function Header(prefix: char, n: nat): string { [prefix] + Itoa(n) + CRLF }

  function Bulk(part: string): string { Header('$', |part|) + (part + CRLF) }

  function Bulks(parts: seq<string>): string {
    if parts == [] then "" else Bulk(parts[0]) + Bulks(parts[1..])
  }

  /** One command frame, as send writes it. */
  function Frame(parts: seq<string>): string { Header('*', |parts|) + Bulks(parts) }

  method Print(parts: seq<string>) returns (raw: string)
    ensures raw == Frame(parts)
  {
    hide Bulk, Header;
    raw := Header('*', |parts|);
    ghost var head := raw;
    assert parts[0..] == parts;
    for i := 0 to |parts|
      invariant head + Bulks(parts) == raw + Bulks(parts[i..])
    {
      Cursor(parts, i, 1);
      Assoc(raw, Bulk(parts[i]), Bulks(parts[i + 1..]));
      raw := raw + Bulk(parts[i]);
    }
    assert raw + "" == raw;
  }

  /** What the parser accepts: at most 8192 parts of at most 8 MiB. */
  predicate WithinLimits(parts: seq<string>) {
    && 1 <= |parts| <= 8192 && parts[0] != ""
    && forall i :: 0 <= i < |parts| ==> |parts[i]| <= 8 * 1024 * 1024
  }

  function CommandOf(parts: seq<string>): Command
    requires WithinLimits(parts)
  {
    Command(ToLower(parts[0]), parts[1..])
  }

  // ---- parsing inverts printing ----

  lemma LineOf(line: string, rest: string)
    requires '\n' !in line
    ensures ParseLine(line + CRLF + rest) == Ok(Parsed(line, |line| + 2))
  {
    var s := line + CRLF + rest;
    IndexCharAt(s, '\n', |line| + 1);
    assert s[..|line|] == line;
  }

  lemma HeaderOf(prefix: char, n: nat, rest: string)
    requires prefix != '\n'
    ensures var s := Header(prefix, n) + rest;
            var line := ParseLine(s);
            && line.Ok? && line.value.size == |Header(prefix, n)| && s[line.value.size..] == rest
            && ParseCount(line.value.value, prefix) == (if n < TWO_63 then Some(n) else None)
  {
    var line := [prefix] + Itoa(n);
    LineOf(line, rest);
    assert line + CRLF + rest == Header(prefix, n) + rest;
    Concat(Header(prefix, n), rest);
    assert line[1..] == Itoa(n);
    ParseNat(n);
  }

  lemma ParseNat(n: nat)
    ensures ParseInt(Itoa(n)) == if n < TWO_63 then Some(n) else None
  {
    DigitsValueOfDigits(n);
    assert IsDigit(Itoa(n)[0]);
  }

  lemma BulkOf(part: string, rest: string)
    ensures ParseBulk(Bulk(part) + rest) == if |part| <= MAX_BULK then Ok(Parsed(part, |Bulk(part)|)) else Err(Invalid)
  {
    hide ParseLine, ParseCount, Header;
    var after := part + CRLF + rest;
    HeaderOf('$', |part|, after);
    Assoc(Header('$', |part|), part + CRLF, rest);
    Assoc(part, CRLF, rest);
    assert after[..|part|] == part && after[|part|..|part| + 2] == CRLF;
  }

  lemma {:induction false} BulksOf(parts: seq<string>, rest: string)
    ensures var fits := forall i :: 0 <= i < |parts| ==> |parts[i]| <= MAX_BULK;
            ParseBulks(Bulks(parts) + rest, |parts|) == if fits then Ok(Parsed(parts, |Bulks(parts)|)) else Err(Invalid)
    decreases |parts|
  {
    hide ParseBulk, Bulk;
    if parts == [] {
    } else {
      var tail := Bulks(parts[1..]) + rest;
      BulkOf(parts[0], tail);
      BulksOf(parts[1..], rest);
      Assoc(Bulk(parts[0]), Bulks(parts[1..]), rest);
      Concat(Bulk(parts[0]), tail);
      assert [parts[0]] + parts[1..] == parts;
      assert (forall i :: 0 <= i < |parts| ==> |parts[i]| <= MAX_BULK)
          <==> |parts[0]| <= MAX_BULK && (forall i :: 0 <= i < |parts[1..]| ==> |parts[1..][i]| <= MAX_BULK) by {
        SplitForall(parts);
      }
    }
  }

  lemma SplitForall(parts: seq<string>)
    requires parts != []
    ensures (forall i :: 0 <= i < |parts| ==> |parts[i]| <= MAX_BULK)
        <==> |parts[0]| <= MAX_BULK && (forall i :: 0 <= i < |parts[1..]| ==> |parts[1..][i]| <= MAX_BULK)
  {
    if |parts[0]| <= MAX_BULK && (forall i :: 0 <= i < |parts[1..]| ==> |parts[1..][i]| <= MAX_BULK) {
      forall i | 0 <= i < |parts| ensures |parts[i]| <= MAX_BULK {
        if i > 0 { assert parts[1..][i - 1] == parts[i]; }
      }
    }
  }

  /** A printed frame is read back exactly when it is within the limits; otherwise it is refused. */
  lemma FrameRoundTrip(parts: seq<string>, rest: string)
    ensures ParseCommand(Frame(parts) + rest)
            == if WithinLimits(parts) then Ok(Parsed(CommandOf(parts), |Frame(parts)|)) else Err(Invalid)
  {
    hide ParseLine, ParseCount, Header, ParseBulks, Bulks, ToLower;
    var after := Bulks(parts) + rest;
    HeaderOf('*', |parts|, after);
    Assoc(Header('*', |parts|), Bulks(parts), rest);
    BulksOf(parts, rest);
  }

  // ---- parsing looks at what it consumes and no further ----

  predicate SamePrefix(s: string, u: string, n: nat) { n <= |s| && n <= |u| && s[..n] == u[..n] }

  lemma PrefixAt(s: string, u: string, n: nat, i: nat)
    requires SamePrefix(s, u, n) && i < n
    ensures s[i] == u[i]
  {
    assert s[..n][i] == u[..n][i];
  }

  lemma PrefixTail(s: string, u: string, a: nat, b: nat)
    requires SamePrefix(s, u, a + b)
    ensures SamePrefix(s, u, a) && SamePrefix(s[a..], u[a..], b)
  {
    assert s[..a] == s[..a + b][..a] && u[..a] == u[..a + b][..a];
    assert s[a..][..b] == s[..a + b][a..] && u[a..][..b] == u[..a + b][a..];
  }

  lemma LineLocal(s: string, u: string)
    requires ParseLine(s).Ok? && SamePrefix(s, u, ParseLine(s).value.size)
    ensures ParseLine(u) == ParseLine(s)
  {
    var n := ParseLine(s).value.size;
    forall i: nat | i < n ensures s[i] == u[i] { PrefixAt(s, u, n, i); }
    IndexCharAt(u, '\n', n - 1);
    assert s[..n - 2] == u[..n - 2];
  }

  lemma BulkLocal(s: string, u: string)
    requires ParseBulk(s).Ok? && SamePrefix(s, u, ParseBulk(s).value.size)
    ensures ParseBulk(u) == ParseBulk(s)
  {
    hide ParseLine, ParseCount;
    var h := ParseLine(s).value;
    var n := ParseCount(h.value, '$').value;
    PrefixTail(s, u, h.size, n + 2);
    LineLocal(s, u);
    var a, b := s[h.size..], u[h.size..];
    PrefixTail(a, b, n, 2);
    assert a[n..][..2] == a[n..n + 2] && b[n..][..2] == b[n..n + 2];
  }

  lemma {:induction false} BulksLocal(s: string, u: string, count: nat)
    requires ParseBulks(s, count).Ok? && SamePrefix(s, u, ParseBulks(s, count).value.size)
    ensures ParseBulks(u, count) == ParseBulks(s, count)
    decreases count
  {
    hide ParseBulk;
    if count == 0 {
    } else {
      var first := ParseBulk(s).value.size;
      PrefixTail(s, u, first, ParseBulks(s[first..], count - 1).value.size);
      BulkLocal(s, u);
      BulksLocal(s[first..], u[first..], count - 1);
    }
  }

  /** A command depends only on the bytes it was read from: any input that starts with them gives the same
      command, so the recorded raw bytes parse back to it on their own. */
  lemma CommandLocal(s: string, u: string)
    requires ParseCommand(s).Ok? && SamePrefix(s, u, ParseCommand(s).value.size)
    ensures ParseCommand(u) == ParseCommand(s)
  {
    hide ParseLine, ParseCount, ParseBulks, ToLower;
    var h := ParseLine(s).value;
    var count := ParseCount(h.value, '*').value;
    PrefixTail(s, u, h.size, ParseBulks(s[h.size..], count).value.size);
    LineLocal(s, u);
    BulksLocal(s[h.size..], u[h.size..], count);
  }

  // ---- streams ----

  datatype Entry = Entry(raw: string, command: Command)

  /** All commands up to the first that cannot be read, and why it cannot. An EOF is the silent end. */
  datatype Stream = Stream(entries: seq<Entry>, end: Error)

  function Commands(s: string): Stream
    decreases |s|
  {
    match ParseCommand(s)
    case Err(e) => Stream([], e)
    case Ok(p) =>
      var rest := Commands(s[p.size..]);
      Stream([Entry(s[..p.size], p.value)] + rest.entries, rest.end)
  }

  function Frames(commands: seq<seq<string>>): string {
    if commands == [] then "" else Frame(commands[0]) + Frames(commands[1..])
  }

  function EntriesOf(commands: seq<seq<string>>): seq<Entry>
    requires forall i :: 0 <= i < |commands| ==> WithinLimits(commands[i])
  {
    if commands == [] then []
    else [Entry(Frame(commands[0]), CommandOf(commands[0]))] + EntriesOf(commands[1..])
  }

  /** Printer and parser are inverse on streams: every command comes back with its name lower-cased, its
      arguments, and the very bytes it was printed as. */
  lemma {:induction false} StreamRoundTrip(commands: seq<seq<string>>)
    requires forall i :: 0 <= i < |commands| ==> WithinLimits(commands[i])
    ensures Commands(Frames(commands)) == Stream(EntriesOf(commands), EOF)
    decreases |commands|
  {
    hide ParseCommand, Frame, WithinLimits, CommandOf;
    if commands == [] {
      assert ParseCommand("") == Err(EOF) by { NoCommand(); }
    } else {
      var rest := Frames(commands[1..]);
      assert WithinLimits(commands[0]);
      FrameRoundTrip(commands[0], rest);
      Concat(Frame(commands[0]), rest);
      StreamRoundTrip(commands[1..]);
    }
  }

  lemma NoCommand()
    ensures ParseCommand("") == Err(EOF)
  {
  }

  function Raws(entries: seq<Entry>): string {
    if entries == [] then "" else entries[0].raw + Raws(entries[1..])
  }

  /** Conservation: the raw slices laid end to end are the start of the input, nothing skipped, and each one
      on its own is the command it was read as. */
  lemma {:induction false} RawConserved(s: string)
    ensures var entries := Commands(s).entries;
            && |Raws(entries)| <= |s| && Raws(entries) == s[..|Raws(entries)|]
            && Commands(s[|Raws(entries)|..]) == Stream([], Commands(s).end)
            && forall i :: 0 <= i < |entries| ==>
                 ParseCommand(entries[i].raw) == Ok(Parsed(entries[i].command, |entries[i].raw|))
    decreases |s|
  {
    hide ParseCommand;
    if ParseCommand(s).Ok? {
      var p := ParseCommand(s).value;
      RawConserved(s[p.size..]);
      var entry, rest := Entry(s[..p.size], p.value), Commands(s[p.size..]).entries;
      CommandLocal(s, s[..p.size]);
      var n := |Raws(rest)|;
      assert ([entry] + rest)[1..] == rest;
      Cursor(s, p.size, n);
      assert s[..p.size] + s[p.size..p.size + n] == s[..p.size + n];
    } else {
      assert s[..0] == "" && s[0..] == s;
    }
  }

  /** Prefix stability: more input only ever adds commands behind those already read. */
  lemma {:induction false} PrefixStable(s: string, more: string)
    ensures Commands(s).entries <= Commands(s + more).entries
    decreases |s|
  {
    hide ParseCommand;
    if ParseCommand(s).Ok? {
      var p := ParseCommand(s).value;
      assert (s + more)[..p.size] == s[..p.size] && (s + more)[p.size..] == s[p.size..] + more;
      CommandLocal(s, s + more);
      PrefixStable(s[p.size..], more);
    }
  }

  // ---- the event loop ----

  datatype Events = Events(placed: seq<Placed<Entry>>, end: Error)

  /** Commands counted from `position`; those up to `start` are read and dropped. */
  function EventsFrom(s: string, position: nat, start: nat): Events
    decreases |s|
  {
    match ParseCommand(s)
    case Err(e) => Events([], e)
    case Ok(p) =>
      var rest := EventsFrom(s[p.size..], position + 1, start);
      if position + 1 <= start then rest
      else Events([Placed(position + 1, Entry(s[..p.size], p.value))] + rest.placed, rest.end)
  }

  /** Each command with its ordinal. */
  function Numbered(entries: seq<Entry>, position: nat): (r: seq<Placed<Entry>>)
    ensures |r| == |entries|
    ensures forall i :: 0 <= i < |r| ==> r[i] == Placed(position + 1 + i, entries[i])
  {
    if entries == [] then []
    else [Placed(position + 1, entries[0])] + Numbered(entries[1..], position + 1)
  }

  /** The loop numbers the commands 1, 2, ... and hands out those after the start. */
  lemma {:induction false} EventsAreNumbered(s: string, position: nat, start: nat)
    ensures EventsFrom(s, position, start)
            == Events(After(Numbered(Commands(s).entries, position), start), Commands(s).end)
    decreases |s|
  {
    hide ParseCommand;
    if ParseCommand(s).Ok? {
      var p := ParseCommand(s).value;
      EventsAreNumbered(s[p.size..], position + 1, start);
      var entries, rest := Commands(s).entries, Commands(s[p.size..]).entries;
      assert entries[1..] == rest;
      assert Numbered(entries, position)[1..] == Numbered(rest, position + 1);
    }
  }

  lemma {:induction false} CommandCount(s: string)
    ensures |Commands(s).entries| <= |s|
    decreases |s|
  {
    hide ParseCommand;
    if ParseCommand(s).Ok? { CommandCount(s[ParseCommand(s).value.size..]); }
  }

  function Open(s: string): nat -> seq<Placed<Entry>> { (start: nat) => EventsFrom(s, 0, start).placed }

  /** Restart exactness for Redis: any sequence of interruptions, each run reopened at the checkpoint text of
      the last consumed event over the same input, adds up to the uninterrupted run. */
  lemma RedisRestartExact(s: string, cuts: seq<nat>)
    requires |s| < TWO_63 - 1
    ensures Runs(Open(s), "redis", Recovery.Position("", ""), cuts)
            == Recovery.First(Numbered(Commands(s).entries, 0), Sum(cuts))
  {
    hide Commands, EventsFrom, After, Runs, Recovery.First;
    var all := Numbered(Commands(s).entries, 0);
    CommandCount(s);
    EventsAreNumbered(s, 0, 0);
    AfterAll(all, 0);
    forall j | 0 <= j < |all| ensures Open(s)(all[j].position) == all[j + 1..] {
      EventsAreNumbered(s, 0, all[j].position);
      AfterEvent(all, j);
    }
    RestartExact(Open(s), DRIVER, cuts);
  }

  /** What is handed out ends with the last command, if that lies behind the start, and is nothing otherwise. */
  lemma {:induction false} AfterNumbered(entries: seq<Entry>, position: nat, start: nat)
    ensures var placed := After(Numbered(entries, position), start);
            if entries == [] || position + |entries| <= start then placed == []
            else placed != [] && placed[|placed| - 1].position == position + |entries|
    decreases |entries|
  {
    if entries == [] {
    } else {
      AfterNumbered(entries[1..], position + 1, start);
      assert Numbered(entries, position)[1..] == Numbered(entries[1..], position + 1);
    }
  }

  /** Counting anew from 1, as a second call of the iterator does after `consumed` commands, hands out the
      events that are due if and only if none are left to come: the first call has read on past the start, so
      only the empty rest is safe. */
  lemma CountedAnew(s: string, consumed: nat, start: nat)
    ensures EventsFrom(s, 0, start) == EventsFrom(s, consumed, start)
            <==> consumed == 0 || Commands(s).entries == [] || consumed + |Commands(s).entries| <= start
  {
    hide EventsFrom, Commands, After, Numbered;
    EventsAreNumbered(s, 0, start);
    EventsAreNumbered(s, consumed, start);
    AfterNumbered(Commands(s).entries, 0, start);
    AfterNumbered(Commands(s).entries, consumed, start);
  }

  class Decoder {
    const reader: Reader
    const startPosition: nat

    constructor (reader: Reader, startPosition: nat)
      ensures this.reader == reader && this.startPosition == startPosition
    {
      this.reader, this.startPosition := reader, startPosition;
    }

    /** The iterator, for a consumer that breaks off after `wanted` events. What is left in the reader is the
        rest of the stream, but the next call numbers it from 1 again. */
    method Events(wanted: nat) returns (placed: seq<Placed<Entry>>, done: bool, end: Error)
      requires wanted >= 1 && reader.Valid()
      modifies reader
      ensures reader.Valid()
      ensures var all := EventsFrom(old(reader.Rest()), 0, startPosition);
              if done then placed == all.placed && end == all.end
              else
                && |placed| == wanted
                && var left := EventsFrom(reader.Rest(), placed[wanted - 1].position, startPosition);
                   all.placed == placed + left.placed && all.end == left.end
    {
      hide ParseCommand, EventsFrom;
      var position := 0;
      placed := [];
      ghost var all := EventsFrom(reader.Rest(), 0, startPosition);
      assert [] + all.placed == all.placed;
      while true
        invariant reader.Valid() && |placed| < wanted
        invariant all.placed == placed + EventsFrom(reader.Rest(), position, startPosition).placed
        invariant all.end == EventsFrom(reader.Rest(), position, startPosition).end
        decreases |reader.input| - reader.pos
      {
        ghost var before, rest := reader.pos, reader.Rest();
        EventsStep(placed, rest, position, startPosition);
        var command, raw := ReadCommand(reader);
        if command.Err? { return placed, true, command.error; }
        Slices(reader.input, before, reader.pos, |reader.input|);
        assert raw == reader.input[before..reader.pos];
        position := position + 1;
        if position <= startPosition { continue; }
        placed := placed + [Placed(position, Entry(raw, command.value))];
        if |placed| == wanted { return placed, false, EOF; }
      }
    }
  }

  /** One turn of the loop. */
  lemma EventsStep(placed: seq<Placed<Entry>>, s: string, position: nat, start: nat)
    ensures var here := EventsFrom(s, position, start);
            match ParseCommand(s)
            case Err(e) => placed + here.placed == placed && here.end == e
            case Ok(p) =>
              var rest := EventsFrom(s[p.size..], position + 1, start);
              && here.end == rest.end
              && placed + here.placed
                 == (if position + 1 <= start then placed
                     else placed + [Placed(position + 1, Entry(s[..p.size], p.value))]) + rest.placed
  {
    hide ParseCommand;
    if ParseCommand(s).Ok? {
      var p := ParseCommand(s).value;
      var rest := EventsFrom(s[p.size..], position + 1, start).placed;
      Assoc(placed, [Placed(position + 1, Entry(s[..p.size], p.value))], rest);
    } else {
      assert placed + [] == placed;
    }
  }
}
