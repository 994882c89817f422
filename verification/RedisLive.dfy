/** The live replication reader: handshake, snapshot skipping and the event loop with its persistent
    position (redis/decode/decoder/live.go). The connection is its input text and the text written to it. */
module RedisLive {
  import opened Bytes
  import opened Numerals
  import opened Reading
  import opened Text
  import opened RedisResp
  import opened RedisStream
  import opened Restart

  const EOF_PREFIX := "$EOF:"
  const FULL_RESYNC := "+FULLRESYNC"
  const CONTINUE := "+CONTINUE"
  const GREETING := [["REPLCONF", "listening-port", "0"], ["REPLCONF", "capa", "psync2"], ["PSYNC", "?", "-1"]]

  // ---- what the bytes before the commands are ----

  /** The length of a snapshot announced as `$size` or as `$EOF:marker`, header included. */
  function SnapshotSize(s: string): (r: Result<nat>)
    ensures r.Ok? ==> r.value <= |s|
  {
    var line :- ParseLine(s);
    var rest := s[line.size..];
    if !HasPrefix(line.value, "$") then Err(Invalid)
    else if HasPrefix(line.value, EOF_PREFIX) then
      var marker := line.value[|EOF_PREFIX|..];
      if marker == "" then Err(Invalid)
      else
        match Index(rest, marker)
        case None => Err(EOF)
        case Some(i) => Ok(line.size + i + |marker|)
    else
      var size := ParseInt(line.value[1..]);
      if size.None? || size.value < 0 then Err(Invalid)
      else if |rest| < size.value then Err(EOF)
      else Ok(line.size + size.value)
  }

  /** A status reply; an error reply or anything else ends the handshake. */
  function ReplySize(s: string): (r: Result<nat>)
    ensures r.Ok? ==> r.value <= |s|
  {
    var line :- ParseLine(s);
    if HasPrefix(line.value, "+") then Ok(line.size) else Err(Invalid)
  }

  /** The answer to PSYNC, with the snapshot after it when there is one. */
  function SyncSize(s: string): (r: Result<nat>)
    ensures r.Ok? ==> r.value <= |s|
  {
    var line :- ParseLine(s);
    if HasPrefix(line.value, FULL_RESYNC) then
      var snapshot :- SnapshotSize(s[line.size..]);
      Ok(line.size + snapshot)
    else if HasPrefix(line.value, CONTINUE) then Ok(line.size)
    else Err(Invalid)
  }

  /** Everything the server sends before the first command. */
  function HandshakeSize(s: string): (r: Result<nat>)
    ensures r.Ok? ==> r.value <= |s|
  {
    var first :- ReplySize(s);
    var second :- ReplySize(s[first..]);
    var sync :- SyncSize(s[first..][second..]);
    Ok(first + second + sync)
  }

  // ---- the reader ----

  /** The last n characters, or all of them. */
  function Tail(s: string, n: nat): string { if |s| <= n then s else s[|s| - n..] }

  /** Appends a byte to the window and, when it overflows, shifts it left by one in place. */
  method Slide(window: array<char>, length: nat, b: char) returns (newLength: nat)
    requires length < window.Length
    modifies window
    ensures newLength < window.Length
    ensures window[..newLength] == Tail(old(window[..length]) + [b], window.Length - 1)
  {
    var size := window.Length - 1;
    window[length] := b;
    newLength := length + 1;
    ghost var full := window[..newLength];
    assert full == old(window[..length]) + [b];
    if newLength > size {
      forall i | 0 <= i < size { window[i] := window[i + 1]; }
      newLength := size;
      assert window[..size] == full[1..];
    }
  }

  lemma TailStep(s: string, c: nat, n: nat)
    requires c < |s|
    ensures Tail(Tail(s[..c], n) + [s[c]], n) == Tail(s[..c + 1], n)
  {
    assert s[..c + 1] == s[..c] + [s[c]];
  }

  lemma TailIsMarker(s: string, c: nat, marker: string)
    requires c <= |s|
    ensures Tail(s[..c], |marker|) == marker <==> c >= |marker| && OccursAt(s, marker, c - |marker|)
  {
    if c >= |marker| { assert Tail(s[..c], |marker|) == s[c - |marker|..c]; }
  }

  /** Reads bytes through a window as long as the marker until the window is the marker: it stops just after
      the marker's first occurrence, and fails exactly when the marker never occurs. */
  method DiscardUntil(reader: Reader, marker: string) returns (r: Result<()>)
    requires reader.Valid()
    modifies reader
    ensures reader.Valid()
    ensures marker == "" ==> r == Err(Invalid) && reader.pos == old(reader.pos)
    ensures marker != "" ==>
              match Index(old(reader.Rest()), marker)
              case None => r == Err(EOF)
              case Some(i) => r == Ok(()) && reader.pos == old(reader.pos) + i + |marker|
  {
    hide Tail, OccursAt, Index;
    if marker == "" { return Err(Invalid); }
    ghost var start, rest := reader.pos, reader.Rest();
    var window := new char[|marker| + 1];
    var length := 0;
    assert window[..0] == Tail(rest[..0], |marker|) by { TailOfNothing(rest, |marker|); }
    while true
      invariant reader.Valid() && start <= reader.pos && length < window.Length
      invariant window[..length] == Tail(rest[..reader.pos - start], |marker|)
      invariant forall j: nat :: j + |marker| <= reader.pos - start ==> !OccursAt(rest, marker, j)
      decreases |reader.input| - reader.pos
    {
      ghost var c := reader.pos - start;
      var b, more := reader.ReadByte();
      if !more {
        NoOccurrence(rest, marker);
        return Err(EOF);
      }
      length := Slide(window, length, b);
      TailStep(rest, c, |marker|);
      TailIsMarker(rest, c + 1, marker);
      if window[..length] == marker {
        FirstOccurrence(rest, marker, c + 1 - |marker|);
        return Ok(());
      }
    }
  }

  lemma TailOfNothing(s: string, n: nat)
    ensures Tail(s[..0], n) == []
  {
  }

  lemma NoOccurrence(s: string, pattern: string)
    requires forall j: nat :: j + |pattern| <= |s| ==> !OccursAt(s, pattern, j)
    ensures Index(s, pattern).None?
  {
  }

  lemma FirstOccurrence(s: string, pattern: string, i: nat)
    requires OccursAt(s, pattern, i) && forall j: nat :: j < i ==> !OccursAt(s, pattern, j)
    ensures Index(s, pattern) == Some(i)
  {
  }

  /** The reader moved past exactly what the specification says. */
  predicate Passed(start: nat, end: nat, r: Result<()>, spec: Result<nat>) {
    match spec
    case Err(e) => r == Err(e)
    case Ok(n) => r == Ok(()) && end == start + n
  }

  method SkipRDB(reader: Reader) returns (r: Result<()>)
    requires reader.Valid()
    modifies reader
    ensures reader.Valid()
    ensures Passed(old(reader.pos), reader.pos, r, SnapshotSize(old(reader.Rest())))
  {
    hide ParseLine;
    ghost var start := reader.pos;
    var line, _ := ReadLine(reader, "");
    if line.Err? { return Err(line.error); }
    Slices(reader.input, start, reader.pos, |reader.input|);
    if !HasPrefix(line.value, "$") { return Err(Invalid); }
    if HasPrefix(line.value, EOF_PREFIX) {
      r := DiscardUntil(reader, line.value[|EOF_PREFIX|..]);
      return;
    }
    var size := ParseInt(line.value[1..]);
    if size.None? || size.value < 0 { return Err(Invalid); }
    var _, full := reader.ReadFull(size.value);
    if !full { return Err(EOF); }
    return Ok(());
  }

  method ReadOK(reader: Reader) returns (r: Result<()>)
    requires reader.Valid()
    modifies reader
    ensures reader.Valid()
    ensures Passed(old(reader.pos), reader.pos, r, ReplySize(old(reader.Rest())))
  {
    hide ParseLine;
    var line, _ := ReadLine(reader, "");
    if line.Err? { return Err(line.error); }
    if HasPrefix(line.value, "+") { return Ok(()); }
    return Err(Invalid);
  }

  method ReadSync(reader: Reader) returns (r: Result<()>)
    requires reader.Valid()
    modifies reader
    ensures reader.Valid()
    ensures Passed(old(reader.pos), reader.pos, r, SyncSize(old(reader.Rest())))
  {
    hide ParseLine, SnapshotSize;
    ghost var start := reader.pos;
    var line, _ := ReadLine(reader, "");
    if line.Err? { return Err(line.error); }
    Slices(reader.input, start, reader.pos, |reader.input|);
    if HasPrefix(line.value, FULL_RESYNC) {
      r := SkipRDB(reader);
      return;
    }
    if HasPrefix(line.value, CONTINUE) { return Ok(()); }
    return Err(Invalid);
  }

  /** How a live stream ended: the handshake failed, or the commands ran out or went wrong. */
  datatype End = Refused(error: Error) | Ended(error: Error)

  class LiveDecoder {
    const reader: Reader
    const startPosition: nat
    var written: string
    var position: nat
    var handshook: bool

    constructor (reader: Reader, startPosition: nat)
      ensures this.reader == reader && this.startPosition == startPosition
      ensures written == "" && position == 0 && !handshook
    {
      this.reader, this.startPosition := reader, startPosition;
      written, position, handshook := "", 0, false;
    }

    method Send(parts: seq<string>)
      modifies this`written
      ensures written == old(written) + Frame(parts)
    {
      var raw := Print(parts);
      written := written + raw;
    }

    method Handshake() returns (r: Result<()>)
      requires reader.Valid()
      modifies reader, this`written
      ensures reader.Valid()
      ensures Passed(old(reader.pos), reader.pos, r, HandshakeSize(old(reader.Rest())))
      ensures r.Ok? ==>
                written == old(written) + Frames([["REPLCONF", "listening-port", "0"], ["REPLCONF", "capa", "psync2"],
                                                  ["PSYNC", "?", "-1"]])
    {
      hide ReplySize, SyncSize, Frame;
      ghost var start := reader.pos;
      Send(GREETING[0]);
      r := ReadOK(reader);
      if r.Err? { return; }
      Slices(reader.input, start, reader.pos, |reader.input|);
      ghost var middle := reader.pos;
      Send(GREETING[1]);
      r := ReadOK(reader);
      if r.Err? { return; }
      Slices(reader.input, middle, reader.pos, |reader.input|);
      Send(GREETING[2]);
      GreetingFrames(old(written));
      r := ReadSync(reader);
    }

    /** The iterator, for a consumer that breaks off after `wanted` events. The position lives in the object,
        so the next call goes on with the next number. */
    method Events(wanted: nat) returns (placed: seq<Placed<Entry>>, done: bool, end: End)
      requires wanted >= 1 && reader.Valid()
      modifies reader, this`written, this`position, this`handshook
      ensures reader.Valid()
      ensures !old(handshook) && HandshakeSize(old(reader.Rest())).Err? ==>
                placed == [] && done && end == Refused(HandshakeSize(old(reader.Rest())).error)
      ensures old(handshook) || HandshakeSize(old(reader.Rest())).Ok? ==>
                var greeted := if old(handshook) then 0 else HandshakeSize(old(reader.Rest())).value;
                var all := EventsFrom(old(reader.Rest())[greeted..], old(position), startPosition);
                var left := EventsFrom(reader.Rest(), position, startPosition);
                && handshook
                && if done then placed == all.placed && end == Ended(all.end)
                   else |placed| == wanted && all == RedisStream.Events(placed + left.placed, left.end)
    {
      hide EventsFrom, HandshakeSize, Frames;
      ghost var start := reader.pos;
      if !handshook {
        var greeting := Handshake();
        if greeting.Err? { return [], true, Refused(greeting.error); }
        handshook := true;
        Slices(reader.input, start, reader.pos, |reader.input|);
      }
      var why;
      placed, done, why := Stream(wanted);
      end := Ended(why);
    }

    /** The loop after the handshake. */
    method Stream(wanted: nat) returns (placed: seq<Placed<Entry>>, done: bool, end: Error)
      requires wanted >= 1 && reader.Valid()
      modifies reader, this`position
      ensures reader.Valid()
      ensures var all := EventsFrom(old(reader.Rest()), old(position), startPosition);
              var left := EventsFrom(reader.Rest(), position, startPosition);
              if done then placed == all.placed && end == all.end
              else |placed| == wanted && all == RedisStream.Events(placed + left.placed, left.end)
    {
      hide ParseCommand, EventsFrom;
      placed := [];
      ghost var all := EventsFrom(reader.Rest(), position, startPosition);
      assert [] + all.placed == all.placed;
      while true
        invariant reader.Valid() && |placed| < wanted
        invariant all.placed == placed + EventsFrom(reader.Rest(), position, startPosition).placed
        invariant all.end == EventsFrom(reader.Rest(), position, startPosition).end
        decreases |reader.input| - reader.pos
      {
        ghost var before := reader.pos;
        EventsStep(placed, reader.Rest(), position, startPosition);
        var command, raw := ReadCommand(reader);
        if command.Err? { return placed, true, command.error; }
        Slices(reader.input, before, reader.pos, |reader.input|);
        assert raw == reader.input[before..reader.pos];
        position := position + 1;
        if position <= startPosition { continue; }
        placed := placed + [Placed(position, Entry(raw, command.value))];
        if |placed| == wanted { return placed, false, EOF; }
      }
    }
  }

  lemma GreetingFrames(written: string)
    ensures written + Frame(GREETING[0]) + Frame(GREETING[1]) + Frame(GREETING[2]) == written + Frames(GREETING)
  {
    hide Frame;
    assert GREETING[1..][0] == GREETING[1] && GREETING[1..][1..][0] == GREETING[2] && GREETING[1..][1..][1..] == [];
    var a, b, c := Frame(GREETING[0]), Frame(GREETING[1]), Frame(GREETING[2]);
    assert Frames(GREETING) == a + (b + (c + ""));
  }

  // ---- after a snapshot the live stream is the offline stream ----

  /** A reply line the handshake accepts. */
  predicate GoodLine(line: string, prefix: string) { '\n' !in line && HasPrefix(line, prefix) }

  lemma LineThen(line: string, rest: string)
    requires '\n' !in line
    ensures var s := line + CRLF + rest;
            ParseLine(s) == Ok(Parsed(line, |line| + 2)) && s[|line| + 2..] == rest
  {
    LineOf(line, rest);
    Concat(line + CRLF, rest);
  }

  /** A snapshot of announced size: exactly its payload is skipped, whatever bytes it holds. */
  lemma SizedSnapshot(payload: string, commands: string)
    requires |payload| < TWO_63
    ensures var header := "$" + Itoa(|payload|);
            SnapshotSize(header + CRLF + (payload + commands)) == Ok(|header| + 2 + |payload|)
  {
    hide ParseLine, ParseInt;
    var header := "$" + Itoa(|payload|);
    LineThen(header, payload + commands);
    assert header[1..] == Itoa(|payload|);
    ParseIntOfItoa(|payload|);
    NotMarker(|payload|);
  }

  lemma NotMarker(n: nat)
    ensures '\n' !in "$" + Itoa(n) && !HasPrefix("$" + Itoa(n), EOF_PREFIX) && HasPrefix("$" + Itoa(n), "$")
  {
    var header := "$" + Itoa(n);
    assert IsDigit(Itoa(n)[0]) && header[1] == Itoa(n)[0];
    if |header| >= 5 { assert header[..5][1] == header[1] && EOF_PREFIX[1] == 'E'; }
    assert header[..1] == "$";
  }

  /** Replies that end the handshake: anything but a status line, an unknown answer to PSYNC, a snapshot of negative
      size, a marker of no text. */
  lemma RepliesRefused(line: string, n: int, rest: string)
    requires '\n' !in line && -TWO_63 <= n < 0
    ensures line == "" || line[0] != '+' ==> ReplySize(line + "\r\n" + rest) == Err(Invalid)
    ensures !HasPrefix(line, "+FULLRESYNC") && !HasPrefix(line, "+CONTINUE") ==>
              SyncSize(line + "\r\n" + rest) == Err(Invalid)
    ensures line == "" || line[0] != '$' ==> SnapshotSize(line + "\r\n" + rest) == Err(Invalid)
    ensures SnapshotSize("$EOF:" + "\r\n" + rest) == Err(Invalid)
    ensures SnapshotSize("$" + Itoa(n) + "\r\n" + rest) == Err(Invalid)
  {
    hide ParseLine, ParseInt;
    LineThen(line, rest);
    LineThen("$EOF:", rest);
    PrefixAt(line, "+", 0);
    PrefixAt(line, "$", 0);
    NegativeSnapshot(n, rest);
  }

  lemma NegativeSnapshot(n: int, rest: string)
    requires -TWO_63 <= n < 0
    ensures SnapshotSize("$" + Itoa(n) + "\r\n" + rest) == Err(Invalid)
  {
    hide ParseLine, ParseInt;
    var header := "$" + Itoa(n);
    assert header[1] == '-' && header[1..] == Itoa(n) && header[..1] == "$";
    assert forall c :: c in Digits(-n) ==> IsDigit(c);
    LineThen(header, rest);
    ParseIntOfItoa(n);
    PrefixAt(header, EOF_PREFIX, 1);
  }

  /** A snapshot ended by a marker: the payload and the marker are skipped exactly when the marker does not
      already end inside them. */
  lemma MarkedSnapshot(marker: string, payload: string, commands: string)
    requires marker != "" && '\n' !in marker
    ensures var header := "$EOF:" + marker;
            SnapshotSize(header + CRLF + (payload + marker + commands)) == Ok(|header| + 2 + |payload| + |marker|)
            <==> forall i: nat :: i < |payload| ==> !OccursAt(payload + marker, marker, i)
  {
    hide ParseLine, ParseInt;
    var header := "$EOF:" + marker;
    var rest := payload + marker + commands;
    LineThen(header, rest);
    assert header[..5] == EOF_PREFIX && header[..1] == "$" && header[5..] == marker;
    assert OccursAt(rest, marker, |payload|) by { MarkerThere(payload, marker, commands); }
    forall i: nat | i < |payload|
      ensures OccursAt(rest, marker, i) <==> OccursAt(payload + marker, marker, i)
    {
      assert rest[i..i + |marker|] == (payload + marker)[i..i + |marker|];
    }
    if forall i: nat :: i < |payload| ==> !OccursAt(payload + marker, marker, i) {
      FirstOccurrence(rest, marker, |payload|);
    }
  }

  /** A snapshot that is not skipped whole: its payload holds the marker, so the rest of it is taken for
      commands. */
  lemma MarkerInPayloadSkippedShort(marker: string, payload: string, commands: string)
    requires marker != "" && '\n' !in marker && payload != "" && HasPrefix(payload, marker)
    ensures var header := "$EOF:" + marker;
            SnapshotSize(header + CRLF + (payload + marker + commands)) == Ok(|header| + 2 + |marker|)
  {
    hide ParseLine, ParseInt;
    var header := "$EOF:" + marker;
    var rest := payload + marker + commands;
    LineThen(header, rest);
    assert header[..5] == EOF_PREFIX && header[..1] == "$" && header[5..] == marker;
    assert rest[..|marker|] == payload[..|marker|] && rest[0..|marker|] == rest[..|marker|];
    FirstOccurrence(rest, marker, 0);
  }

  lemma MarkerThere(payload: string, marker: string, commands: string)
    ensures OccursAt(payload + marker + commands, marker, |payload|)
  {
    Assoc(payload, marker, commands);
    var rest := payload + (marker + commands);
    assert rest[|payload|..|payload| + |marker|] == marker;
  }

  /** What can follow the second reply: a snapshot of announced size, one ended by a marker, or none. */
  datatype Sync = Sized(payload: string) | Marked(marker: string, payload: string) | Continued

  function SnapshotText(sync: Sync): string {
    match sync
    case Sized(payload) => "$" + Itoa(|payload|) + CRLF + payload
    case Marked(marker, payload) => "$EOF:" + marker + CRLF + (payload + marker)
    case Continued => ""
  }

  /** The size, or the marker's first occurrence, does delimit the payload. */
  predicate Delimited(sync: Sync) {
    match sync
    case Sized(payload) => |payload| < TWO_63
    case Marked(marker, payload) =>
      && marker != "" && '\n' !in marker
      && forall i: nat :: i < |payload| ==> !OccursAt(payload + marker, marker, i)
    case Continued => true
  }

  /** The answer line that announces it. */
  predicate Announced(line: string, sync: Sync) {
    Delimited(sync) && GoodLine(line, if sync.Continued? then "+CONTINUE" else "+FULLRESYNC")
  }

  lemma SnapshotSkipped(sync: Sync, commands: string)
    requires Delimited(sync)
    ensures !sync.Continued? ==> SnapshotSize(SnapshotText(sync) + commands) == Ok(|SnapshotText(sync)|)
  {
    hide SnapshotSize;
    match sync
    case Sized(payload) =>
      SizedSnapshot(payload, commands);
      Assoc("$" + Itoa(|payload|) + CRLF, payload, commands);
    case Marked(marker, payload) =>
      MarkedSnapshot(marker, payload, commands);
      Assoc("$EOF:" + marker + CRLF, payload + marker, commands);
    case Continued =>
  }

  lemma SyncSkipped(line: string, sync: Sync, commands: string)
    requires Announced(line, sync)
    ensures SyncSize(line + CRLF + (SnapshotText(sync) + commands)) == Ok(|line| + 2 + |SnapshotText(sync)|)
  {
    hide ParseLine, SnapshotSize, SnapshotText, Delimited;
    LineThen(line, SnapshotText(sync) + commands);
    SnapshotSkipped(sync, commands);
    if sync.Continued? {
      assert |SnapshotText(sync)| == 0 by { NoSnapshot(); }
      assert !HasPrefix(line, FULL_RESYNC) by { NotResync(line); }
    }
  }

  lemma NoSnapshot()
    ensures SnapshotText(Continued) == ""
  {
  }

  lemma NotResync(line: string)
    requires HasPrefix(line, CONTINUE)
    ensures !HasPrefix(line, FULL_RESYNC)
  {
    PrefixAt(line, CONTINUE, 1);
    PrefixAt(line, FULL_RESYNC, 1);
  }

  lemma PrefixAt(s: string, prefix: string, i: nat)
    requires i < |prefix|
    ensures HasPrefix(s, prefix) ==> s[i] == prefix[i]
  {
    if HasPrefix(s, prefix) { assert s[..|prefix|][i] == s[i]; }
  }

  /** After any greeting the handshake accepts, with either form of snapshot or with none, the commands start
      exactly where the greeting ends: live events are the numbered commands of the bytes that follow. */
  lemma LiveIsOffline(ok1: string, ok2: string, line: string, sync: Sync, commands: string, start: nat)
    requires GoodLine(ok1, "+") && GoodLine(ok2, "+") && Announced(line, sync)
    ensures var input := ok1 + CRLF + (ok2 + CRLF + (line + CRLF + (SnapshotText(sync) + commands)));
            var greeted := HandshakeSize(input);
            && greeted.Ok? && input[greeted.value..] == commands
            && EventsFrom(input[greeted.value..], 0, start)
               == RedisStream.Events(After(Numbered(Commands(commands).entries, 0), start), Commands(commands).end)
  {
    hide ParseLine, SyncSize, SnapshotText, Announced, EventsFrom, Commands, After, Numbered;
    var answer := line + CRLF + (SnapshotText(sync) + commands);
    LineThen(ok1, ok2 + CRLF + answer);
    LineThen(ok2, answer);
    SyncSkipped(line, sync, commands);
    var input := ok1 + CRLF + (ok2 + CRLF + answer);
    var head := ok1 + CRLF + (ok2 + CRLF + (line + CRLF + SnapshotText(sync)));
    assert input == head + commands;
    Concat(head, commands);
    EventsAreNumbered(commands, 0, start);
  }
}
