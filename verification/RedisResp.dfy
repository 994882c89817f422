/** RESP command frames: the parser (redis/decode/decoder/resp.go) and the printer
    (redis/decode/decoder/live.go), after the Redis serialization protocol's arrays and bulk strings. */
module RedisResp {
  import opened Bytes
  import opened Numerals
  import opened Reading
  import opened Text

  const MAX_ELEMENTS := 8192
  const MAX_BULK := 0x80_0000
  const CRLF := "\r\n"

  datatype Command = Command(name: string, args: seq<string>)

  // ---- the grammar ----

  /** A line ended by CRLF, without it. Running out of input is an EOF; a bare LF is malformed. */
  function ParseLine(s: string): (r: Result<Parsed<string>>)
    ensures r.Ok? ==> 2 <= r.value.size <= |s| && |r.value.value| == r.value.size - 2
  {
    var i := IndexChar(s, '\n');
    if i == |s| then Err(EOF)
    else if i == 0 || s[i - 1] != '\r' then Err(Invalid)
    else Ok(Parsed(s[..i - 1], i + 1))
  }

  /** The number after a one-character prefix, or none if the prefix is wrong or the rest is no number. */
  function ParseCount(line: string, prefix: char): Option<int> {
    if line == "" || line[0] != prefix then None else ParseInt(line[1..])
  }

  function ParseBulk(s: string): (r: Result<Parsed<string>>)
    ensures r.Ok? ==> 2 <= r.value.size <= |s|
  {
    var header :- ParseLine(s);
    var n := ParseCount(header.value, '$');
    if n.None? || n.value < 0 || n.value > MAX_BULK then Err(Invalid)
    else
      var rest := s[header.size..];
      if |rest| < n.value + 2 then Err(Invalid)
      else if rest[n.value..n.value + 2] != CRLF then Err(Invalid)
      else Ok(Parsed(rest[..n.value], header.size + n.value + 2))
  }

  function ParseBulks(s: string, count: nat): (r: Result<Parsed<seq<string>>>)
    ensures r.Ok? ==> r.value.size <= |s| && |r.value.value| == count
    decreases count
  {
    if count == 0 then Ok(Parsed([], 0))
    else
      var first :- ParseBulk(s);
      var rest :- ParseBulks(s[first.size..], count - 1);
      Ok(Parsed([first.value] + rest.value, first.size + rest.size))
  }

  function ParseCommand(s: string): (r: Result<Parsed<Command>>)
    ensures r.Ok? ==> 2 <= r.value.size <= |s|
  {
    var header :- ParseLine(s);
    var count := ParseCount(header.value, '*');
    if count.None? || count.value <= 0 || count.value > MAX_ELEMENTS then Err(Invalid)
    else
      var parts :- ParseBulks(s[header.size..], count.value);
      if parts.value[0] == "" then Err(Invalid)
      else Ok(Parsed(Command(ToLower(parts.value[0]), parts.value[1..]), header.size + parts.size))
  }

  // ---- the buffered reader and the parser's loops ----

  class Reader {
    const input: string
    var pos: nat

    ghost predicate Valid()
      reads this
    {
      pos <= |input|
    }

    function Rest(): string
      reads this
      requires Valid()
    {
      input[pos..]
    }

    constructor (input: string)
      ensures Valid() && this.input == input && pos == 0
    {
      this.input, pos := input, 0;
    }

    /** bufio.ReadString: through the first LF, or everything and an EOF. */
    method ReadString() returns (line: string, found: bool)
      requires Valid()
      modifies this
      ensures Valid() && old(pos) <= pos && line == input[old(pos)..pos]
      ensures var i := IndexChar(old(Rest()), '\n');
              found == (i < |old(Rest())|) && pos == old(pos) + (if found then i + 1 else i)
    {
      var start := pos;
      while pos < |input| && input[pos] != '\n'
        invariant start <= pos <= |input|
        invariant forall j :: start <= j < pos ==> input[j] != '\n'
        decreases |input| - pos
      {
        pos := pos + 1;
      }
      found := pos < |input|;
      ghost var rest := input[start..];
      if found {
        assert rest[pos - start] == '\n' && forall j :: 0 <= j < pos - start ==> rest[j] == input[start + j];
        IndexCharAt(rest, '\n', pos - start);
        pos := pos + 1;
      } else {
        assert forall j :: 0 <= j < |rest| ==> rest[j] == input[start + j];
      }
      line := input[start..pos];
    }

    /** io.ReadFull: exactly n bytes, or whatever is left and an error. */
    method ReadFull(n: nat) returns (data: string, full: bool)
      requires Valid()
      modifies this
      ensures Valid() && full == (|old(Rest())| >= n)
      ensures full ==> data == old(Rest())[..n] && pos == old(pos) + n
      ensures !full ==> pos == |input|
    {
      full := |input| - pos >= n;
      if full {
        data := input[pos..pos + n];
        pos := pos + n;
      } else {
        data := input[pos..];
        pos := |input|;
      }
    }

    method ReadByte() returns (b: char, more: bool)
      requires Valid()
      modifies this
      ensures Valid() && more == (old(pos) < |input|)
      ensures more ==> b == input[old(pos)] && pos == old(pos) + 1
      ensures !more ==> pos == old(pos)
    {
      more := pos < |input|;
      b := '\0';
      if more {
        b := input[pos];
        pos := pos + 1;
      }
    }
  }

  /** A read that went from `start` to `end` did what the grammar says, and recorded just what it consumed. */
  predicate Consumed<T(==)>(input: string, start: nat, end: nat, raw: string, newRaw: string,
                            r: Result<T>, spec: Result<Parsed<T>>) {
    && (r.Err? ==> spec == Err(r.error))
    && (r.Ok? ==>
          && start <= end <= |input| && spec == Ok(Parsed(r.value, end - start))
          && newRaw == raw + input[start..end])
  }

  method ReadLine(reader: Reader, raw: string) returns (r: Result<string>, newRaw: string)
    requires reader.Valid()
    modifies reader
    ensures reader.Valid()
    ensures Consumed(reader.input, old(reader.pos), reader.pos, raw, newRaw, r, ParseLine(old(reader.Rest())))
  {
    ghost var rest := reader.Rest();
    var line, found := reader.ReadString();
    if !found { return Err(EOF), raw; }
    newRaw := raw + line;
    assert line == rest[..|line|];
    if |line| < 2 { return Err(Invalid), newRaw; }
    assert line[|line| - 2..] == [line[|line| - 2], '\n'];
    if line[|line| - 2..] != CRLF { return Err(Invalid), newRaw; }
    assert line[..|line| - 2] == rest[..|line| - 2];
    r := Ok(line[..|line| - 2]);
  }

  lemma Slices(s: string, a: nat, b: nat, c: nat)
    requires a <= b <= c <= |s|
    ensures s[a..b] + s[b..c] == s[a..c]
    ensures s[a..][b - a..] == s[b..] && s[a..][..b - a] == s[a..b]
  {
  }

  method ReadBulkString(reader: Reader, raw: string) returns (r: Result<string>, newRaw: string)
    requires reader.Valid()
    modifies reader
    ensures reader.Valid()
    ensures Consumed(reader.input, old(reader.pos), reader.pos, raw, newRaw, r, ParseBulk(old(reader.Rest())))
  {
    hide ParseLine, ParseCount;
    ghost var start := reader.pos;
    r, newRaw := ReadLine(reader, raw);
    if r.Err? { return; }
    ghost var middle := reader.pos;
    Slices(reader.input, start, middle, |reader.input|);
    var n := ParseCount(r.value, '$');
    if n.None? || n.value < 0 || n.value > MAX_BULK { return Err(Invalid), newRaw; }
    var data, full := reader.ReadFull(n.value + 2);
    if !full { return Err(Invalid), newRaw; }
    ghost var before := newRaw;
    newRaw := newRaw + data;
    ghost var rest := reader.input[middle..];
    assert data[n.value..] == rest[n.value..n.value + 2];
    if data[n.value..] != CRLF { return Err(Invalid), newRaw; }
    assert data[..n.value] == rest[..n.value];
    Slices(reader.input, start, middle, reader.pos);
    Slices(reader.input, middle, reader.pos, |reader.input|);
    Assoc(raw, reader.input[start..middle], reader.input[middle..reader.pos]);
    r := Ok(data[..n.value]);
  }

  lemma NoBulks(s: string)
    ensures ParseBulks(s, 0) == Ok(Parsed([], 0))
  {
  }

  lemma BulksStep(parts: seq<string>, size: nat, s: string, count: nat)
    requires count > 0
    ensures ParseBulk(s).Err? ==> ParseBulks(s, count) == Err(ParseBulk(s).error)
    ensures ParseBulk(s).Ok? ==>
              var first := ParseBulk(s).value;
              Onto(parts, size, ParseBulks(s, count))
              == Onto(parts + [first.value], size + first.size, ParseBulks(s[first.size..], count - 1))
  {
    hide ParseBulk, Onto;
    if ParseBulk(s).Ok? {
      var first := ParseBulk(s).value;
      OntoStep(parts, size, first.value, first.size, ParseBulks(s[first.size..], count - 1));
    }
  }

  method ReadParts(reader: Reader, raw: string, count: nat) returns (r: Result<seq<string>>, newRaw: string)
    requires reader.Valid()
    modifies reader
    ensures reader.Valid()
    ensures Consumed(reader.input, old(reader.pos), reader.pos, raw, newRaw, r, ParseBulks(old(reader.Rest()), count))
  {
    hide ParseBulk, ParseBulks, Onto;
    newRaw := raw;
    var parts: seq<string> := [];
    ghost var start := reader.pos;
    ghost var all := ParseBulks(reader.Rest(), count);
    OntoEnds([], 0, all);
    assert reader.input[start..start] == "" && raw + "" == raw;
    for i := 0 to count
      invariant reader.Valid() && start <= reader.pos
      invariant newRaw == raw + reader.input[start..reader.pos]
      invariant all == Onto(parts, reader.pos - start, ParseBulks(reader.Rest(), count - i))
    {
      ghost var here := reader.pos;
      OntoEnds(parts, here - start, ParseBulks(reader.Rest(), count - i));
      BulksStep(parts, here - start, reader.Rest(), count - i);
      var part;
      part, newRaw := ReadBulkString(reader, newRaw);
      if part.Err? { return Err(part.error), newRaw; }
      Slices(reader.input, start, here, reader.pos);
      Slices(reader.input, here, reader.pos, |reader.input|);
      Assoc(raw, reader.input[start..here], reader.input[here..reader.pos]);
      parts := parts + [part.value];
    }
    OntoEnds(parts, reader.pos - start, Ok(Parsed([], 0)));
    NoBulks(reader.Rest());
    return Ok(parts), newRaw;
  }

  /** One command and the raw bytes it was read from, which are exactly the bytes consumed. */
  method ReadCommand(reader: Reader) returns (r: Result<Command>, raw: string)
    requires reader.Valid()
    modifies reader
    ensures reader.Valid()
    ensures Consumed(reader.input, old(reader.pos), reader.pos, "", raw, r, ParseCommand(old(reader.Rest())))
  {
    hide ParseLine, ParseCount, ParseBulks, ToLower;
    ghost var start := reader.pos;
    var line;
    line, raw := ReadLine(reader, "");
    if line.Err? { return Err(line.error), raw; }
    ghost var middle := reader.pos;
    var count := ParseCount(line.value, '*');
    if count.None? || count.value <= 0 || count.value > MAX_ELEMENTS { return Err(Invalid), raw; }
    Slices(reader.input, start, middle, |reader.input|);
    var parts;
    parts, raw := ReadParts(reader, raw, count.value);
    if parts.Err? { return Err(parts.error), raw; }
    Slices(reader.input, start, middle, reader.pos);
    assert "" + reader.input[start..middle] == reader.input[start..middle];
    assert "" + reader.input[start..reader.pos] == reader.input[start..reader.pos];
    if parts.value[0] == "" { return Err(Invalid), raw; }
    return Ok(Command(ToLower(parts.value[0]), parts.value[1..])), raw;
  }
}
