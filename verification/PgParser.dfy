/** The column text of PostgreSQL's test_decoding output (postgres/decode/decoder/parser.go). Quoted text
    doubles its quotes, as section 4.1.2.1 of the PostgreSQL documentation has it. */
module PgParser {
  import opened Bytes
  import opened Numerals
  import opened Reading
  import opened Text

  /** A decoded value. `Plain` is unquoted text that is neither null, a boolean nor a 64-bit integer: a
      float64 when strconv.ParseFloat takes it, else the text itself. */
  datatype Value = Null | Bool(b: bool) | Int(n: int) | Quoted(text: string) | Plain(text: string)

  datatype Column = Column(name: string, typ: string, value: Value, raw: string)

  // ---- the grammar ----

  function ParseScalar(raw: string): Value {
    if raw == "null" then Null
    else if raw == "true" then Bool(true)
    else if raw == "false" then Bool(false)
    else if ParseInt(raw).Some? then Int(ParseInt(raw).value)
    else Plain(raw)
  }

  /** The text after an opening quote, through the closing one; a doubled quote stands for one. */
  function ParseQuotedBody(s: string): (r: Result<Parsed<string>>)
    ensures r.Ok? ==> 1 <= r.value.size <= |s|
  {
    if s == "" then Err(Invalid)
    else if s[0] != '\'' then Onto([s[0]], 1, ParseQuotedBody(s[1..]))
    else if |s| > 1 && s[1] == '\'' then Onto("'", 2, ParseQuotedBody(s[2..]))
    else Ok(Parsed("", 1))
  }

  datatype RawValue = RawValue(raw: string, value: Value)

  function ParseColumnValue(s: string): (r: Result<Parsed<RawValue>>)
    ensures r.Ok? ==> r.value.size <= |s| && r.value.value.raw == s[..r.value.size]
  {
    if s != "" && s[0] == '\'' then
      var body :- ParseQuotedBody(s[1..]);
      Ok(Parsed(RawValue(s[..body.size + 1], Quoted(body.value)), body.size + 1))
    else
      var end := IndexChar(s, ' ');
      Ok(Parsed(RawValue(s[..end], ParseScalar(s[..end])), end))
  }

  datatype Head = Head(name: string, typ: string)

  /** The text before the first `stop`, which is taken too. */
  function ParseUntil(s: string, stop: char): (r: Result<Parsed<string>>)
    ensures r.Ok? ==> 1 <= r.value.size <= |s|
  {
    var end := IndexChar(s, stop);
    if end == |s| then Err(Invalid) else Ok(Parsed(s[..end], end + 1))
  }

  /** `name[type]:`. The type ends at its first closing bracket, which a colon must follow. */
  function ParseHead(s: string): (r: Result<Parsed<Head>>)
    ensures r.Ok? ==> 3 <= r.value.size <= |s|
  {
    var name :- ParseUntil(s, '[');
    var typ :- ParseUntil(s[name.size..], ']');
    var size := name.size + typ.size;
    if size >= |s| || s[size] != ':' then Err(Invalid)
    else Ok(Parsed(Head(name.value, typ.value), size + 1))
  }

  function ParseColumn(s: string): (r: Result<Parsed<Column>>)
    ensures r.Ok? ==> 3 <= r.value.size <= |s|
  {
    var head :- ParseHead(s);
    var value :- ParseColumnValue(s[head.size..]);
    Ok(Parsed(Column(head.value.name, head.value.typ, value.value.value, value.value.raw), head.size + value.size))
  }

  function SkipSpaces(s: string): (r: string)
    ensures |r| <= |s| && r == s[|s| - |r|..] && (r != "" ==> r[0] != ' ')
  {
    if s != "" && s[0] == ' ' then SkipSpaces(s[1..]) else s
  }

  function ParseColumns(s: string): Result<seq<Column>>
    decreases |s|
  {
    var t := SkipSpaces(s);
    if t == "" then Ok([])
    else
      var first :- ParseColumn(t);
      var rest :- ParseColumns(t[first.size..]);
      Ok([first.value] + rest)
  }

  const OLD_KEY := "old-key: "
  const SEPARATOR := " new-tuple: "
  const UPDATE := "update"

  /** Columns, old key and new tuple of a change. */
  datatype Tuples = Tuples(columns: seq<Column>, oldKey: seq<Column>, newTuple: seq<Column>)

  function ParseChangeColumns(op: string, body: string): Result<Tuples> {
    if op != UPDATE || !HasPrefix(body, OLD_KEY) then
      var columns :- ParseColumns(body);
      Ok(Tuples(columns, [], []))
    else
      var rest := body[|OLD_KEY|..];
      match Index(rest, SEPARATOR)
      case None => Err(Invalid)
      case Some(i) =>
        var oldKey :- ParseColumns(rest[..i]);
        var newTuple :- ParseColumns(rest[i + |SEPARATOR|..]);
        Ok(Tuples(newTuple, oldKey, newTuple))
  }

  // ---- the cursor loops ----

  /** A cursor that went from `start` to `end` read what the grammar reads from there. */
  predicate Reads<T(==)>(start: nat, end: nat, r: Result<T>, spec: Result<Parsed<T>>) {
    && (r.Err? ==> spec == Err(r.error))
    && (r.Ok? ==> start <= end && spec == Ok(Parsed(r.value, end - start)))
  }

  /** The string builder and the cursor of parseQuotedValue, from just after the opening quote. */
  method ParseQuotedValue(s: string, start: nat) returns (r: Result<string>, pos: nat)
    requires start <= |s|
    ensures pos <= |s| && Reads(start, pos, r, ParseQuotedBody(s[start..]))
  {
    hide ParseQuotedBody, Onto;
    var b := "";
    pos := start;
    ghost var all := ParseQuotedBody(s[start..]);
    OntoEnds("", 0, all);
    while pos < |s|
      invariant start <= pos <= |s|
      invariant all == Onto(b, pos - start, ParseQuotedBody(s[pos..]))
    {
      QuotedStep(s[pos..]);
      OntoEnds(b, pos - start, ParseQuotedBody(s[pos..]));
      if s[pos] == '\'' {
        if pos + 1 < |s| && s[pos + 1] == '\'' {
          Cursor(s, pos, 2);
          OntoOnto(b, pos - start, "'", 2, ParseQuotedBody(s[pos + 2..]));
          b := b + "'";
          pos := pos + 2;
          continue;
        }
        return Ok(b), pos + 1;
      }
      Cursor(s, pos, 1);
      OntoOnto(b, pos - start, [s[pos]], 1, ParseQuotedBody(s[pos + 1..]));
      b := b + [s[pos]];
      pos := pos + 1;
    }
    assert s[pos..] == "";
    OntoEnds(b, pos - start, ParseQuotedBody(""));
    Unterminated();
    return Err(Invalid), pos;
  }

  lemma Unterminated()
    ensures ParseQuotedBody("") == Err(Invalid)
  {
  }

  lemma QuotedStep(s: string)
    requires s != ""
    ensures ParseQuotedBody(s)
            == if s[0] != '\'' then Onto([s[0]], 1, ParseQuotedBody(s[1..]))
               else if |s| > 1 && s[1] == '\'' then Onto("'", 2, ParseQuotedBody(s[2..]))
               else Ok(Parsed("", 1))
  {
    hide Onto;
  }

  method Find(s: string, start: nat, c: char) returns (pos: nat)
    requires start <= |s|
    ensures pos == start + IndexChar(s[start..], c)
  {
    pos := start;
    while pos < |s| && s[pos] != c
      invariant start <= pos <= |s|
      invariant forall j :: start <= j < pos ==> s[j] != c
    {
      pos := pos + 1;
    }
    assert forall j :: 0 <= j < |s| - start ==> s[start..][j] == s[start + j];
    if pos < |s| { IndexCharAt(s[start..], c, pos - start); }
  }

  method ParseUntilAt(s: string, start: nat, stop: char) returns (r: Result<string>, pos: nat)
    requires start <= |s|
    ensures pos <= |s| && Reads(start, pos, r, ParseUntil(s[start..], stop))
  {
    hide IndexChar;
    pos := Find(s, start, stop);
    if pos == |s| { return Err(Invalid), pos; }
    Cursor(s, start, pos - start);
    return Ok(s[start..pos]), pos + 1;
  }

  method ParseHeadAt(s: string, start: nat) returns (r: Result<Head>, pos: nat)
    requires start <= |s|
    ensures pos <= |s| && Reads(start, pos, r, ParseHead(s[start..]))
  {
    hide ParseUntil;
    var name;
    name, pos := ParseUntilAt(s, start, '[');
    if name.Err? { return Err(name.error), pos; }
    Cursor(s, start, pos - start);
    var typ;
    typ, pos := ParseUntilAt(s, pos, ']');
    if typ.Err? { return Err(typ.error), pos; }
    if pos >= |s| || s[pos] != ':' { return Err(Invalid), pos; }
    return Ok(Head(name.value, typ.value)), pos + 1;
  }

  method ParseColumnValueAt(s: string, start: nat) returns (r: Result<RawValue>, pos: nat)
    requires start <= |s|
    ensures pos <= |s| && Reads(start, pos, r, ParseColumnValue(s[start..]))
  {
    hide IndexChar, ParseScalar, ParseQuotedBody;
    pos := start;
    if pos < |s| && s[pos] == '\'' {
      Cursor(s, pos, 1);
      var text;
      text, pos := ParseQuotedValue(s, start + 1);
      if text.Err? { return Err(text.error), pos; }
      Cursor(s, start, pos - start);
      return Ok(RawValue(s[start..pos], Quoted(text.value))), pos;
    }
    pos := Find(s, start, ' ');
    Cursor(s, start, pos - start);
    return Ok(RawValue(s[start..pos], ParseScalar(s[start..pos]))), pos;
  }

  method ParseColumnAt(s: string, start: nat) returns (r: Result<Column>, pos: nat)
    requires start <= |s|
    ensures pos <= |s| && Reads(start, pos, r, ParseColumn(s[start..]))
  {
    hide ParseHead, ParseColumnValue;
    var head;
    head, pos := ParseHeadAt(s, start);
    if head.Err? { return Err(head.error), pos; }
    Cursor(s, start, pos - start);
    var value;
    value, pos := ParseColumnValueAt(s, pos);
    if value.Err? { return Err(value.error), pos; }
    return Ok(Column(head.value.name, head.value.typ, value.value.value, value.value.raw)), pos;
  }

  method ParseColumnsLoop(s: string) returns (r: Result<seq<Column>>)
    ensures r == ParseColumns(s)
  {
    hide ParseColumn, ParseColumns, Prepend, SkipSpaces;
    var columns: seq<Column> := [];
    var pos := 0;
    assert s[0..] == s;
    PrependEnds([], ParseColumns(s));
    while pos < |s|
      invariant pos <= |s|
      invariant ParseColumns(s) == Prepend(columns, ParseColumns(s[pos..]))
      decreases |s| - pos
    {
      ghost var here := s[pos..];
      PrependEnds(columns, ParseColumns(here));
      ColumnsStep(columns, here);
      pos := SkipSpacesAt(s, pos);
      if pos == |s| { return Ok(columns); }
      var column, next := ParseColumnAt(s, pos);
      if column.Err? { return Err(column.error); }
      Cursor(s, pos, next - pos);
      columns := columns + [column.value];
      pos := next;
    }
    assert s[pos..] == "";
    NothingToParse();
    PrependEnds(columns, ParseColumns(""));
    return Ok(columns);
  }

  method SkipSpacesAt(s: string, start: nat) returns (pos: nat)
    requires start <= |s|
    ensures start <= pos <= |s| && s[pos..] == SkipSpaces(s[start..])
  {
    hide SkipSpaces;
    pos := start;
    while pos < |s| && s[pos] == ' '
      invariant start <= pos <= |s|
      invariant SkipSpaces(s[start..]) == SkipSpaces(s[pos..])
    {
      SkipOneAt(s, pos);
      pos := pos + 1;
    }
    SkipOneAt(s, pos);
  }

  lemma SkipOne(s: string)
    ensures SkipSpaces(s) == if s != "" && s[0] == ' ' then SkipSpaces(s[1..]) else s
  {
  }

  lemma SkipOneAt(s: string, pos: nat)
    requires pos <= |s|
    ensures SkipSpaces(s[pos..]) == if pos < |s| && s[pos] == ' ' then SkipSpaces(s[pos + 1..]) else s[pos..]
  {
    hide SkipSpaces;
    SkipOne(s[pos..]);
    if pos < |s| { Cursor(s, pos, 1); }
  }

  /** One turn of the column loop. */
  lemma ColumnsStep(done: seq<Column>, s: string)
    ensures var t := SkipSpaces(s);
            if t == "" then ParseColumns(s) == Ok([])
            else match ParseColumn(t)
              case Err(e) => ParseColumns(s) == Err(e)
              case Ok(first) =>
                Prepend(done, ParseColumns(s)) == Prepend(done + [first.value], ParseColumns(t[first.size..]))
  {
    hide ParseColumn, SkipSpaces;
    var t := SkipSpaces(s);
    if t != "" && ParseColumn(t).Ok? {
      var first := ParseColumn(t).value;
      var rest := ParseColumns(t[first.size..]);
      if rest.Ok? { Assoc(done, [first.value], rest.value); }
    }
  }

  lemma NothingToParse()
    ensures ParseColumns("") == Ok([])
  {
  }
}
