/** Logical decoding lines as events, and the line decoder's loop (postgres/decode/decoder/parser.go,
    postgres/decode/decoder/decoder.go). */
module PgStream {
  import opened Bytes
  import opened Text
  import opened PgParser
  import opened PgText
  import opened Restart
  import Recovery

  const DRIVER := "pg"
  const BEGIN := "BEGIN"
  const COMMIT := "COMMIT"
  const TABLE := "table "
  const FIELD := ": "

  datatype Change = Change(
    schema: string, table: string, operation: string,
    columns: seq<Column>, oldKey: seq<Column>, newTuple: seq<Column>)

  datatype Body = Begin(id: string) | Commit(id: string) | RowChange(change: Change)

  datatype TableName = TableName(schema: string, table: string)

  function SplitTable(name: string): TableName {
    var i := AfterLast(name, '.');
    if i > 0 then TableName(name[..i - 1], name[i..]) else TableName("", name)
  }

  /** A table's schema and name are recovered, dots in the schema or not, exactly when the name has no dot: the
      qualified name is cut at its last one. */
  lemma SplitQualified(schema: string, table: string)
    ensures SplitTable(schema + "." + table) == TableName(schema, table) <==> '.' !in table
  {
    var name := schema + "." + table;
    SplitUndotted(name);
    if '.' !in table {
      LastDot(schema, table);
      assert name[..|schema|] == schema && name[|schema| + 1..] == table;
    }
  }

  lemma SplitUndotted(name: string)
    ensures '.' !in SplitTable(name).table
  {
    var i := AfterLast(name, '.');
    assert i == 0 ==> name[i..] == name;
    assert forall j :: i <= j < |name| ==> name[j] == name[i..][j - i];
  }

  lemma {:induction false} LastDot(schema: string, table: string)
    requires '.' !in table
    ensures AfterLast(schema + "." + table, '.') == |schema| + 1
    decreases |table|
  {
    var name := schema + "." + table;
    if table == "" {
    } else {
      var shorter := table[..|table| - 1];
      LastDot(schema, shorter);
      assert name[..|name| - 1] == schema + "." + shorter && name[|name| - 1] == table[|table| - 1];
    }
  }

  datatype Field = Field(text: string, rest: string)

  /** The text before the first field separator, and the text after it. */
  function TakeField(s: string): Result<Field> {
    match Index(s, FIELD)
    case None => Err(Invalid)
    case Some(i) => Ok(Field(s[..i], s[i..][|FIELD|..]))
  }

  function ParseOperation(name: TableName, s: string): Result<Change> {
    var field :- TakeField(s);
    var operation := ToLower(TrimSpace(field.text));
    if operation == "" then Err(Invalid)
    else
      var tuples :- ParseChangeColumns(operation, field.rest);
      Ok(Change(name.schema, name.table, operation, tuples.columns, tuples.oldKey, tuples.newTuple))
  }

  function ParseChange(line: string): Result<Change> {
    var field :- TakeField(if HasPrefix(line, TABLE) then line[|TABLE|..] else line);
    var name := SplitTable(TrimSpace(field.text));
    if name.table == "" then Err(Invalid) else ParseOperation(name, field.rest)
  }

  function ParseLine(line: string): Result<Body> {
    if HasPrefix(line, BEGIN) then Ok(Begin(TrimSpace(line[|BEGIN|..])))
    else if HasPrefix(line, COMMIT) then Ok(Commit(TrimSpace(line[|COMMIT|..])))
    else if HasPrefix(line, TABLE) then
      var change :- ParseChange(line);
      Ok(RowChange(change))
    else Err(Invalid)
  }

  // ---- whole lines ----

  function Qualified(c: Change): string { c.schema + "." + c.table }

  function RenderBody(c: Change): string {
    if c.operation == "update" && c.oldKey != [] then RenderUpdate(c.oldKey, c.newTuple) else Render(c.columns)
  }

  /** The line of a change, its operation written as `word`. */
  function RenderLine(c: Change, word: string): string {
    "table " + (Qualified(c) + (": " + (word + (": " + RenderBody(c)))))
  }

  /** A field is cut at its own end exactly when it holds no separator; otherwise it is cut short. */
  lemma TakeFieldOf(field: string, rest: string)
    ensures var r := TakeField(field + (FIELD + rest));
            && r.Ok? && (!Contains(field, FIELD) ==> r.value == Field(field, rest))
            && (Contains(field, FIELD) ==> |r.value.text| < |field|)
  {
    var s := field + (FIELD + rest);
    forall j: nat | j < |field| ensures OccursAt(s, FIELD, j) <==> OccursAt(field, FIELD, j) {
      if j + 2 <= |field| {
        assert s[j..j + 2] == field[j..j + 2];
      } else {
        assert s[j + 1] == ':' && s[j..j + 2][1] == s[j + 1] && FIELD[1] == ' ';
      }
    }
    assert s[|field|..|field| + 2] == FIELD && OccursAt(s, FIELD, |field|);
    assert s[..|field|] == field && s[|field|..] == FIELD + rest && (FIELD + rest)[2..] == rest;
    if Contains(field, FIELD) {
      var j: nat :| OccursAt(field, FIELD, j);
      assert OccursAt(s, FIELD, j);
    }
  }

  lemma SplitJoined(name: string)
    requires SplitTable(name).schema != ""
    ensures name == SplitTable(name).schema + "." + SplitTable(name).table
  {
    var i := AfterLast(name, '.');
    assert name == name[..i - 1] + [name[i - 1]] + name[i..];
  }

  lemma TrimShortens(s: string)
    ensures |TrimSpace(s)| <= |s| && (|TrimSpace(s)| == |s| ==> TrimSpace(s) == s)
  {
  }

  /** The qualified name survives: the table's own name is not empty and has no dot to cut it at, no space around
      the whole is trimmed off, and no separator in it cuts it short. */
  ghost predicate KeepsName(c: Change) {
    && c.table != "" && '.' !in c.table
    && TrimSpace(Qualified(c)) == Qualified(c) && !Contains(Qualified(c), FIELD)
  }

  /** A change's line comes back if and only if its qualified name does and its body does, as
      `ColumnsRoundTrip` and `UpdateRoundTrip` say of bodies. */
  lemma LineRoundTrip(c: Change, word: string)
    requires c.schema != ""
    requires ToLower(TrimSpace(word)) == c.operation != "" && !Contains(word, FIELD)
    ensures ParseLine(RenderLine(c, word)) == Ok(RowChange(c))
            <==> && KeepsName(c)
                 && ParseChangeColumns(c.operation, RenderBody(c)) == Ok(Tuples(c.columns, c.oldKey, c.newTuple))
  {
    hide TakeField, SplitTable, TrimSpace, ToLower, ParseChangeColumns, RenderBody, Contains, ParseOperation;
    var body := RenderBody(c);
    var operation := word + (FIELD + body);
    var fields := Qualified(c) + (FIELD + operation);
    var line := RenderLine(c, word);
    LineIsChange(fields);
    TakeFieldOf(Qualified(c), operation);
    OperationRead(TableName(c.schema, c.table), word, body);
    SplitQualified(c.schema, c.table);
    TrimShortens(Qualified(c));
    NamedAsSplit(fields);
    if !KeepsName(c) {
      var name := TrimSpace(TakeField(fields).value.text);
      TrimShortens(TakeField(fields).value.text);
      SplitUndotted(name);
      if SplitTable(name).schema != "" { SplitJoined(name); }
    }
  }

  lemma LineIsChange(fields: string)
    ensures var line := TABLE + fields;
            && ParseLine(line) == (match ParseChange(line) case Err(e) => Err(e) case Ok(c) => Ok(RowChange(c)))
            && ParseChange(line) == (match TakeField(fields)
                                     case Err(e) => Err(e)
                                     case Ok(f) =>
                                       var name := SplitTable(TrimSpace(f.text));
                                       if name.table == "" then Err(Invalid) else ParseOperation(name, f.rest))
  {
    hide TakeField, SplitTable, TrimSpace, ParseOperation;
    Concat(TABLE, fields);
    assert (TABLE + fields)[0] == 't';
  }

  /** A parsed change has the schema and table that its first field splits into. */
  lemma NamedAsSplit(fields: string)
    ensures var c := ParseChange(TABLE + fields);
            c.Ok? ==> c.value.table != "" && TakeField(fields).Ok?
                      && TableName(c.value.schema, c.value.table) == SplitTable(TrimSpace(TakeField(fields).value.text))
  {
    hide TakeField, SplitTable, TrimSpace, ToLower, ParseChangeColumns;
    LineIsChange(fields);
  }

  lemma OperationRead(name: TableName, word: string, body: string)
    requires ToLower(TrimSpace(word)) != "" && !Contains(word, FIELD)
    ensures var operation := ToLower(TrimSpace(word));
            ParseOperation(name, word + (FIELD + body))
            == (match ParseChangeColumns(operation, body)
                case Err(e) => Err(e)
                case Ok(t) => Ok(Change(name.schema, name.table, operation, t.columns, t.oldKey, t.newTuple)))
  {
    hide TakeField, TrimSpace, ToLower, ParseChangeColumns, Contains;
    TakeFieldOf(word, body);
  }

  /** A word of letters in any case is the operation of its line, in lower case. */
  lemma OperationWord(c: Change, word: string, lower: string)
    requires lower != "" && InAnyCase(word, lower) && !Contains(Qualified(c), ": ")
    requires ParseLine(RenderLine(c, word)).Ok?
    ensures ParseLine(RenderLine(c, word)).value.RowChange?
    ensures ParseLine(RenderLine(c, word)).value.change.operation == lower
  {
    hide TakeField, SplitTable, TrimSpace, ToLower, ParseChangeColumns, RenderBody, Contains, ParseOperation, InAnyCase;
    var body := RenderBody(c);
    var operation := word + (": " + body);
    LineIsChange(Qualified(c) + (": " + operation));
    TakeFieldOf(Qualified(c), operation);
    LettersStay(word, lower);
    LoweredWord(word, lower);
    var name := SplitTable(TrimSpace(Qualified(c)));
    OperationRead(name, word, body);
  }

  lemma LettersStay(word: string, lower: string)
    requires lower != "" && InAnyCase(word, lower)
    ensures TrimSpace(word) == word && !Contains(word, ": ")
  {
    assert !IsSpace(word[0]) && !IsSpace(word[|word| - 1]);
    forall j: nat ensures !OccursAt(word, ": ", j) {
      if j + 2 <= |word| { assert word[j..j + 2][0] == word[j] && word[j] != ':'; }
    }
  }

  /** For inserts and deletes: when the name keeps and no column's name or type holds a delimiter. */
  lemma RowLineRoundTrip(c: Change, word: string)
    requires c.schema != ""
    requires ToLower(TrimSpace(word)) == c.operation != "" && !Contains(word, FIELD)
    requires c.operation != "update" && c.oldKey == [] && c.newTuple == [] && AllRendered(c.columns)
    ensures ParseLine(RenderLine(c, word)) == Ok(RowChange(c))
            <==> KeepsName(c) && AllDelimited(c.columns)
  {
    hide ParseLine, RenderLine, KeepsName, Contains, TrimSpace, ToLower, ParseColumns, Render,
      AllRendered, AllDelimited;
    LineRoundTrip(c, word);
    ColumnsRoundTrip(c.columns);
  }

  /** For updates with both images: when the name keeps and the old key does not hold the separator. */
  lemma UpdateLineRoundTrip(c: Change, word: string)
    requires c.schema != ""
    requires ToLower(TrimSpace(word)) == "update" == c.operation && !Contains(word, FIELD)
    requires c.columns == c.newTuple && c.oldKey != []
    requires AllRendered(c.oldKey) && AllDelimited(c.oldKey) && AllRendered(c.newTuple) && AllDelimited(c.newTuple)
    ensures ParseLine(RenderLine(c, word)) == Ok(RowChange(c))
            <==> KeepsName(c) && !Contains(Render(c.oldKey), SEPARATOR)
  {
    hide ParseLine, RenderLine, KeepsName, Contains, TrimSpace, ToLower, ParseChangeColumns,
      Render, AllRendered, AllDelimited;
    LineRoundTrip(c, word);
    UpdateRoundTrip(c.oldKey, c.newTuple);
  }

  /** The lines around a transaction, and lines of no known kind. */
  lemma OtherLines(id: string, line: string)
    requires TrimSpace(id) == id
    ensures ParseLine("BEGIN " + id) == Ok(Begin(id)) && ParseLine("COMMIT " + id) == Ok(Commit(id))
    ensures !HasPrefix(line, "BEGIN") && !HasPrefix(line, "COMMIT") && !HasPrefix(line, "table ") ==>
              ParseLine(line) == Err(Invalid)
  {
    hide TrimSpace, ParseChange;
    SpaceTrimmed(id);
    assert ("BEGIN " + id)[..5] == "BEGIN" && ("BEGIN " + id)[5..] == " " + id;
    assert ("COMMIT " + id)[..6] == "COMMIT" && ("COMMIT " + id)[6..] == " " + id && ("COMMIT " + id)[0] == 'C';
  }

  lemma NoField(s: string)
    requires !Contains(s, ": ")
    ensures TakeField(s) == Err(Invalid)
  {
  }

  /** A table line with no field at all, or with a first field that names no table, is refused. */
  lemma NamelessLines(name: string, rest: string)
    requires !Contains(name, ": ")
    ensures ParseLine("table " + name) == Err(Invalid)
    ensures TrimSpace(name) == "" ==> ParseLine("table " + (name + (": " + rest))) == Err(Invalid)
  {
    hide TrimSpace, ParseOperation, Contains, TakeField, ParseLine, ParseChange;
    LineIsChange(name);
    NoField(name);
    LineIsChange(name + (": " + rest));
    TakeFieldOf(name, rest);
  }

  /** And so is one with no second field, or with no operation in it. */
  lemma LinesWithoutOperation(name: string, word: string, rest: string)
    requires !Contains(name, ": ") && !Contains(word, ": ")
    ensures ParseLine("table " + (name + (": " + word))) == Err(Invalid)
    ensures TrimSpace(word) == "" ==> ParseLine("table " + (name + (": " + (word + (": " + rest))))) == Err(Invalid)
  {
    hide TrimSpace, SplitTable, ParseChangeColumns, Contains, TakeField, ParseLine, ParseChange;
    LineIsChange(name + (": " + word));
    TakeFieldOf(name, word);
    NoField(word);
    LineIsChange(name + (": " + (word + (": " + rest))));
    TakeFieldOf(name, word + (": " + rest));
    TakeFieldOf(word, rest);
  }

  lemma SpaceTrimmed(s: string)
    ensures TrimSpace(" " + s) == TrimSpace(s)
  {
    hide TrimRight;
    assert (" " + s)[1..] == s;
  }

  // ---- the event loop ----

  datatype Entry = Entry(raw: string, body: Body)

  /** Events, and the error that ended them if one did. */
  datatype Events = Events(placed: seq<Placed<Entry>>, failed: Option<Error>)

  predicate Blank(line: string) { TrimSpace(line) == "" }

  /** Nothing but spaces and the controls from tab to carriage return. */
  predicate AllSpace(s: string) { forall i :: 0 <= i < |s| ==> s[i] == ' ' || 9 <= s[i] as int <= 13 }

  lemma BlankExactly(line: string)
    ensures Blank(line) <==> AllSpace(line)
  {
    hide AllSpace;
    AllTrimmed(line);
    var left := TrimLeft(line);
    if left != "" { FirstStays(left); }
  }

  lemma AllSpaceCons(s: string)
    ensures AllSpace(s) <==> s == "" || (IsSpace(s[0]) && AllSpace(s[1..]))
  {
    if s != "" && IsSpace(s[0]) && AllSpace(s[1..]) {
      forall i | 0 <= i < |s| ensures IsSpace(s[i]) {
        if i > 0 { assert s[1..][i - 1] == s[i]; }
      }
    }
  }

  lemma {:induction false} AllTrimmed(s: string)
    ensures TrimLeft(s) == "" <==> AllSpace(s)
  {
    hide AllSpace, IsSpace;
    AllSpaceCons(s);
    if s == "" {
    } else {
      AllTrimmed(s[1..]);
    }
  }

  lemma {:induction false} FirstStays(s: string)
    requires s != "" && !IsSpace(s[0])
    ensures TrimRight(s) != ""
  {
    if |s| > 1 && IsSpace(s[|s| - 1]) { FirstStays(s[..|s| - 1]); }
  }

  /** Lines counted from `position`. Those up to `start` are not even parsed; blank ones count but are no
      events; the first that cannot be parsed ends the stream. */
  function EventsFrom(lines: seq<string>, position: nat, start: nat): Events {
    if lines == [] then Events([], None)
    else if position + 1 <= start || Blank(lines[0]) then EventsFrom(lines[1..], position + 1, start)
    else
      match ParseLine(lines[0])
      case Err(e) => Events([], Some(e))
      case Ok(body) =>
        var rest := EventsFrom(lines[1..], position + 1, start);
        Events([Placed(position + 1, Entry(lines[0], body))] + rest.placed, rest.failed)
  }

  /** The lines through the last one that is not blank. */
  function LastRead(lines: seq<string>): (n: nat)
    ensures n <= |lines|
  {
    if lines == [] then 0
    else
      var rest := LastRead(lines[1..]);
      if rest > 0 then rest + 1 else if Blank(lines[0]) then 0 else 1
  }

  /** Unless a line cannot be read, what is handed out ends with the last line that is not blank, if that lies
      behind the start, and is nothing otherwise. */
  lemma {:induction false} EndsAtLastRead(lines: seq<string>, position: nat, start: nat)
    requires EventsFrom(lines, position, start).failed.None?
    ensures var placed := EventsFrom(lines, position, start).placed;
            if LastRead(lines) == 0 || position + LastRead(lines) <= start then placed == []
            else placed != [] && placed[|placed| - 1].position == position + LastRead(lines)
    decreases |lines|
  {
    hide Blank, ParseLine;
    if lines == [] {
    } else {
      EndsAtLastRead(lines[1..], position + 1, start);
    }
  }

  /** Counting anew from 1, as a second call of the iterator does after `consumed` lines, hands out the events
      that are due, over lines that can all be read, if and only if none are left to come. */
  lemma CountedAnew(lines: seq<string>, consumed: nat, start: nat)
    requires EventsFrom(lines, 0, start).failed.None? && EventsFrom(lines, consumed, start).failed.None?
    ensures EventsFrom(lines, 0, start) == EventsFrom(lines, consumed, start)
            <==> consumed == 0 || LastRead(lines) == 0 || consumed + LastRead(lines) <= start
  {
    hide EventsFrom, LastRead;
    EndsAtLastRead(lines, 0, start);
    EndsAtLastRead(lines, consumed, start);
  }

  class Decoder {
    const startPosition: nat
    /** The lines that are yet to be scanned. */
    var scanner: seq<string>

    constructor (lines: seq<string>, startPosition: nat)
      ensures this.startPosition == startPosition && scanner == lines
    {
      this.startPosition, scanner := startPosition, lines;
    }

    /** The iterator, for a consumer that breaks off after `wanted` events. What is left in the scanner is the
        rest of the stream, but the next call numbers it from 1 again. */
    method Events(wanted: nat) returns (placed: seq<Placed<Entry>>, done: bool, failed: Option<Error>)
      requires wanted >= 1
      modifies this`scanner
      ensures var all := EventsFrom(old(scanner), 0, startPosition);
              if done then placed == all.placed && failed == all.failed
              else
                && |placed| == wanted
                && var left := EventsFrom(scanner, placed[wanted - 1].position, startPosition);
                   all.placed == placed + left.placed && all.failed == left.failed
    {
      hide Blank, ParseLine;
      placed := [];
      ghost var all := EventsFrom(scanner, 0, startPosition);
      assert [] + all.placed == all.placed;
      var position := 0;
      while scanner != []
        invariant |placed| < wanted
        invariant all.placed == placed + EventsFrom(scanner, position, startPosition).placed
        invariant all.failed == EventsFrom(scanner, position, startPosition).failed
      {
        var line := scanner[0];
        scanner := scanner[1..];
        position := position + 1;
        if position <= startPosition || Blank(line) { continue; }
        var body := ParseLine(line);
        if body.Err? {
          assert placed + [] == placed;
          return placed, true, Some(body.error);
        }
        var entry := Placed(position, Entry(line, body.value));
        Assoc(placed, [entry], EventsFrom(scanner, position, startPosition).placed);
        placed := placed + [entry];
        if |placed| == wanted { return placed, false, None; }
      }
      assert placed + [] == placed;
      return placed, true, None;
    }
  }

  /** Events lie at rising positions, each after the lines already counted and within the input. */
  lemma {:induction false} PositionsRise(lines: seq<string>, position: nat, start: nat)
    ensures var placed := EventsFrom(lines, position, start).placed;
            && (forall i :: 0 <= i < |placed| ==> position < placed[i].position <= position + |lines|)
            && Rising(placed)
  {
    hide Blank, ParseLine;
    if lines == [] {
    } else {
      PositionsRise(lines[1..], position + 1, start);
    }
  }

  /** Starting at the position of an event skips everything through that event and nothing more. */
  lemma {:induction false} OpenAtEvent(lines: seq<string>, position: nat, j: nat)
    requires j < |EventsFrom(lines, position, 0).placed|
    ensures var all := EventsFrom(lines, position, 0);
            EventsFrom(lines, position, all.placed[j].position) == Events(all.placed[j + 1..], all.failed)
  {
    hide Blank, ParseLine;
    var all := EventsFrom(lines, position, 0).placed;
    PositionsRise(lines, position, 0);
    var p := all[j].position;
    if Blank(lines[0]) {
      OpenAtEvent(lines[1..], position + 1, j);
    } else {
      var rest := EventsFrom(lines[1..], position + 1, 0).placed;
      assert all[1..] == rest;
      if j == 0 {
        NothingSkipped(lines[1..], position + 1, p);
      } else {
        assert rest[j - 1] == all[j] && all[j + 1..] == rest[j..];
        OpenAtEvent(lines[1..], position + 1, j - 1);
      }
    }
  }

  /** A start that is already behind skips nothing. */
  lemma {:induction false} NothingSkipped(lines: seq<string>, position: nat, start: nat)
    requires start <= position
    ensures EventsFrom(lines, position, start) == EventsFrom(lines, position, 0)
  {
    hide Blank, ParseLine;
    if lines == [] {
    } else {
      NothingSkipped(lines[1..], position + 1, start);
    }
  }

  function Open(lines: seq<string>): nat -> seq<Placed<Entry>> { (start: nat) => EventsFrom(lines, 0, start).placed }

  /** Restart exactness for PostgreSQL: over the same lines, blank ones counted but not handed out, any
      sequence of interruptions adds up to the uninterrupted run; a line that cannot be parsed ends both at
      the same event. */
  lemma PgRestartExact(lines: seq<string>, cuts: seq<nat>)
    requires |lines| < TWO_63
    ensures Runs(Open(lines), "pg", Recovery.Position("", ""), cuts)
            == Recovery.First(EventsFrom(lines, 0, 0).placed, Sum(cuts))
  {
    hide EventsFrom, Runs, Recovery.First, Rising;
    var all := EventsFrom(lines, 0, 0).placed;
    PositionsRise(lines, 0, 0);
    forall j | 0 <= j < |all| ensures Open(lines)(all[j].position) == all[j + 1..] {
      OpenAtEvent(lines, 0, j);
    }
    RestartExact(Open(lines), DRIVER, cuts);
  }
}
