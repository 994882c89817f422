/** test_decoding column text as a server renders it, and the proof that the parser reads it back; also the
    SQL literals of postgres/decode/events/types/sql.go. */
module PgText {
  import opened Bytes
  import opened Numerals
  import opened Reading
  import opened Text
  import opened PgParser

  // ---- quoting ----

  /** strings.ReplaceAll of a quote by two. */
  function Double(s: string): string {
    if s == "" then "" else (if s[0] == '\'' then "''" else [s[0]]) + Double(s[1..])
  }

  function Quote(s: string): string { "'" + Double(s) + "'" }

  /** The text of a value in a statement; floats aside, which fmt prints. */
  function SqlValue(v: Value): string
    requires !v.Plain?
  {
    match v
    case Null => "NULL"
    case Bool(b) => if b then "TRUE" else "FALSE"
    case Int(n) => Itoa(n)
    case Quoted(text) => Quote(text)
  }

  predicate NoQuoteNext(rest: string) { rest == "" || rest[0] != '\'' }

  lemma {:induction false} BodyOfDoubled(s: string, rest: string)
    requires NoQuoteNext(rest)
    ensures ParseQuotedBody(Double(s) + "'" + rest) == Ok(Parsed(s, |Double(s)| + 1))
    decreases |s|
  {
    hide Double, Onto;
    DoubleStep(s);
    var t := Double(s) + "'" + rest;
    if s == "" {
      assert t == "'" + rest && (|t| > 1 ==> t[1] == rest[0]);
    } else {
      var tail := Double(s[1..]) + "'" + rest;
      BodyOfDoubled(s[1..], rest);
      OntoIs([s[0]], s[1..], |Double(s[1..])| + 1);
      assert [s[0]] + s[1..] == s;
      if s[0] == '\'' {
        assert t == "''" + tail && t[2..] == tail;
      } else {
        assert t == [s[0]] + tail && t[1..] == tail;
      }
    }
  }

  lemma DoubleStep(s: string)
    ensures Double(s) == if s == "" then "" else (if s[0] == '\'' then "''" else [s[0]]) + Double(s[1..])
  {
  }

  lemma OntoIs(b: string, v: string, n: nat)
    ensures Onto(b, 1, Ok(Parsed(v, n))) == Ok(Parsed(b + v, n + 1))
    ensures Onto(b, 2, Ok(Parsed(v, n))) == Ok(Parsed(b + v, n + 2))
  {
  }

  /** parseQuotedValue inverts sqlValue's quote doubling on every string, quotes and all. */
  lemma QuoteRoundTrip(text: string, rest: string)
    requires NoQuoteNext(rest)
    ensures ParseColumnValue(SqlValue(Quoted(text)) + rest)
            == Ok(Parsed(RawValue(Quote(text), Quoted(text)), |Quote(text)|))
  {
    hide ParseQuotedBody, Double;
    var s := Quote(text) + rest;
    BodyOfDoubled(text, rest);
    assert s[1..] == Double(text) + "'" + rest;
    Concat(Quote(text), rest);
  }

  /** A quote that is never closed is refused. */
  lemma {:induction false} Unclosed(s: string)
    ensures ParseQuotedBody(Double(s)) == Err(Invalid)
    decreases |s|
  {
    hide Double, Onto;
    DoubleStep(s);
    if s == "" {
    } else {
      var tail := Double(s[1..]);
      Unclosed(s[1..]);
      OntoEnds([s[0]], 1, ParseQuotedBody(tail));
      OntoEnds([s[0]], 2, ParseQuotedBody(tail));
      if s[0] == '\'' {
        assert ("''" + tail)[2..] == tail && [s[0]] == "'";
      } else {
        assert ([s[0]] + tail)[1..] == tail;
      }
    }
  }

  // ---- words and numbers ----

  /** What unquoted text is: three words, every 64-bit number, and other text that stays as it is. */
  lemma ScalarsInWords(n: int, raw: string)
    ensures ParseScalar("null") == Null && ParseScalar("true") == Bool(true) && ParseScalar("false") == Bool(false)
    ensures -TWO_63 <= n < TWO_63 ==> ParseScalar(Itoa(n)) == Int(n)
    ensures raw !in ["null", "true", "false"] && ParseInt(raw).None? ==> ParseScalar(raw) == Plain(raw)
  {
    hide ParseInt, Itoa;
    if -TWO_63 <= n < TWO_63 {
      ParseIntOfItoa(n);
      NumeralStart(n);
    }
  }

  lemma NumeralStart(n: int)
    ensures Itoa(n)[0] == '-' || IsDigit(Itoa(n)[0])
  {
    assert IsDigit(Digits(if n < 0 then -n else n)[0]);
  }

  /** A statement's literal means the value it was made from: a server reads words in any case, and quoted text with
      its quotes undoubled. */
  lemma LiteralRoundTrip(v: Value)
    requires !v.Plain? && (v.Int? ==> -TWO_63 <= v.n < TWO_63)
    ensures if v.Quoted? then ParseColumnValue(SqlValue(v)) == Ok(Parsed(RawValue(SqlValue(v), v), |SqlValue(v)|))
            else ParseScalar(ToLower(SqlValue(v))) == v
  {
    hide ParseScalar, ParseColumnValue, Quote, Itoa, ToLower;
    ScalarsInWords(if v.Int? then v.n else 0, "");
    match v
    case Null => LoweredWord("NULL", "null");
    case Bool(b) => if b { LoweredWord("TRUE", "true"); } else { LoweredWord("FALSE", "false"); }
    case Int(n) => LoweredNumeral(n);
    case Quoted(text) =>
      QuoteRoundTrip(text, "");
      assert Quote(text) + "" == Quote(text);
  }

  lemma LoweredNumeral(n: int)
    ensures ToLower(Itoa(n)) == Itoa(n)
  {
    var s := Itoa(n);
    var digits := Digits(if n < 0 then -n else n);
    forall i | 0 <= i < |s| ensures ToLower(s)[i] == s[i] {
      LoweredAt(s, i);
      assert if n >= 0 then IsDigit(digits[i]) else s[0] == '-' && (i > 0 ==> IsDigit(digits[i - 1]));
    }
  }

  // ---- columns ----

  /** What a server can render after the colon: a quoted text, or text without spaces that opens no quote. */
  predicate Rendered(c: Column) {
    || (c.value.Quoted? && c.raw == Quote(c.value.text))
    || (' ' !in c.raw && NoQuoteNext(c.raw) && c.value == ParseScalar(c.raw))
  }

  /** The name and type hold none of the characters that end them. */
  predicate Delimited(c: Column) { '[' !in c.name && (c.name == "" || c.name[0] != ' ') && ']' !in c.typ }

  function RenderHead(name: string, typ: string): string { name + "[" + (typ + "]" + ":") }

  function RenderColumn(c: Column): string { RenderHead(c.name, c.typ) + c.raw }

  function Render(columns: seq<Column>): string {
    if |columns| == 0 then "" else if |columns| == 1 then RenderColumn(columns[0])
    else RenderColumn(columns[0]) + (" " + Render(columns[1..]))
  }

  lemma UntilOf(s: string, stop: char, rest: string)
    requires stop !in s
    ensures ParseUntil(s + [stop] + rest, stop) == Ok(Parsed(s, |s| + 1))
    ensures (s + [stop] + rest)[|s| + 1..] == rest
  {
    var t := s + [stop] + rest;
    IndexCharAt(t, stop, |s|);
    assert t[..|s|] == s;
  }

  predicate Boundary(rest: string) { rest == "" || rest[0] == ' ' }

  lemma ValueOf(c: Column, rest: string)
    requires Rendered(c) && Boundary(rest)
    ensures ParseColumnValue(c.raw + rest) == Ok(Parsed(RawValue(c.raw, c.value), |c.raw|))
  {
    hide ParseQuotedBody, Double, ParseScalar;
    if c.value.Quoted? && c.raw == Quote(c.value.text) {
      QuoteRoundTrip(c.value.text, rest);
    } else {
      var s := c.raw + rest;
      if rest == "" {
        assert s == c.raw && IndexChar(s, ' ') == |s|;
      } else {
        IndexCharAt(s, ' ', |c.raw|);
      }
      Concat(c.raw, rest);
    }
  }

  lemma HeadOf(name: string, typ: string, rest: string)
    requires '[' !in name && ']' !in typ
    ensures ParseHead(RenderHead(name, typ) + rest) == Ok(Parsed(Head(name, typ), |RenderHead(name, typ)|))
  {
    hide ParseUntil;
    var afterType := ":" + rest;
    var afterName := typ + "]" + afterType;
    UntilOf(name, '[', afterName);
    UntilOf(typ, ']', afterType);
    var s := name + "[" + afterName;
    Assoc(name + "[", typ + "]" + ":", rest);
    Assoc(typ + "]", ":", rest);
    assert s[|name| + 1 + (|typ| + 1)] == ':';
  }

  lemma ColumnOf(c: Column, rest: string)
    requires Rendered(c) && Delimited(c) && Boundary(rest)
    ensures ParseColumn(RenderColumn(c) + rest) == Ok(Parsed(c, |RenderColumn(c)|))
    ensures (RenderColumn(c) + rest)[|RenderColumn(c)|..] == rest
  {
    hide ParseHead, ParseColumnValue, Rendered, RenderHead;
    var head := RenderHead(c.name, c.typ);
    HeadOf(c.name, c.typ, c.raw + rest);
    ValueOf(c, rest);
    Assoc(head, c.raw, rest);
    Concat(head, c.raw + rest);
    Concat(RenderColumn(c), rest);
  }

  lemma UntilConserved(s: string, stop: char)
    requires ParseUntil(s, stop).Ok?
    ensures var p := ParseUntil(s, stop).value;
            s[..p.size] == p.value + [stop] && stop !in p.value
  {
  }

  lemma HeadConserved(s: string)
    requires ParseHead(s).Ok?
    ensures var p := ParseHead(s).value;
            s[..p.size] == RenderHead(p.value.name, p.value.typ) && '[' !in p.value.name && ']' !in p.value.typ
  {
    hide ParseUntil;
    UntilConserved(s, '[');
    var name := ParseUntil(s, '[').value;
    UntilConserved(s[name.size..], ']');
    var typ := ParseUntil(s[name.size..], ']').value;
    var size := name.size + typ.size;
    Cursor(s, name.size, typ.size);
    assert s[..size + 1] == s[..name.size] + (s[name.size..size] + [s[size]]);
  }

  /** Whatever column the parser reads, the text it took is that column rendered: nothing is lost. */
  lemma ColumnConserved(s: string)
    requires ParseColumn(s).Ok?
    ensures var p := ParseColumn(s).value;
            RenderColumn(p.value) == s[..p.size] && '[' !in p.value.name && ']' !in p.value.typ
  {
    hide ParseHead, ParseColumnValue, RenderHead;
    HeadConserved(s);
    var head := ParseHead(s).value;
    var value := ParseColumnValue(s[head.size..]).value;
    Cursor(s, head.size, value.size);
    assert s[..head.size] + s[head.size..head.size + value.size] == s[..head.size + value.size];
  }

  lemma NotSpaceFirst(c: Column, rest: string)
    requires Delimited(c)
    ensures var s := RenderColumn(c) + rest;
            s != "" && s[0] != ' ' && SkipSpaces(s) == s
  {
  }

  lemma LeadingSpace(s: string)
    ensures ParseColumns(" " + s) == ParseColumns(s)
  {
    hide ParseColumn;
    assert (" " + s)[1..] == s;
  }

  predicate AllRendered(columns: seq<Column>) { forall i :: 0 <= i < |columns| ==> Rendered(columns[i]) }
  predicate AllDelimited(columns: seq<Column>) { forall i :: 0 <= i < |columns| ==> Delimited(columns[i]) }

  /** What follows the first column of a rendered list. */
  function Tail(columns: seq<Column>): string { if |columns| <= 1 then "" else " " + Render(columns[1..]) }

  lemma RenderCons(columns: seq<Column>)
    requires columns != []
    ensures Render(columns) == RenderColumn(columns[0]) + Tail(columns) && Boundary(Tail(columns))
    ensures ParseColumns(Tail(columns)) == ParseColumns(Render(columns[1..]))
  {
    hide ParseColumns, RenderColumn;
    if |columns| == 1 {
      assert RenderColumn(columns[0]) + "" == RenderColumn(columns[0]);
      assert columns[1..] == [];
    } else {
      LeadingSpace(Render(columns[1..]));
    }
  }

  /** parseColumns returns the rendered columns exactly when each name and type is free of the characters that
      delimit it: a type such as `text[]` or a name with a bracket makes the line unreadable or misread. */
  lemma {:induction false} ColumnsRoundTrip(columns: seq<Column>)
    requires AllRendered(columns)
    ensures ParseColumns(Render(columns)) == Ok(columns) <==> AllDelimited(columns)
    decreases |columns|
  {
    hide ParseColumn, RenderColumn, Rendered, Delimited, Render, SkipSpaces;
    if columns == [] {
      assert Render([]) == "" by { RenderNothing(); }
      NothingToParse();
    } else {
      var c, tail := columns[0], Tail(columns);
      RenderCons(columns);
      var s := RenderColumn(c) + tail;
      assert Rendered(c);
      assert columns == [c] + columns[1..];
      SplitDelimited(columns);
      if Delimited(c) {
        NotSpaceFirst(c, tail);
        ColumnOf(c, tail);
        ColumnsRoundTrip(columns[1..]);
        ParseFirst(s);
      } else {
        Misread(c, s);
      }
    }
  }

  lemma RenderNothing()
    ensures Render([]) == ""
  {
  }

  lemma SplitDelimited(columns: seq<Column>)
    requires columns != []
    ensures AllDelimited(columns) <==> Delimited(columns[0]) && AllDelimited(columns[1..])
  {
    hide Delimited;
    if Delimited(columns[0]) && AllDelimited(columns[1..]) {
      forall i | 0 <= i < |columns| ensures Delimited(columns[i]) {
        if i > 0 { assert columns[1..][i - 1] == columns[i]; }
      }
    }
  }

  /** One step of ParseColumns on text that starts with a column. */
  lemma ParseFirst(s: string)
    requires s != "" && SkipSpaces(s) == s && ParseColumn(s).Ok?
    ensures var first := ParseColumn(s).value;
            var rest := ParseColumns(s[first.size..]);
            ParseColumns(s) == if rest.Ok? then Ok([first.value] + rest.value) else rest
  {
    hide ParseColumn, SkipSpaces;
  }

  /** A first column whose name or type is not delimited never comes back as it was. */
  lemma Misread(c: Column, s: string)
    requires !Delimited(c)
    ensures ParseColumns(s).Ok? && ParseColumns(s).value != [] ==> ParseColumns(s).value[0] != c
  {
    hide ParseColumn, SkipSpaces, RenderColumn;
    if ParseColumns(s).Ok? && ParseColumns(s).value != [] {
      var t := SkipSpaces(s);
      ColumnConserved(t);
      NameFirst(t);
    }
  }

  lemma NameFirst(t: string)
    requires t != "" && t[0] != ' ' && ParseColumn(t).Ok?
    ensures var c := ParseColumn(t).value.value;
            c.name == "" || c.name[0] != ' '
  {
    hide ParseColumnValue, IndexChar;
  }

  /** An array column is not read at all: its type ends at the first of its two brackets, and what follows is no
      colon. */
  lemma ArrayUnreadable(name: string, base: string, raw: string)
    requires name != "" && '[' !in name && name[0] != ' ' && ']' !in base
    ensures ParseColumns(RenderHead(name, base + "[]") + raw) == Err(Invalid)
  {
    hide ParseUntil, SkipSpaces;
    var s := RenderHead(name, base + "[]") + raw;
    var afterType := "]:" + raw;
    var afterName := (base + "[") + "]" + afterType;
    assert s == name + "[" + afterName;
    UntilOf(name, '[', afterName);
    UntilOf(base + "[", ']', afterType);
    assert s[|name| + 1 + (|base| + 2)] == ']';
    NoLeadingSpace(s);
  }

  lemma NoLeadingSpace(s: string)
    requires s != "" && s[0] != ' '
    ensures SkipSpaces(s) == s
  {
  }

  /** Columns that are not read back: `tags[text[]]:'{}'`, and any other array under any name. */
  lemma ArrayNotRoundTripped(name: string, base: string, text: string)
    requires name != "" && '[' !in name && name[0] != ' ' && ']' !in base
    ensures var c := Column(name, base + "[]", Quoted(text), Quote(text));
            Rendered(c) && ParseColumns(Render([c])) == Err(Invalid)
  {
    hide Quote, RenderHead, ParseColumns;
    ArrayUnreadable(name, base, Quote(text));
  }

  // ---- the two tuples of an update ----

  function RenderUpdate(oldKey: seq<Column>, newTuple: seq<Column>): string {
    "old-key: " + (Render(oldKey) + (" new-tuple: " + Render(newTuple)))
  }

  /** The last column of rendered text, and what is before it. */
  lemma {:induction false} LastColumn(columns: seq<Column>) returns (before: string)
    requires columns != []
    ensures Render(columns) == before + RenderColumn(columns[|columns| - 1])
    decreases |columns|
  {
    hide RenderColumn;
    if |columns| == 1 {
      before := "";
      assert before + RenderColumn(columns[0]) == RenderColumn(columns[0]);
    } else {
      var rest := LastColumn(columns[1..]);
      before := RenderColumn(columns[0]) + (" " + rest);
      Assoc(RenderColumn(columns[0]), " " + rest, RenderColumn(columns[|columns| - 1]));
      Assoc(" ", rest, RenderColumn(columns[|columns| - 1]));
    }
  }

  const SEPARATOR_START := " new-tuple:"

  predicate EndsWith(s: string, suffix: string) { |suffix| <= |s| && s[|s| - |suffix|..] == suffix }

  lemma Mismatch(s: string, i: nat)
    requires i < |SEPARATOR_START| && i < |s| && s[|s| - 1 - i] != SEPARATOR_START[|SEPARATOR_START| - 1 - i]
    ensures !EndsWith(s, SEPARATOR_START)
  {
    if |SEPARATOR_START| <= |s| {
      assert s[|s| - |SEPARATOR_START|..][|SEPARATOR_START| - 1 - i] == s[|s| - 1 - i];
    }
  }

  lemma ColonOnlyLast(i: nat)
    requires 0 < i < |SEPARATOR_START|
    ensures SEPARATOR_START[|SEPARATOR_START| - 1 - i] != ':'
  {
  }

  /** No rendered column ends in the separator's start, so the separator never begins inside the old key by
      overlapping itself. */
  lemma NoOverlap(c: Column, before: string)
    requires Rendered(c)
    ensures !EndsWith(before + RenderColumn(c), SEPARATOR_START)
  {
    hide ParseScalar, Double, EndsWith;
    var s := before + RenderColumn(c);
    var head := before + c.name + "[" + c.typ + "]:";
    assert s == head + c.raw;
    assert head[|head| - 1] == ':' && head[|head| - 2] == ']';
    var n, k := |s|, |c.raw|;
    if k == 0 {
      assert s[n - 2] == ']';
      Mismatch(s, 1);
    } else if c.value.Quoted? && c.raw == Quote(c.value.text) {
      assert s[n - 1] == c.raw[k - 1] == '\'';
      Mismatch(s, 0);
    } else if k >= |SEPARATOR_START| {
      assert s[n - 11] == c.raw[k - 11];
      Mismatch(s, 10);
    } else {
      assert s[n - 1 - k] == ':';
      ColonOnlyLast(k);
      Mismatch(s, k);
    }
  }

  lemma SeparatorAt(i: nat)
    requires 0 < i < |SEPARATOR_START|
    ensures SEPARATOR[i] != ' '
  {
  }

  lemma SeparatorSplit()
    ensures SEPARATOR == SEPARATOR_START + " "
  {
  }

  /** The separator occurs in the update text before its own place only if it occurs in the old key. */
  lemma FirstSeparator(columns: seq<Column>, rest: string, j: nat)
    requires AllRendered(columns) && j < |Render(columns)|
    requires OccursAt(Render(columns) + (SEPARATOR + rest), SEPARATOR, j)
    ensures OccursAt(Render(columns), SEPARATOR, j)
  {
    hide Render, Rendered, EndsWith;
    var r := Render(columns);
    var s := r + (SEPARATOR + rest);
    var n := |SEPARATOR|;
    if j + n <= |r| {
      assert s[j..j + n] == r[j..j + n];
    } else {
      var d := |r| - j;
      assert s[j..j + n][d] == s[|r|] == ' ';
      if d < |SEPARATOR_START| {
        SeparatorAt(d);
        assert false;
      } else {
        assert columns != [] by { if columns == [] { RenderNothing(); } }
        var before := LastColumn(columns);
        assert Rendered(columns[|columns| - 1]);
        NoOverlap(columns[|columns| - 1], before);
        EndsHere(r, s, j);
        assert false;
      }
    }
  }

  lemma EndsHere(r: string, s: string, j: nat)
    requires r <= s && j + |SEPARATOR_START| == |r| && OccursAt(s, SEPARATOR, j)
    ensures EndsWith(r, SEPARATOR_START)
  {
    SeparatorSplit();
    var n := |SEPARATOR_START|;
    assert s[j..j + |SEPARATOR|][..n] == s[j..j + n] == r[j..];
    Concat(SEPARATOR_START, " ");
  }

  /** Text that reads as a column and others, and is a beginning of that column rendered and more, holds the
      column whole and then text that reads as the others. */
  lemma FirstRead(c: Column, others: seq<Column>, tail: string, p: string)
    requires Delimited(c) && p <= RenderColumn(c) + tail && ParseColumns(p) == Ok([c] + others)
    ensures var n := |RenderColumn(c)|;
            n <= |p| && p == RenderColumn(c) + p[n..] && p[n..] <= tail && ParseColumns(p[n..]) == Ok(others)
  {
    hide ParseColumn, RenderColumn, Delimited, SkipSpaces, ParseColumns;
    NotSpaceFirst(c, tail);
    assert p != "" by { if p == "" { NothingToParse(); } }
    assert p[0] == (RenderColumn(c) + tail)[0];
    SkipOne(p);
    ColumnsStep([], p);
    ParseFirst(p);
    var first := ParseColumn(p).value;
    var rest := p[first.size..];
    assert ([c] + others)[0] == c && ([c] + others)[1..] == others;
    assert ([first.value] + ParseColumns(rest).value)[1..] == ParseColumns(rest).value;
    ColumnConserved(p);
    PrefixRest(p, RenderColumn(c), tail);
    assert p == p[..first.size] + rest;
  }

  /** No proper beginning of rendered columns reads as those columns. */
  lemma {:induction false} NoShorterText(columns: seq<Column>, p: string)
    requires AllDelimited(columns) && p <= Render(columns) && ParseColumns(p) == Ok(columns)
    ensures p == Render(columns)
    decreases |columns|
  {
    hide RenderColumn, Delimited, Render, ParseColumns;
    if columns == [] {
      RenderNothing();
    } else {
      var c, tail := columns[0], Tail(columns);
      RenderCons(columns);
      SplitDelimited(columns);
      assert columns == [c] + columns[1..];
      FirstRead(c, columns[1..], tail, p);
      var rest := p[|RenderColumn(c)|..];
      if |columns| > 1 {
        assert rest != "" by { if rest == "" { NothingToParse(); } }
        assert rest[0] == tail[0] == ' ' && rest == " " + rest[1..];
        LeadingSpace(rest[1..]);
        PrefixRest(rest, " ", Render(columns[1..]));
        NoShorterText(columns[1..], rest[1..]);
      }
    }
  }

  lemma PrefixRest(p: string, a: string, b: string)
    requires p <= a + b && |a| <= |p|
    ensures p[..|a|] == a && p[|a|..] <= b
  {
    assert p == (a + b)[..|p|];
    assert p[|a|..] == b[..|p| - |a|];
  }

  /** The update split recovers both tuples exactly when the separator text does not occur in the old key, as a
      quoted value there might make it. */
  lemma UpdateRoundTrip(oldKey: seq<Column>, newTuple: seq<Column>)
    requires AllRendered(oldKey) && AllDelimited(oldKey) && AllRendered(newTuple) && AllDelimited(newTuple)
    ensures ParseChangeColumns("update", RenderUpdate(oldKey, newTuple)) == Ok(Tuples(newTuple, oldKey, newTuple))
            <==> !Contains(Render(oldKey), SEPARATOR)
  {
    hide Render, ParseColumns, AllRendered, AllDelimited, OccursAt;
    var r, n := Render(oldKey), Render(newTuple);
    var s := r + (SEPARATOR + n);
    Concat(OLD_KEY, s);
    ColumnsRoundTrip(oldKey);
    ColumnsRoundTrip(newTuple);
    assert OccursAt(s, SEPARATOR, |r|) by { SeparatorThere(r, n); }
    if Contains(r, SEPARATOR) {
      var i: nat :| OccursAt(r, SEPARATOR, i);
      OccursEarlier(r, n, i);
      assert !(Index(s, SEPARATOR).None?);
      var k := Index(s, SEPARATOR).value;
      assert k <= i;
      EarlyCut(oldKey, n, k, i);
    } else {
      forall j: nat | j < |r| ensures !OccursAt(s, SEPARATOR, j) {
        if OccursAt(s, SEPARATOR, j) { FirstSeparator(oldKey, n, j); }
      }
      assert Index(s, SEPARATOR) == Some(|r|);
      CutThere(r, n);
    }
  }

  lemma SeparatorThere(r: string, n: string)
    ensures OccursAt(r + (SEPARATOR + n), SEPARATOR, |r|)
  {
    var s := r + (SEPARATOR + n);
    assert s[|r|..|r| + |SEPARATOR|] == SEPARATOR;
  }

  lemma CutThere(r: string, n: string)
    ensures var s := r + (SEPARATOR + n);
            s[..|r|] == r && s[|r| + |SEPARATOR|..] == n
  {
  }

  lemma OccursEarlier(r: string, n: string, i: nat)
    requires OccursAt(r, SEPARATOR, i)
    ensures OccursAt(r + (SEPARATOR + n), SEPARATOR, i) && i < |r|
  {
    var s := r + (SEPARATOR + n);
    assert s[i..i + |SEPARATOR|] == r[i..i + |SEPARATOR|];
  }

  /** Cut too early, the old key does not come back. */
  lemma EarlyCut(oldKey: seq<Column>, n: string, k: nat, i: nat)
    requires AllRendered(oldKey) && AllDelimited(oldKey) && k <= i < |Render(oldKey)|
    ensures ParseColumns((Render(oldKey) + (SEPARATOR + n))[..k]) != Ok(oldKey)
  {
    hide Render, ParseColumns;
    var p := (Render(oldKey) + (SEPARATOR + n))[..k];
    assert p == Render(oldKey)[..k];
    if ParseColumns(p) == Ok(oldKey) {
      NoShorterText(oldKey, p);
      assert false;
    }
  }

  /** Updates that are not read back: an old key whose quoted text starts with the separator. */
  lemma SeparatorInTextNotRoundTripped(name: string, typ: string, more: string, newTuple: seq<Column>)
    requires AllRendered(newTuple) && AllDelimited(newTuple)
    requires '[' !in name && (name == "" || name[0] != ' ') && ']' !in typ && '\'' !in SEPARATOR + more
    ensures var text := SEPARATOR + more;
            var key := Column(name, typ, Quoted(text), Quote(text));
            && AllRendered([key]) && AllDelimited([key])
            && ParseChangeColumns("update", RenderUpdate([key], newTuple)) != Ok(Tuples(newTuple, [key], newTuple))
  {
    hide ParseChangeColumns, RenderUpdate, RenderHead, Double, OccursAt, Contains, Delimited;
    var text := SEPARATOR + more;
    var key := Column(name, typ, Quoted(text), Quote(text));
    assert Delimited(key) by { FreeOfDelimiters(key); }
    var head := RenderHead(name, typ) + "'";
    DoubledAlone(text);
    assert Render([key]) == head + (SEPARATOR + (more + "'"));
    OccursAfter(head, SEPARATOR, more + "'");
    UpdateRoundTrip([key], newTuple);
  }

  lemma FreeOfDelimiters(c: Column)
    requires '[' !in c.name && (c.name == "" || c.name[0] != ' ') && ']' !in c.typ
    ensures Delimited(c)
  {
  }

  lemma OccursAfter(a: string, pattern: string, b: string)
    ensures Contains(a + (pattern + b), pattern)
  {
    var s := a + (pattern + b);
    assert s[|a|..|a| + |pattern|] == pattern;
    assert OccursAt(s, pattern, |a|);
  }

  lemma {:induction false} DoubledAlone(s: string)
    requires '\'' !in s
    ensures Double(s) == s
  {
    if s == "" {
    } else {
      DoubledAlone(s[1..]);
    }
  }
}
