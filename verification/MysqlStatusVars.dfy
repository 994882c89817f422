/** Status variables of query events (mysql/decode/events/types/E_QUERY_EVENT.go). */
module MysqlStatusVars {
  import opened Bytes
  import opened Reading

  const UPDATED_DB_NAMES: byte := 0x0c
  const MICROSECONDS: byte := 0x0d

  datatype Entry =
    | Flags2(n: nat)
    | SQLMode(n: nat)
    | Catalog(text: bytes)
    | AutoIncrement(increment: nat, offset: nat)
    | Charset(client: nat, connection: nat, server: nat)
    | TimeZone(text: bytes)
    | CatalogNZ(text: bytes)
    | LCTimeNames(n: nat)
    | CharsetDatabase(n: nat)
    | TableMapForUpdate(n: nat)
    | MasterDataWritten(n: nat)
    | Invokers(user: bytes, host: bytes)
    | UpdatedDBNames(names: seq<bytes>)
    | Microseconds(n: nat)

  datatype Status = Status(
    flags2: nat, sqlMode: nat, catalog: bytes, increment: nat, offset: nat,
    client: nat, connection: nat, server: nat, timeZone: bytes, catalogNZ: bytes,
    lcTimeNames: nat, charsetDatabase: nat, tableMapForUpdate: nat, masterDataWritten: nat,
    invokerUser: bytes, invokerHost: bytes, updatedDBNames: seq<bytes>, microseconds: nat, unknown: bytes)

  const BLANK := Status(0, 0, [], 0, 0, 0, 0, 0, [], [], 0, 0, 0, 0, [], [], [], 0, [])

  // ---- one entry ----

  predicate Known(key: byte) { key <= MICROSECONDS }

  datatype Layout = Fixed(width: nat) | TerminatedText | PrefixedText | TwoTexts | NameList

  function LayoutOf(key: byte): Layout
    requires Known(key)
  {
    if key == 0x02 then TerminatedText
    else if key == 0x05 || key == 0x06 then PrefixedText
    else if key == 0x0b then TwoTexts
    else if key == UPDATED_DB_NAMES then NameList
    else Fixed(match key
               case 0x00 => 4 case 0x01 => 8 case 0x03 => 4 case 0x04 => 6 case 0x07 => 2
               case 0x08 => 2 case 0x09 => 8 case 0x0a => 4 case _ => 3)
  }

  /** Length of a name up to its zero byte, or all of `s` when there is none. */
  function NameLength(s: bytes): (n: nat)
    ensures n <= |s| && (n < |s| ==> s[n] == 0)
    ensures 0 !in s[..n]
  {
    if s == [] || s[0] == 0 then 0 else 1 + NameLength(s[1..])
  }

  /** `count` zero-terminated names. */
  function ReadNames(s: bytes, count: nat): (r: Result<Parsed<seq<bytes>>>)
    ensures r.Ok? ==> r.value.size <= |s|
  {
    if count == 0 then Ok(Parsed([], 0))
    else
      var n := NameLength(s);
      if n == |s| then Err(Invalid) else Onto([s[..n]], n + 1, ReadNames(s[n + 1..], count - 1))
  }

  /** What an entry carries, not yet read as its fields, and the bytes it took. */
  datatype Payload = Payload(first: bytes, second: bytes, names: seq<bytes>)
  datatype Taken = Taken(payload: Payload, size: nat)

  datatype TextRead = TextRead(text: bytes, size: nat)

  /** A text behind one byte for its length. */
  function ReadText(s: bytes): (r: Result<TextRead>)
    ensures r.Ok? ==> 1 <= r.value.size <= |s|
  {
    if s == [] then Err(Invalid)
    else
      var n: nat := s[0];
      if |s| - 1 < n then Err(Invalid) else Ok(TextRead(s[1..][..n], 1 + n))
  }

  /** The payload at the front of `rest`. A catalog has one byte after its text, which is not looked at. */
  function TakePayload(layout: Layout, rest: bytes): (r: Result<Taken>)
    ensures r.Ok? ==> r.value.size <= |rest|
    ensures r.Ok? && layout.Fixed? ==> |r.value.payload.first| == layout.width
  {
    match layout
    case Fixed(width) =>
      if |rest| < width then Err(Invalid) else Ok(Taken(Payload(rest[..width], [], []), width))
    case TerminatedText =>
      var text :- ReadText(rest);
      if |rest| == text.size then Err(Invalid) else Ok(Taken(Payload(text.text, [], []), text.size + 1))
    case PrefixedText =>
      var text :- ReadText(rest);
      Ok(Taken(Payload(text.text, [], []), text.size))
    case TwoTexts =>
      var user :- ReadText(rest);
      var host :- ReadText(rest[user.size..]);
      Ok(Taken(Payload(user.text, host.text, []), user.size + host.size))
    case NameList =>
      if rest == [] then Err(Invalid)
      else
        var read :- ReadNames(rest[1..], rest[0]);
        Ok(Taken(Payload([], [], read.value), 1 + read.size))
  }

  /** The little-endian 16-bit number at `i`. */
  function Word(p: bytes, i: nat): nat
    requires i + 2 <= |p|
  {
    LittleEndian(p[i..][..2])
  }

  function Assemble(key: byte, p: Payload): Entry
    requires Known(key) && (LayoutOf(key).Fixed? ==> |p.first| == LayoutOf(key).width)
  {
    match key
    case 0x00 => Flags2(LittleEndian(p.first))
    case 0x01 => SQLMode(LittleEndian(p.first))
    case 0x02 => Catalog(p.first)
    case 0x03 => AutoIncrement(Word(p.first, 0), Word(p.first, 2))
    case 0x04 => Charset(Word(p.first, 0), Word(p.first, 2), Word(p.first, 4))
    case 0x05 => TimeZone(p.first)
    case 0x06 => CatalogNZ(p.first)
    case 0x07 => LCTimeNames(LittleEndian(p.first))
    case 0x08 => CharsetDatabase(LittleEndian(p.first))
    case 0x09 => TableMapForUpdate(LittleEndian(p.first))
    case 0x0a => MasterDataWritten(LittleEndian(p.first))
    case 0x0b => Invokers(p.first, p.second)
    case 0x0c => UpdatedDBNames(p.names)
    case _ => Microseconds(LittleEndian(p.first))
  }

  function Set(s: Status, e: Entry): Status {
    match e
    case Flags2(n) => s.(flags2 := n)
    case SQLMode(n) => s.(sqlMode := n)
    case Catalog(text) => s.(catalog := text)
    case AutoIncrement(increment, offset) => s.(increment := increment, offset := offset)
    case Charset(client, connection, server) => s.(client := client, connection := connection, server := server)
    case TimeZone(text) => s.(timeZone := text)
    case CatalogNZ(text) => s.(catalogNZ := text)
    case LCTimeNames(n) => s.(lcTimeNames := n)
    case CharsetDatabase(n) => s.(charsetDatabase := n)
    case TableMapForUpdate(n) => s.(tableMapForUpdate := n)
    case MasterDataWritten(n) => s.(masterDataWritten := n)
    case Invokers(user, host) => s.(invokerUser := user, invokerHost := host)
    case UpdatedDBNames(names) => s.(updatedDBNames := names)
    case Microseconds(n) => s.(microseconds := n)
  }

  // ---- the list ----

  datatype Read = Read(entry: Entry, size: nat)

  /** The entry at the front of `data`, key and all. */
  function DecodeEntry(data: bytes): (r: Result<Read>)
    requires data != [] && Known(data[0])
    ensures r.Ok? ==> 1 <= r.value.size <= |data|
  {
    var taken :- TakePayload(LayoutOf(data[0]), data[1..]);
    Ok(Read(Assemble(data[0], taken.payload), 1 + taken.size))
  }

  /** Entries read over `status`, up to the end or to the first unknown key, from which on the bytes are kept
      unread. */
  function DecodeOver(data: bytes, status: Status): Result<Status> {
    if data == [] then Ok(status)
    else if !Known(data[0]) then Ok(status.(unknown := data))
    else
      var read :- DecodeEntry(data);
      DecodeOver(data[read.size..], Set(status, read.entry))
  }

  function DecodeStatus(data: bytes): Result<Status> { DecodeOver(data, BLANK) }

  method SkipName(data: bytes, from: nat) returns (i: nat)
    requires from <= |data|
    ensures i == from + NameLength(data[from..])
  {
    i := from;
    while i < |data| && data[i] != 0
      invariant from <= i <= |data|
      invariant NameLength(data[from..]) == i - from + NameLength(data[i..])
    {
      Cursor(data, i, 1);
      i := i + 1;
    }
  }

  method ReadNamesLoop(data: bytes, start: nat, count: nat) returns (r: Result<Parsed<seq<bytes>>>)
    requires start <= |data|
    ensures r == ReadNames(data[start..], count)
  {
    hide NameLength, Onto, ReadNames;
    ghost var all := ReadNames(data[start..], count);
    OntoEnds([], 0, all);
    var i := start;
    var names := [];
    for n := 0 to count
      invariant start <= i <= |data|
      invariant all == Onto(names, i - start, ReadNames(data[i..], count - n))
    {
      var from := i;
      i := SkipName(data, from);
      NameStep(data, from, names, from - start, count - n);
      if i >= |data| { return Err(Invalid); }
      names := names + [data[from..i]];
      i := i + 1;
    }
    NoMoreNames(names, i - start, data[i..]);
    return Ok(Parsed(names, i - start));
  }

  lemma NameStep(data: bytes, from: nat, names: seq<bytes>, size: nat, count: nat)
    requires from <= |data| && count > 0
    ensures var i := from + NameLength(data[from..]);
            var all := Onto(names, size, ReadNames(data[from..], count));
            if i == |data| then all == Err(Invalid)
            else all == Onto(names + [data[from..i]], size + i - from + 1, ReadNames(data[i + 1..], count - 1))
  {
    hide NameLength, Onto;
    var n := NameLength(data[from..]);
    if from + n == |data| {
      OntoEnds(names, size, ReadNames(data[from..], count));
    } else {
      Cursor(data, from, n);
      Cursor(data, from, n + 1);
      OntoOnto(names, size, [data[from..from + n]], n + 1, ReadNames(data[from + n + 1..], count - 1));
    }
  }

  lemma NoMoreNames(names: seq<bytes>, size: nat, s: bytes)
    ensures Onto(names, size, ReadNames(s, 0)) == Ok(Parsed(names, size))
  {
    OntoEnds(names, size, Ok(Parsed([], 0)));
  }

  /** The decoder's loop, its cursor moving over the whole block. */
  method DecodeStatusLoop(data: bytes) returns (r: Result<Status>)
    ensures r == DecodeStatus(data)
  {
    hide Known, LayoutOf, TakePayload, Assemble, Set, DecodeEntry, DecodeOver;
    var status := BLANK;
    var i := 0;
    assert data[0..] == data;
    while i < |data|
      invariant i <= |data|
      invariant DecodeStatus(data) == DecodeOver(data[i..], status)
    {
      var key := data[i];
      if !Known(key) {
        UnknownTail(data[i..], status);
        return Ok(status.(unknown := data[i..]));
      }
      Cursor(data, i, 1);
      var taken := TakePayloadAt(data, i + 1, LayoutOf(key));
      EntryStep(data[i..], status);
      if taken.Err? { return Err(taken.error); }
      Cursor(data, i, 1 + taken.value.size);
      status := Set(status, Assemble(key, taken.value.payload));
      i := i + 1 + taken.value.size;
    }
    NoEntries(status);
    assert data[i..] == [];
    return Ok(status);
  }

  lemma EntryStep(data: bytes, status: Status)
    requires data != [] && Known(data[0])
    ensures var taken := TakePayload(LayoutOf(data[0]), data[1..]);
            if taken.Err? then DecodeOver(data, status) == Err(taken.error)
            else DecodeOver(data, status)
                 == DecodeOver(data[1 + taken.value.size..], Set(status, Assemble(data[0], taken.value.payload)))
  {
    hide Known, LayoutOf, TakePayload, Assemble, Set;
  }

  lemma UnknownTail(data: bytes, status: Status)
    requires data != [] && !Known(data[0])
    ensures DecodeOver(data, status) == Ok(status.(unknown := data))
  {
  }

  lemma NoEntries(status: Status)
    ensures DecodeOver([], status) == Ok(status)
  {
  }

  method TakePayloadAt(data: bytes, start: nat, layout: Layout) returns (r: Result<Taken>)
    requires start <= |data|
    ensures r == TakePayload(layout, data[start..])
  {
    hide ReadNames;
    if !layout.NameList? || start == |data| { return TakePayload(layout, data[start..]); }
    Cursor(data, start, 1);
    var read := ReadNamesLoop(data, start + 1, data[start]);
    match read
    case Err(e) => return Err(e);
    case Ok(names) => return Ok(Taken(Payload([], [], names.value), 1 + names.size));
  }

  // ---- bytes after a complete entry make no difference to it ----

  lemma {:induction false} NameLocal(a: bytes, b: bytes)
    requires NameLength(a) < |a|
    ensures NameLength(a + b) == NameLength(a)
  {
    if a[0] != 0 {
      assert (a + b)[1..] == a[1..] + b;
      NameLocal(a[1..], b);
    }
  }

  lemma {:induction false} NamesLocal(a: bytes, b: bytes, count: nat)
    requires ReadNames(a, count).Ok?
    ensures ReadNames(a + b, count) == ReadNames(a, count)
    decreases count
  {
    hide NameLength, Onto;
    if count == 0 {
    } else {
      var n := NameLength(a);
      OntoOk([a[..n]], n + 1, ReadNames(a[n + 1..], count - 1));
      NameLocal(a, b);
      Prefix(a, b, n);
      Prefix(a, b, n + 1);
      NamesLocal(a[n + 1..], b, count - 1);
    }
  }

  lemma Prefix<T>(a: seq<T>, b: seq<T>, n: nat)
    requires n <= |a|
    ensures (a + b)[..n] == a[..n] && (a + b)[n..] == a[n..] + b
  {
  }

  lemma TextLocal(a: bytes, b: bytes)
    requires ReadText(a).Ok?
    ensures ReadText(a + b) == ReadText(a)
  {
    Prefix(a, b, 1);
    Prefix(a[1..], b, a[0]);
  }

  lemma PayloadLocal(layout: Layout, a: bytes, b: bytes)
    requires TakePayload(layout, a).Ok?
    ensures TakePayload(layout, a + b) == TakePayload(layout, a)
  {
    hide ReadNames, ReadText;
    match layout
    case Fixed(width) => Prefix(a, b, width);
    case TerminatedText => TextLocal(a, b);
    case PrefixedText => TextLocal(a, b);
    case TwoTexts =>
      var size := ReadText(a).value.size;
      TextLocal(a, b);
      Prefix(a, b, size);
      TextLocal(a[size..], b);
    case NameList =>
      Prefix(a, b, 1);
      NamesLocal(a[1..], b, a[0]);
  }

  lemma EntryLocal(a: bytes, b: bytes)
    requires a != [] && Known(a[0]) && DecodeEntry(a).Ok?
    ensures DecodeEntry(a + b) == DecodeEntry(a)
  {
    hide TakePayload;
    Prefix(a, b, 1);
    PayloadLocal(LayoutOf(a[0]), a[1..], b);
  }

  lemma {:induction false} NameWithin(a: bytes, b: bytes)
    requires NameLength(a + b) < |a|
    ensures NameLength(a) == NameLength(a + b)
  {
    if a[0] != 0 {
      assert (a + b)[1..] == a[1..] + b;
      NameWithin(a[1..], b);
    }
  }

  lemma {:induction false} NamesWithin(a: bytes, b: bytes, count: nat)
    requires ReadNames(a + b, count).Ok? && ReadNames(a + b, count).value.size <= |a|
    ensures ReadNames(a, count) == ReadNames(a + b, count)
    decreases count
  {
    hide NameLength, Onto;
    if count == 0 {
    } else {
      var n := NameLength(a + b);
      OntoOk([(a + b)[..n]], n + 1, ReadNames((a + b)[n + 1..], count - 1));
      NameWithin(a, b);
      Prefix(a, b, n);
      Prefix(a, b, n + 1);
      NamesWithin(a[n + 1..], b, count - 1);
    }
  }

  lemma TextWithin(a: bytes, b: bytes)
    requires ReadText(a + b).Ok? && ReadText(a + b).value.size <= |a|
    ensures ReadText(a) == ReadText(a + b)
  {
    Prefix(a, b, 1);
    Prefix(a[1..], b, a[0]);
  }

  lemma PayloadWithin(layout: Layout, a: bytes, b: bytes)
    requires TakePayload(layout, a + b).Ok? && TakePayload(layout, a + b).value.size <= |a|
    ensures TakePayload(layout, a) == TakePayload(layout, a + b)
  {
    hide ReadNames, ReadText;
    match layout
    case Fixed(width) => Prefix(a, b, width);
    case TerminatedText => TextWithin(a, b);
    case PrefixedText => TextWithin(a, b);
    case TwoTexts =>
      var size := ReadText(a + b).value.size;
      TextWithin(a, b);
      Prefix(a, b, size);
      TextWithin(a[size..], b);
    case NameList =>
      Prefix(a, b, 1);
      NamesWithin(a[1..], b, a[0]);
  }

  /** An entry is decoded from its own bytes alone. */
  lemma EntryWithin(data: bytes, c: bytes)
    requires data != [] && Known(data[0]) && DecodeEntry(data).Ok?
    ensures var n := DecodeEntry(data).value.size;
            DecodeEntry(data[..n] + c) == DecodeEntry(data) && (data[..n] + c)[n..] == c
  {
    hide TakePayload;
    var n := DecodeEntry(data).value.size;
    var own, rest := data[..n], data[n..];
    assert own + rest == data;
    Prefix(own, rest, 1);
    PayloadWithin(LayoutOf(data[0]), own[1..], rest);
    EntryLocal(own, c);
    Concat(own, c);
  }

  /** Nothing but complete entries with known keys. */
  predicate Complete(data: bytes)
    decreases |data|
  {
    data == [] || (Known(data[0]) && DecodeEntry(data).Ok? && Complete(data[DecodeEntry(data).value.size..]))
  }

  /** Composition: after complete entries, decoding goes on over what they decoded to. */
  lemma {:induction false} StatusComposes(a: bytes, b: bytes, status: Status)
    requires Complete(a)
    ensures DecodeOver(a, status).Ok?
    ensures DecodeOver(a + b, status) == DecodeOver(b, DecodeOver(a, status).value)
    decreases |a|
  {
    hide DecodeEntry, Set;
    if a == [] {
      assert a + b == b;
    } else {
      var read := DecodeEntry(a).value;
      EntryLocal(a, b);
      Prefix(a, b, read.size);
      StatusComposes(a[read.size..], b, Set(status, read.entry));
    }
  }

  lemma {:induction false} SplitComplete(data: bytes) returns (a: bytes, b: bytes)
    ensures data == a + b && Complete(a)
    ensures b == [] || !Known(b[0]) || DecodeEntry(b).Err?
    decreases |data|
  {
    hide DecodeEntry;
    a, b := [], data;
    if data != [] && Known(data[0]) && DecodeEntry(data).Ok? {
      var size := DecodeEntry(data).value.size;
      var own, rest := data[..size], data[size..];
      var c, d := SplitComplete(rest);
      EntryWithin(data, c);
      a, b := own + c, d;
      assert own + rest == data;
      Assoc(own, c, d);
    }
  }

  lemma {:induction false} CompleteKeepsUnknown(a: bytes, status: Status)
    requires Complete(a)
    ensures DecodeOver(a, status).Ok? && DecodeOver(a, status).value.unknown == status.unknown
    decreases |a|
  {
    hide DecodeEntry, Set;
    if a == [] {
    } else {
      var read := DecodeEntry(a).value;
      SetKeepsUnknown(status, read.entry);
      CompleteKeepsUnknown(a[read.size..], Set(status, read.entry));
    }
  }

  lemma SetKeepsUnknown(s: Status, e: Entry)
    ensures Set(s, e).unknown == s.unknown
  {
  }

  /** Every outcome: the block is complete entries and then nothing, or an unknown key whose bytes to the end
      are kept, or a known key whose entry is cut off, which is an error for the whole block. */
  lemma StatusOutcome(data: bytes) returns (a: bytes, b: bytes)
    ensures data == a + b && Complete(a)
    ensures DecodeStatus(a).Ok? && DecodeStatus(a).value.unknown == []
    ensures if b == [] then DecodeStatus(data) == DecodeStatus(a)
            else if !Known(b[0]) then DecodeStatus(data) == Ok(DecodeStatus(a).value.(unknown := b))
            else DecodeEntry(b).Err? && DecodeStatus(data).Err?
  {
    hide DecodeEntry, Set, Complete, Known;
    a, b := SplitComplete(data);
    CompleteKeepsUnknown(a, BLANK);
    StatusComposes(a, b, BLANK);
  }

  // ---- the writer ----

  function KeyOf(e: Entry): (key: byte)
    ensures Known(key)
  {
    match e
    case Flags2(_) => 0x00
    case SQLMode(_) => 0x01
    case Catalog(_) => 0x02
    case AutoIncrement(_, _) => 0x03
    case Charset(_, _, _) => 0x04
    case TimeZone(_) => 0x05
    case CatalogNZ(_) => 0x06
    case LCTimeNames(_) => 0x07
    case CharsetDatabase(_) => 0x08
    case TableMapForUpdate(_) => 0x09
    case MasterDataWritten(_) => 0x0a
    case Invokers(_, _) => 0x0b
    case UpdatedDBNames(_) => 0x0c
    case Microseconds(_) => 0x0d
  }

  /** A number and the bytes it takes. */
  datatype Sized = Sized(number: nat, width: nat)

  /** The number of an entry that holds a single one. */
  function NumberOf(e: Entry): (r: Option<Sized>)
    ensures r.Some? ==> r.value.width <= 8
  {
    match e
    case Flags2(n) => Some(Sized(n, 4))
    case SQLMode(n) => Some(Sized(n, 8))
    case LCTimeNames(n) => Some(Sized(n, 2))
    case CharsetDatabase(n) => Some(Sized(n, 2))
    case TableMapForUpdate(n) => Some(Sized(n, 8))
    case MasterDataWritten(n) => Some(Sized(n, 4))
    case Microseconds(n) => Some(Sized(n, 3))
    case _ => None
  }

  predicate WellFormed(e: Entry) {
    match e
    case Catalog(text) => |text| < 256
    case TimeZone(text) => |text| < 256
    case CatalogNZ(text) => |text| < 256
    case AutoIncrement(increment, offset) => increment < 0x1_0000 && offset < 0x1_0000
    case Charset(client, connection, server) => client < 0x1_0000 && connection < 0x1_0000 && server < 0x1_0000
    case Invokers(user, host) => |user| < 256 && |host| < 256
    case UpdatedDBNames(names) => |names| < 256 && forall i :: 0 <= i < |names| ==> 0 !in names[i]
    case _ => NumberOf(e).value.number < Pow(256, NumberOf(e).value.width)
  }

  function EncodeNames(names: seq<bytes>): bytes {
    if names == [] then [] else names[0] + ([0] + EncodeNames(names[1..]))
  }

  function EncodePayload(e: Entry): bytes
    requires WellFormed(e)
  {
    match e
    case Catalog(text) => [|text|] + (text + [0])
    case TimeZone(text) => [|text|] + text
    case CatalogNZ(text) => [|text|] + text
    case AutoIncrement(increment, offset) => EncodeLittleEndian(increment, 2) + EncodeLittleEndian(offset, 2)
    case Charset(client, connection, server) =>
      EncodeLittleEndian(client, 2) + (EncodeLittleEndian(connection, 2) + EncodeLittleEndian(server, 2))
    case Invokers(user, host) => [|user|] + (user + ([|host|] + host))
    case UpdatedDBNames(names) => [|names|] + EncodeNames(names)
    case _ => EncodeLittleEndian(NumberOf(e).value.number, NumberOf(e).value.width)
  }

  function EncodeEntry(e: Entry): bytes
    requires WellFormed(e)
  {
    [KeyOf(e)] + EncodePayload(e)
  }

  predicate AllWellFormed(es: seq<Entry>) { forall i :: 0 <= i < |es| ==> WellFormed(es[i]) }

  function EncodeEntries(es: seq<Entry>): bytes
    requires AllWellFormed(es)
  {
    if es == [] then [] else EncodeEntry(es[0]) + EncodeEntries(es[1..])
  }

  lemma {:induction false} NameEnds(name: bytes, rest: bytes)
    requires 0 !in name
    ensures NameLength(name + ([0] + rest)) == |name|
  {
    if name == [] {
      assert name + ([0] + rest) == [0] + rest;
    } else {
      assert (name + ([0] + rest))[1..] == name[1..] + ([0] + rest);
      NameEnds(name[1..], rest);
    }
  }

  lemma NameRead(name: bytes, rest: bytes, count: nat)
    requires 0 !in name
    ensures ReadNames(name + ([0] + rest), count + 1) == Onto([name], |name| + 1, ReadNames(rest, count))
  {
    hide NameLength;
    var s := name + ([0] + rest);
    NameEnds(name, rest);
    Concat(name, [0] + rest);
    Assoc(name, [0], rest);
    Concat(name + [0], rest);
  }

  lemma {:induction false} NamesRoundTrip(names: seq<bytes>)
    requires forall i :: 0 <= i < |names| ==> 0 !in names[i]
    ensures ReadNames(EncodeNames(names), |names|) == Ok(Parsed(names, |EncodeNames(names)|))
    decreases |names|
  {
    hide ReadNames;
    if names == [] {
      assert ReadNames([], 0) == Ok(Parsed([], 0)) by { NoNames(); }
    } else {
      NamesRoundTrip(names[1..]);
      NameRead(names[0], EncodeNames(names[1..]), |names| - 1);
      assert [names[0]] + names[1..] == names;
    }
  }

  lemma NoNames()
    ensures ReadNames([], 0) == Ok(Parsed([], 0))
  {
  }

  lemma WordsRoundTrip(words: seq<nat>, p: bytes)
    requires 2 <= |words| <= 3 && forall i :: 0 <= i < |words| ==> words[i] < 0x1_0000
    requires p == if |words| == 2 then EncodeLittleEndian(words[0], 2) + EncodeLittleEndian(words[1], 2)
                  else EncodeLittleEndian(words[0], 2)
                       + (EncodeLittleEndian(words[1], 2) + EncodeLittleEndian(words[2], 2))
    ensures |p| == 2 * |words| && forall i :: 0 <= i < |words| ==> Word(p, 2 * i) == words[i]
  {
    hide EncodeLittleEndian, LittleEndian;
    Powers256();
    forall i | 0 <= i < |words| ensures Word(p, 2 * i) == words[i] {
      LittleEndianRoundTrip(words[i], 2);
      assert p[2 * i..][..2] == EncodeLittleEndian(words[i], 2);
    }
  }

  lemma NumberRoundTrip(e: Entry)
    requires WellFormed(e) && NumberOf(e).Some?
    ensures var p := EncodePayload(e);
            var taken := TakePayload(LayoutOf(KeyOf(e)), p);
            taken.Ok? && taken.value.size == |p| && Assemble(KeyOf(e), taken.value.payload) == e
  {
    hide EncodeLittleEndian, LittleEndian, Pow;
    var sized := NumberOf(e).value;
    LittleEndianRoundTrip(sized.number, sized.width);
    assert LayoutOf(KeyOf(e)) == Fixed(sized.width);
    assert EncodePayload(e)[..sized.width] == EncodePayload(e);
  }

  lemma PayloadRoundTrip(e: Entry)
    requires WellFormed(e)
    ensures var p := EncodePayload(e);
            var taken := TakePayload(LayoutOf(KeyOf(e)), p);
            taken.Ok? && taken.value.size == |p| && Assemble(KeyOf(e), taken.value.payload) == e
  {
    hide EncodeLittleEndian, LittleEndian, ReadNames, ReadText, EncodeNames;
    var p := EncodePayload(e);
    assert p[..|p|] == p;
    match e
    case Catalog(text) =>
      TextRoundTrip(text, [0]);
      Assoc([|text|], text, [0]);
    case TimeZone(text) => TextRoundTrip(text, []);
    case CatalogNZ(text) => TextRoundTrip(text, []);
    case AutoIncrement(increment, offset) => WordsRoundTrip([increment, offset], p);
    case Charset(client, connection, server) => WordsRoundTrip([client, connection, server], p);
    case Invokers(user, host) =>
      TextRoundTrip(user, [|host|] + host);
      TextRoundTrip(host, []);
      Assoc([|user|], user, [|host|] + host);
      Concat([|user|] + user, [|host|] + host);
    case UpdatedDBNames(names) =>
      Concat([|names|], EncodeNames(names));
      NamesRoundTrip(names);
    case _ => NumberRoundTrip(e);
  }

  lemma TextRoundTrip(text: bytes, suffix: bytes)
    requires |text| < 256
    ensures ReadText(([|text|] + text) + suffix) == Ok(TextRead(text, 1 + |text|))
    ensures suffix == [] ==> ([|text|] + text) + suffix == [|text|] + text
  {
    Assoc([|text|], text, suffix);
    Concat([|text|], text + suffix);
    Concat(text, suffix);
  }

  /** The decoder inverts the writer on every entry, whatever follows it. */
  lemma EntryRoundTrip(e: Entry, suffix: bytes)
    requires WellFormed(e)
    ensures DecodeEntry(EncodeEntry(e) + suffix) == Ok(Read(e, |EncodeEntry(e)|))
  {
    hide TakePayload, Assemble, EncodePayload, WellFormed;
    PayloadRoundTrip(e);
    Concat([KeyOf(e)], EncodePayload(e));
    EntryLocal(EncodeEntry(e), suffix);
  }

  /** An entry that is cut off anywhere is an error. */
  lemma EntryCutOff(e: Entry, n: nat)
    requires WellFormed(e) && 1 <= n < |EncodeEntry(e)|
    ensures DecodeEntry(EncodeEntry(e)[..n]).Err?
  {
    hide TakePayload, Assemble, EncodePayload, WellFormed, KeyOf;
    var data := EncodeEntry(e);
    assert data[..n] + data[n..] == data && data + [] == data;
    EntryRoundTrip(e, []);
    if DecodeEntry(data[..n]).Ok? { EntryLocal(data[..n], data[n..]); }
  }

  /** Keys above 0x0d are not known: from the first on, bytes are kept unread. */
  lemma UnknownKey(key: byte, rest: bytes, status: Status)
    requires key > 0x0d
    ensures DecodeOver([key] + rest, status) == Ok(status.(unknown := [key] + rest))
  {
  }

  function SetAll(s: Status, es: seq<Entry>): Status
    decreases |es|
  {
    if es == [] then s else SetAll(Set(s, es[0]), es[1..])
  }

  /** Any list of entries decodes to what setting them one after the other gives, and decoding then goes on
      with the bytes that follow. */
  lemma {:induction false} StatusRoundTrip(es: seq<Entry>, suffix: bytes, status: Status)
    requires AllWellFormed(es)
    ensures Complete(EncodeEntries(es))
    ensures DecodeOver(EncodeEntries(es) + suffix, status) == DecodeOver(suffix, SetAll(status, es))
    decreases |es|
  {
    hide DecodeEntry, Set, WellFormed, EncodeEntry;
    if es == [] {
      assert [] + suffix == suffix;
    } else {
      var first, rest := EncodeEntry(es[0]), EncodeEntries(es[1..]);
      EntryKey(es[0], rest);
      EntryKey(es[0], rest + suffix);
      EntryRoundTrip(es[0], rest);
      EntryRoundTrip(es[0], rest + suffix);
      Concat(first, rest);
      Concat(first, rest + suffix);
      Assoc(first, rest, suffix);
      StatusRoundTrip(es[1..], suffix, Set(status, es[0]));
    }
  }

  lemma EntryKey(e: Entry, suffix: bytes)
    requires WellFormed(e)
    ensures var data := EncodeEntry(e) + suffix;
            data != [] && Known(data[0])
  {
    hide EncodePayload, KeyOf;
  }

  /** The status shows exactly what the entry set. */
  predicate Holds(s: Status, e: Entry) {
    match e
    case Flags2(n) => s.flags2 == n
    case SQLMode(n) => s.sqlMode == n
    case Catalog(text) => s.catalog == text
    case AutoIncrement(increment, offset) => s.increment == increment && s.offset == offset
    case Charset(client, connection, server) => s.client == client && s.connection == connection && s.server == server
    case TimeZone(text) => s.timeZone == text
    case CatalogNZ(text) => s.catalogNZ == text
    case LCTimeNames(n) => s.lcTimeNames == n
    case CharsetDatabase(n) => s.charsetDatabase == n
    case TableMapForUpdate(n) => s.tableMapForUpdate == n
    case MasterDataWritten(n) => s.masterDataWritten == n
    case Invokers(user, host) => s.invokerUser == user && s.invokerHost == host
    case UpdatedDBNames(names) => s.updatedDBNames == names
    case Microseconds(n) => s.microseconds == n
  }

  lemma SetHolds(s: Status, e: Entry)
    ensures Holds(Set(s, e), e)
  {
  }

  lemma OthersKept(s: Status, e: Entry, other: Entry)
    requires Holds(s, e) && KeyOf(e) != KeyOf(other)
    ensures Holds(Set(s, other), e)
  {
  }

  lemma {:induction false} EntryKept(s: Status, es: seq<Entry>, e: Entry)
    requires Holds(s, e) && forall j :: 0 <= j < |es| ==> KeyOf(es[j]) != KeyOf(e)
    ensures Holds(SetAll(s, es), e)
    decreases |es|
  {
    hide Set, KeyOf, Holds;
    if es == [] {
    } else {
      OthersKept(s, e, es[0]);
      EntryKept(Set(s, es[0]), es[1..], e);
    }
  }

  /** Last write wins: of the entries with one key, the last one shows, whatever else the block holds. */
  lemma {:induction false} LastWriteWins(s: Status, es: seq<Entry>, k: nat)
    requires k < |es| && forall j :: k < j < |es| ==> KeyOf(es[j]) != KeyOf(es[k])
    ensures Holds(SetAll(s, es), es[k])
    decreases |es|
  {
    hide Set, KeyOf, Holds;
    var next, rest := Set(s, es[0]), es[1..];
    if k == 0 {
      SetHolds(s, es[0]);
      EntryKept(next, rest, es[0]);
    } else {
      LastWriteWins(next, rest, k - 1);
    }
  }
}
