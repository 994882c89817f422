/** TABLE_MAP events (mysql/decode/events/types/E_TABLE_MAP_EVENT.go) and the format description
    they are read against. */
module MysqlTableMap {
  import opened Bytes
  import opened MysqlColumns
  import opened Reading

  const TABLE_MAP_EVENT := 0x13

  /** Event sizes are 32-bit on the wire, so no payload is longer. */
  const MAX_PAYLOAD := 0x1_0000_0000

  datatype FmtDesc = FmtDesc(
    binlogVersion: nat, version: bytes, createTime: nat, headerLength: nat, postHeaders: bytes, hasChecksum: bool)

  datatype TableMap = TableMap(
    tableID: nat, flags: nat, schema: bytes, table: bytes, columnCount: nat,
    types: bytes, metas: seq<uint16>, nullBitmap: bytes, optional: bytes)

  /** Table ids are 4 bytes when the event's post-header is 6 bytes long, else 6. A missing description
      or a post-header table that is too short stops the Go runtime. */
  function TableIDLength(desc: Option<FmtDesc>, eventType: byte): (r: Result<nat>)
    ensures r.Ok? ==> r.value == 4 || r.value == 6
    ensures r.Err? ==> r.error == Panic
  {
    if desc.None? || eventType == 0 || |desc.value.postHeaders| < eventType then Err(Panic)
    else if desc.value.postHeaders[eventType - 1] == 6 then Ok(4) else Ok(6)
  }

  // ---- column metadata ----

  predicate BigEndianMeta(t: byte) { t == TYPE_STRING || t == TYPE_NEWDECIMAL }

  predicate LittleEndianMeta(t: byte) { t == TYPE_VAR_STRING || t == TYPE_VARCHAR || t == TYPE_BIT }

  predicate ByteMeta(t: byte) {
    || t == TYPE_BLOB || t == TYPE_DOUBLE || t == TYPE_FLOAT || t == TYPE_GEOMETRY || t == TYPE_JSON
    || t == TYPE_TIME2 || t == TYPE_DATETIME2 || t == TYPE_TIMESTAMP2
  }

  function MetaWidth(t: byte): nat {
    if BigEndianMeta(t) || LittleEndianMeta(t) then 2 else if ByteMeta(t) then 1 else 0
  }

  function MetaValue(t: byte, data: bytes): uint16
    requires |data| >= MetaWidth(t)
  {
    if BigEndianMeta(t) then (data[0] as int) * 256 + data[1]
    else if LittleEndianMeta(t) then (data[0] as int) + (data[1] as int) * 256
    else if ByteMeta(t) then data[0]
    else 0
  }

  function DecodeMeta(types: bytes, data: bytes): (r: Result<seq<uint16>>)
    ensures r.Ok? ==> |r.value| == |types|
    ensures r.Err? ==> r.error == Panic
  {
    if types == [] then Ok([])
    else if |data| < MetaWidth(types[0]) then Err(Panic)
    else
      var rest :- DecodeMeta(types[1..], data[MetaWidth(types[0])..]);
      Ok([MetaValue(types[0], data)] + rest)
  }

  lemma MetaStep(done: seq<uint16>, types: bytes, data: bytes)
    requires types != [] && |data| >= MetaWidth(types[0])
    ensures Prepend(done, DecodeMeta(types, data))
            == Prepend(done + [MetaValue(types[0], data)], DecodeMeta(types[1..], data[MetaWidth(types[0])..]))
  {
    var tail := DecodeMeta(types[1..], data[MetaWidth(types[0])..]);
    if tail.Ok? { Assoc(done, [MetaValue(types[0], data)], tail.value); }
  }

  method DecodeMetaLoop(types: bytes, data: bytes) returns (r: Result<seq<uint16>>)
    ensures r == DecodeMeta(types, data)
  {
    hide MetaValue, MetaWidth, Prepend;
    var metas := new uint16[|types|];
    var pos: nat := 0;
    assert Prepend(metas[..0], DecodeMeta(types, data)) == DecodeMeta(types, data) by {
      PrependEnds([], DecodeMeta(types, data));
    }
    for i := 0 to |types|
      invariant pos <= |data|
      invariant DecodeMeta(types, data) == Prepend(metas[..i], DecodeMeta(types[i..], data[pos..]))
    {
      ghost var done := metas[..i];
      var t := types[i];
      if |data| - pos < MetaWidth(t) {
        PrependEnds(done, DecodeMeta(types[i..], data[pos..]));
        return Err(Panic);
      }
      MetaStep(done, types[i..], data[pos..]);
      Cursor(types, i, 1);
      Cursor(data, pos, MetaWidth(t));
      metas[i] := MetaValue(t, data[pos..]);
      assert metas[..i + 1] == done + [MetaValue(t, data[pos..])];
      pos := pos + MetaWidth(t);
    }
    assert types[|types|..] == [] && metas[..|types|] == metas[..];
    PrependEnds(metas[..|types|], DecodeMeta(types[|types|..], data[pos..]));
    return Ok(metas[..]);
  }

  // ---- the event body ----

  datatype Cut = Cut(taken: bytes, rest: bytes)

  function Take(b: bytes, n: nat): (r: Result<Cut>)
    ensures r.Ok? ==> |r.value.taken| == n && b == r.value.taken + r.value.rest
  {
    if n > |b| then Err(Panic) else Ok(Cut(b[..n], b[n..]))
  }

  /** A length byte, that many bytes, and a zero byte that is skipped unread. */
  function TakeName(b: bytes): (r: Result<Cut>)
    ensures r.Ok? ==> |r.value.rest| < |b|
  {
    if b == [] || |b| < 2 + b[0] as int then Err(Panic)
    else Ok(Cut(b[1..][..b[0]], b[1..][b[0] + 1..]))
  }

  /** A length-encoded string; the last sizes before 2^63 wrap when the prefix is added. */
  function TakeString(b: bytes): (r: Result<Cut>)
    ensures r.Ok? ==> |r.value.rest| < |b|
  {
    var n :- LengthEncodedInt(b);
    if n.num >= TWO_63 - n.size then Err(Panic)
    else if |b| < n.size + n.num then Err(EOF)
    else Ok(Cut(b[n.size..][..n.num], b[n.size..][n.num..]))
  }

  function Decode(data: bytes, desc: Option<FmtDesc>): (r: Result<TableMap>)
    requires |data| < MAX_PAYLOAD
    ensures r.Ok? ==> Consistent(r.value)
  {
    var width :- TableIDLength(desc, TABLE_MAP_EVENT);
    var id :- Take(data, width);
    var flags :- Take(id.rest, 2);
    var schema :- TakeName(flags.rest);
    var table :- TakeName(schema.rest);
    var count :- LengthEncodedInt(table.rest);
    var types :- Take(table.rest[count.size..], count.num);
    var meta :- TakeString(types.rest);
    var metas :- DecodeMeta(types.taken, meta.taken);
    var size := BitmapByteSize(count.num);
    if |meta.rest| < size then Err(EOF)
    else Ok(TableMap(LittleEndian(id.taken), LittleEndian(flags.taken), schema.taken, table.taken, count.num,
                     types.taken, metas, meta.rest[..size], meta.rest[size..]))
  }

  datatype Front = Front(columnCount: nat, types: bytes, rest: bytes)

  /** A table map through its column types. */
  function FrontOf(data: bytes, desc: Option<FmtDesc>): (r: Result<Front>)
    ensures r.Ok? ==> r.value.columnCount <= |data|
    ensures r.Err? ==> r.error != EOF
  {
    var width :- TableIDLength(desc, TABLE_MAP_EVENT);
    var id :- Take(data, width);
    var flags :- Take(id.rest, 2);
    var schema :- TakeName(flags.rest);
    var table :- TakeName(schema.rest);
    var count :- LengthEncodedInt(table.rest);
    var types :- Take(table.rest[count.size..], count.num);
    Ok(Front(count.num, types.taken, types.rest))
  }

  /** A length-encoded string that announces more bytes than are left. */
  predicate StringOverruns(b: bytes) {
    var n := LengthEncodedInt(b);
    n.Ok? && n.value.num < TWO_63 - n.value.size && |b| < n.value.size + n.value.num
  }

  /** The metadata string reaches past the end of the event, or else the null bitmap behind it does. */
  predicate TailOverruns(front: Front)
    requires front.columnCount < MAX_PAYLOAD
  {
    || StringOverruns(front.rest)
    || match TakeString(front.rest)
       case Err(_) => false
       case Ok(meta) => DecodeMeta(front.types, meta.taken).Ok? && |meta.rest| < BitmapByteSize(front.columnCount)
  }

  predicate Overruns(data: bytes, desc: Option<FmtDesc>)
    requires |data| < MAX_PAYLOAD
  {
    match FrontOf(data, desc)
    case Err(_) => false
    case Ok(front) => TailOverruns(front)
  }

  /** Which table maps end in io.EOF, the error that ends a file's iterator silently: exactly these. */
  lemma EndsSilently(data: bytes, desc: Option<FmtDesc>)
    requires |data| < MAX_PAYLOAD
    ensures Decode(data, desc) == Err(EOF) <==> Overruns(data, desc)
  {
    hide LengthEncodedInt, Take, TakeName, TakeString, LittleEndian, BitmapByteSize, DecodeMeta,
      TableIDLength, StringOverruns;
    var front := FrontOf(data, desc);
    if front.Ok? { StringEnds(front.value.rest); }
  }

  lemma StringEnds(b: bytes)
    ensures TakeString(b) == Err(EOF) <==> StringOverruns(b)
    ensures TakeString(b).Err? ==> TakeString(b).error == EOF || TakeString(b).error == Panic
  {
    hide LengthEncodedInt;
  }

  /** What rows decoding relies on: one type and one metadata word for each column. */
  predicate Consistent(t: TableMap) {
    |t.types| == t.columnCount && |t.metas| == t.columnCount && t.columnCount < MAX_PAYLOAD
  }

  method DecodeTableMap(data: bytes, desc: Option<FmtDesc>) returns (r: Result<TableMap>)
    requires |data| < MAX_PAYLOAD
    ensures r == Decode(data, desc)
  {
    hide LittleEndian, DecodeMeta, Pow, TakeString, LengthEncodedInt, TakeName, BitmapByteSize;
    var pos: nat :- TableIDLength(desc, TABLE_MAP_EVENT);
    if |data| < pos { return Err(Panic); }
    var id := FixedLengthInt(data[..pos]);
    if |data| < pos + 2 { return Err(Panic); }
    var flags := LittleEndian(data[pos..pos + 2]);
    Cursor(data, pos, 2);
    pos := pos + 2;
    r := DecodeNames(data, pos, id, flags);
  }

  /** Everything after the flags, as Decode reads it. */
  function AfterFlags(rest: bytes, id: nat, flags: nat): Result<TableMap>
    requires |rest| < MAX_PAYLOAD
  {
    var schema :- TakeName(rest);
    var table :- TakeName(schema.rest);
    AfterNames(table.rest, id, flags, schema.taken, table.taken)
  }

  function AfterNames(rest: bytes, id: nat, flags: nat, schema: bytes, table: bytes): Result<TableMap>
    requires |rest| < MAX_PAYLOAD
  {
    var count :- LengthEncodedInt(rest);
    var types :- Take(rest[count.size..], count.num);
    var meta :- TakeString(types.rest);
    var metas :- DecodeMeta(types.taken, meta.taken);
    var size := BitmapByteSize(count.num);
    if |meta.rest| < size then Err(EOF)
    else Ok(TableMap(id, flags, schema, table, count.num,
                     types.taken, metas, meta.rest[..size], meta.rest[size..]))
  }

  method ReadName(data: bytes, start: nat) returns (r: Result<bytes>, next: nat)
    requires start <= |data|
    ensures r.Err? ==> TakeName(data[start..]) == Err(r.error)
    ensures r.Ok? ==> next <= |data| && TakeName(data[start..]) == Ok(Cut(r.value, data[next..]))
  {
    next := start;
    if start >= |data| { return Err(Panic), next; }
    var length: nat := data[start];
    var pos := start + 1;
    if |data| < pos + length + 1 { return Err(Panic), next; }
    Cursor(data, start, 1);
    Cursor(data, pos, length);
    Cursor(data, pos, length + 1);
    return Ok(data[pos..pos + length]), pos + length + 1;
  }

  method DecodeNames(data: bytes, start: nat, id: nat, flags: nat) returns (r: Result<TableMap>)
    requires start <= |data| < MAX_PAYLOAD
    ensures r == AfterFlags(data[start..], id, flags)
  {
    hide AfterNames, TakeName;
    var schema, pos := ReadName(data, start);
    if schema.Err? { return Err(schema.error); }
    var table, next := ReadName(data, pos);
    if table.Err? { return Err(table.error); }
    r := DecodeColumns(data, next, id, flags, schema.value, table.value);
  }

  method DecodeColumns(data: bytes, start: nat, id: nat, flags: nat, schema: bytes, table: bytes)
    returns (r: Result<TableMap>)
    requires start <= |data| < MAX_PAYLOAD
    ensures r == AfterNames(data[start..], id, flags, schema, table)
  {
    hide LittleEndian, DecodeMeta, TakeString, LengthEncodedInt;
    var pos := start;
    var count :- LengthEncodedInt(data[pos..]);
    pos := pos + count.size;
    if |data| < pos + count.num { return Err(Panic); }
    var types := data[pos..pos + count.num];
    Cursor(data, start, count.size);
    Cursor(data, pos, count.num);
    pos := pos + count.num;
    var meta :- TakeString(data[pos..]);
    var metas := DecodeMetaLoop(types, meta.taken);
    if metas.Err? { return Err(metas.error); }
    var size := BitmapByteSize(count.num);
    if |meta.rest| < size { return Err(EOF); }
    return Ok(TableMap(id, flags, schema, table, count.num, types, metas.value, meta.rest[..size], meta.rest[size..]));
  }

  // ---- what a server writes ----

  /** The metadata word has no more bits than its column type stores. */
  predicate MetaFits(t: byte, meta: uint16) {
    MetaWidth(t) == 2 || (MetaWidth(t) == 1 && meta < 256) || meta == 0
  }

  function EncodeMetaWord(t: byte, meta: uint16): (b: bytes)
    requires MetaFits(t, meta)
    ensures |b| == MetaWidth(t) && MetaValue(t, b) == meta
  {
    if BigEndianMeta(t) then [meta / 256, meta % 256]
    else if LittleEndianMeta(t) then [meta % 256, meta / 256]
    else if ByteMeta(t) then [meta]
    else []
  }

  function EncodeMeta(types: bytes, metas: seq<uint16>): (b: bytes)
    requires |types| == |metas| && forall i :: 0 <= i < |types| ==> MetaFits(types[i], metas[i])
    ensures |b| <= 2 * |types|
  {
    if types == [] then [] else EncodeMetaWord(types[0], metas[0]) + EncodeMeta(types[1..], metas[1..])
  }

  predicate WellFormedMap(t: TableMap, width: nat) {
    && Consistent(t)
    && t.tableID < Pow(256, width) && t.flags < 0x1_0000
    && |t.schema| < 256 && |t.table| < 256
    && (forall i :: 0 <= i < |t.types| ==> MetaFits(t.types[i], t.metas[i]))
    && |t.nullBitmap| == (t.columnCount + 7) / 8
  }

  function EncodeName(name: bytes): bytes
    requires |name| < 256
  {
    [|name|] + name + [0]
  }

  function EncodeColumns(t: TableMap, width: nat): bytes
    requires WellFormedMap(t, width)
  {
    EncodeLengthInt(t.columnCount) + (t.types
      + (EncodeLengthInt(|EncodeMeta(t.types, t.metas)|) + EncodeMeta(t.types, t.metas)
         + (t.nullBitmap + t.optional)))
  }

  function Encode(t: TableMap, width: nat): bytes
    requires WellFormedMap(t, width)
  {
    EncodeLittleEndian(t.tableID, width) + (EncodeLittleEndian(t.flags, 2)
      + (EncodeName(t.schema) + (EncodeName(t.table) + EncodeColumns(t, width))))
  }

  lemma TakeOf(b: bytes, rest: bytes)
    ensures Take(b + rest, |b|) == Ok(Cut(b, rest))
  {
    Concat(b, rest);
  }

  lemma TakeNameOf(name: bytes, rest: bytes)
    requires |name| < 256
    ensures TakeName(EncodeName(name) + rest) == Ok(Cut(name, rest))
  {
    var b := EncodeName(name) + rest;
    assert b[1..] == name + ([0] + rest);
    Concat(name, [0] + rest);
    assert b[1..][|name| + 1..] == rest;
  }

  lemma TakeStringOf(s: bytes, rest: bytes)
    requires |s| < 2 * MAX_PAYLOAD
    ensures TakeString(EncodeLengthInt(|s|) + s + rest) == Ok(Cut(s, rest))
  {
    var head := EncodeLengthInt(|s|);
    LengthIntRoundTrip(|s|, s + rest);
    Assoc(head, s, rest);
    Concat(head, s + rest);
    Concat(s, rest);
  }

  lemma {:induction false} MetaRoundTrip(types: bytes, metas: seq<uint16>, rest: bytes)
    requires |types| == |metas| && forall i :: 0 <= i < |types| ==> MetaFits(types[i], metas[i])
    ensures DecodeMeta(types, EncodeMeta(types, metas) + rest) == Ok(metas)
  {
    if types == [] {
    } else {
      var tail := EncodeMeta(types[1..], metas[1..]) + rest;
      var word := EncodeMetaWord(types[0], metas[0]);
      MetaRoundTrip(types[1..], metas[1..], rest);
      Assoc(word, EncodeMeta(types[1..], metas[1..]), rest);
      Concat(word, tail);
      assert MetaValue(types[0], word + tail) == MetaValue(types[0], word);
      assert [metas[0]] + metas[1..] == metas;
    }
  }

  lemma ColumnsRoundTrip(t: TableMap, width: nat)
    requires WellFormedMap(t, width) && |EncodeColumns(t, width)| < MAX_PAYLOAD
    ensures AfterNames(EncodeColumns(t, width), t.tableID, t.flags, t.schema, t.table) == Ok(t)
  {
    var meta := EncodeMeta(t.types, t.metas);
    var tail := t.nullBitmap + t.optional;
    var afterCount := t.types + (EncodeLengthInt(|meta|) + meta + tail);
    LengthIntRoundTrip(t.columnCount, afterCount);
    var b := EncodeColumns(t, width);
    assert b[|EncodeLengthInt(t.columnCount)|..] == afterCount;
    TakeOf(t.types, EncodeLengthInt(|meta|) + meta + tail);
    TakeStringOf(meta, tail);
    MetaRoundTrip(t.types, t.metas, []);
    assert meta + [] == meta;
    assert tail[..|t.nullBitmap|] == t.nullBitmap && tail[|t.nullBitmap|..] == t.optional;
  }

  /** A table map written for the current description is decoded to itself, whatever follows the null
      bitmap being kept as optional metadata. Its id has 4 bytes where the 19th post-header length is 6. */
  lemma TableMapRoundTrip(t: TableMap, desc: Option<FmtDesc>, width: nat)
    requires desc.Some? && |desc.value.postHeaders| >= 19
    requires width == if desc.value.postHeaders[18] == 6 then 4 else 6
    requires WellFormedMap(t, width) && |Encode(t, width)| < MAX_PAYLOAD
    ensures Decode(Encode(t, width), desc) == Ok(t)
  {
    hide LittleEndian, EncodeLittleEndian, EncodeName, EncodeColumns, TakeName;
    var columns := EncodeColumns(t, width);
    var names := EncodeName(t.schema) + (EncodeName(t.table) + columns);
    var flags := EncodeLittleEndian(t.flags, 2);
    TakeOf(EncodeLittleEndian(t.tableID, width), flags + names);
    TakeOf(flags, names);
    LittleEndianRoundTrip(t.tableID, width);
    Powers256();
    LittleEndianRoundTrip(t.flags, 2);
    TakeNameOf(t.schema, EncodeName(t.table) + columns);
    TakeNameOf(t.table, columns);
    ColumnsRoundTrip(t, width);
  }

  // ---- the metadata of each type, in bytes ----

  /** STRING and NEWDECIMAL have two bytes with the high one first, VARCHAR, VAR_STRING and BIT two with the low one
      first, eight types have one byte, and the others none. */
  lemma MetaOnWire(t: byte, a: byte, b: byte, types: bytes, rest: bytes)
    ensures t in {0xfe, 0xf6} ==>
      DecodeMeta([t] + types, [a, b] + rest) == Prepend([0x100 * a as int + b], DecodeMeta(types, rest))
    ensures t in {0x0f, 0x10, 0xfd} ==>
      DecodeMeta([t] + types, [a, b] + rest) == Prepend([a + 0x100 * b as int], DecodeMeta(types, rest))
    ensures t in {0x04, 0x05, 0x11, 0x12, 0x13, 0xf5, 0xfc, 0xff} ==>
      DecodeMeta([t] + types, [a] + rest) == Prepend([a], DecodeMeta(types, rest))
    ensures t !in {0x04, 0x05, 0x0f, 0x10, 0x11, 0x12, 0x13, 0xf5, 0xf6, 0xfc, 0xfd, 0xfe, 0xff} ==>
      DecodeMeta([t] + types, rest) == Prepend([0], DecodeMeta(types, rest))
  {
    assert ([t] + types)[1..] == types && ([a, b] + rest)[2..] == rest && ([a] + rest)[1..] == rest;
    assert rest[0..] == rest;
  }

  /** Metadata that is cut short stops the runtime. */
  lemma ShortMeta(t: byte, data: bytes, types: bytes)
    requires || (|data| < 2 && t in {0x0f, 0x10, 0xf6, 0xfd, 0xfe})
             || (data == [] && t in {0x04, 0x05, 0x11, 0x12, 0x13, 0xf5, 0xfc, 0xff})
    ensures DecodeMeta([t] + types, data) == Err(Panic)
  {
  }

  /** The metadata of a CHAR column, as its two bytes on the wire say it. */
  lemma CharMetaOnWire(size: nat)
    requires size < 1024
    ensures DecodeMeta([0xfe], [0xfe - 0x10 * (size / 256), size % 256]) == Ok([CharMeta(size)])
    ensures CharMeta(size) == 0xfe00 - 0x1000 * (size / 256) + size % 256
  {
    hide DecodeMeta;
    var q := size / 256;
    var high, low := 0xfe - 0x10 * q, size % 256;
    assert CharMeta(size) == 0x100 * high + low;
    assert [0xfe] + [] == [0xfe] && [high, low] + [] == [high, low];
    assert DecodeMeta([], []) == Ok([]) by { NoMeta(); }
    MetaOnWire(0xfe, high, low, [], []);
    assert [CharMeta(size)] + [] == [CharMeta(size)];
    assert DecodeMeta([0xfe], [high, low]) == Ok([CharMeta(size)]);
  }

  lemma NoMeta()
    ensures DecodeMeta([], []) == Ok([])
  {
  }
}
