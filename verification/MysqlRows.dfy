/** Rows events: row images, the rows body and its reversal
    (mysql/decode/events/types/E_ROWS_EVENT.go). */
module MysqlRows {
  import opened Bytes
  import opened MysqlColumns
  import opened MysqlTableMap
  import opened Reading

  type Row = seq<ColumnValue>

  // ---- one row image ----

  function CountPresent(bitmap: bytes, n: nat): (c: nat)
    ensures c <= n
  {
    if n == 0 then 0 else CountPresent(bitmap, n - 1) + (if BitmapBit(bitmap, n - 1) then 1 else 0)
  }

  type Image = Parsed<Row>

  /** Columns i.. of the image. `data` is what is left of it; null bits are indexed by present columns
      only, the next one being `nullIndex`. */
  function DecodeColumnsFrom(data: bytes, types: bytes, metas: seq<uint16>, bitmap: bytes, nulls: bytes,
                             i: nat, n: nat, nullIndex: nat): (r: Result<Image>)
    requires i <= n <= |types| && n <= |metas|
    ensures r.Ok? ==> r.value.size <= |data| && |r.value.value| == n - i
    ensures r.Err? ==> r.error != EOF
    decreases n - i
  {
    if i == n then Ok(Parsed([], 0))
    else if !BitmapBit(bitmap, i) then
      var rest :- DecodeColumnsFrom(data, types, metas, bitmap, nulls, i + 1, n, nullIndex);
      Ok(Parsed([ColumnValue(types[i], metas[i], false, true, Nil, None)] + rest.value, rest.size))
    else if BitmapBit(nulls, nullIndex) then
      var rest :- DecodeColumnsFrom(data, types, metas, bitmap, nulls, i + 1, n, nullIndex + 1);
      Ok(Parsed([ColumnValue(types[i], metas[i], true, false, Nil, None)] + rest.value, rest.size))
    else
      var value :- DecodeColumnValue(data, types[i], metas[i]);
      var rest :- DecodeColumnsFrom(data[value.size..], types, metas, bitmap, nulls, i + 1, n, nullIndex + 1);
      Ok(Parsed([ToColumn(types[i], metas[i], value)] + rest.value, value.size + rest.size))
  }

  function DecodeRow(data: bytes, table: TableMap, n: nat, bitmap: bytes): (r: Result<Image>)
    requires Consistent(table) && n <= table.columnCount
    ensures r.Ok? ==> r.value.size <= |data| && |r.value.value| == n
    ensures r.Err? ==> r.error != EOF
  {
    var nullLength := (CountPresent(bitmap, n) + 7) / 8;
    if |data| < nullLength then Err(UnexpectedEOF)
    else
      var rest :- DecodeColumnsFrom(data[nullLength..], table.types, table.metas, bitmap, data[..nullLength], 0, n, 0);
      Ok(Parsed(rest.value, nullLength + rest.size))
  }

  method DecodeRowValues(data: bytes, table: TableMap, n: nat, bitmap: bytes) returns (r: Result<Image>)
    requires Consistent(table) && n <= table.columnCount
    ensures r == DecodeRow(data, table, n, bitmap)
  {
    hide BitmapBit, DecodeColumnValue;
    var present := 0;
    for i := 0 to n
      invariant present == CountPresent(bitmap, i)
    {
      if BitmapBit(bitmap, i) { present := present + 1; }
    }
    var nullLength := (present + 7) / 8;
    if |data| < nullLength { return Err(UnexpectedEOF); }
    var nulls := data[..nullLength];
    var image := DecodeColumnLoop(data[nullLength..], table, n, bitmap, nulls);
    if image.Err? { return image; }
    return Ok(Parsed(image.value.value, nullLength + image.value.size));
  }

  method DecodeColumnLoop(data: bytes, table: TableMap, n: nat, bitmap: bytes, nulls: bytes)
    returns (r: Result<Image>)
    requires Consistent(table) && n <= table.columnCount
    ensures r == DecodeColumnsFrom(data, table.types, table.metas, bitmap, nulls, 0, n, 0)
  {
    hide BitmapBit, DecodeColumnValue, Onto;
    var pos: nat, nullIndex := 0, 0;
    var row := [];
    ghost var all := DecodeColumnsFrom(data, table.types, table.metas, bitmap, nulls, 0, n, 0);
    OntoEnds([], 0, all);
    for i := 0 to n
      invariant pos <= |data| && |row| == i
      invariant all == Onto(row, pos,
                            DecodeColumnsFrom(data[pos..], table.types, table.metas, bitmap, nulls, i, n, nullIndex))
    {
      var typ, meta := table.types[i], table.metas[i];
      ghost var rest := DecodeColumnsFrom(data[pos..], table.types, table.metas, bitmap, nulls, i, n, nullIndex);
      var column := ColumnValue(typ, meta, false, false, Nil, None);
      var read: nat := 0;
      if !BitmapBit(bitmap, i) {
        column := column.(skipped := true);
      } else if BitmapBit(nulls, nullIndex) {
        column := column.(isNull := true);
        nullIndex := nullIndex + 1;
      } else {
        nullIndex := nullIndex + 1;
        var value := DecodeColumnValue(data[pos..], typ, meta);
        if value.Err? { OntoEnds(row, pos, rest); return Err(value.error); }
        read := value.value.size;
        column := ToColumn(typ, meta, value.value);
      }
      Cursor(data, pos, read);
      OntoStep(row, pos, column, read,
               DecodeColumnsFrom(data[pos + read..], table.types, table.metas, bitmap, nulls, i + 1, n, nullIndex));
      row := row + [column];
      pos := pos + read;
    }
    OntoEnds(row, pos, Ok(Parsed([], 0)));
    return Ok(Parsed(row, pos));
  }

  // ---- what a server writes for a row ----

  /** The row fits the columns it is written for. */
  predicate WellFormedRow(cells: seq<Cell>, types: bytes, metas: seq<uint16>) {
    && |cells| <= |types| && |cells| <= |metas|
    && forall i :: 0 <= i < |cells| ==> WellFormed(cells[i], types[i], metas[i])
  }

  /** The present-column bitmap leaves out exactly the absent cells. */
  predicate Presents(bitmap: bytes, cells: seq<Cell>) {
    forall i :: 0 <= i < |cells| ==> (BitmapBit(bitmap, i) <==> !cells[i].Absent?)
  }

  /** Null flags of the present cells from column i on. */
  function NullFlags(cells: seq<Cell>, i: nat): (flags: seq<bool>)
    requires i <= |cells|
    ensures |flags| <= |cells| - i
    decreases |cells| - i
  {
    if i == |cells| then [] else if cells[i].Absent? then NullFlags(cells, i + 1)
    else [cells[i].Null?] + NullFlags(cells, i + 1)
  }

  function EncodeCells(cells: seq<Cell>, types: bytes, metas: seq<uint16>, i: nat): bytes
    requires WellFormedRow(cells, types, metas) && i <= |cells|
    decreases |cells| - i
  {
    if i == |cells| then []
    else if IsValue(cells[i]) then EncodeCell(cells[i], types[i], metas[i]) + EncodeCells(cells, types, metas, i + 1)
    else EncodeCells(cells, types, metas, i + 1)
  }

  function EncodeRow(cells: seq<Cell>, types: bytes, metas: seq<uint16>): bytes
    requires WellFormedRow(cells, types, metas)
  {
    PackBits(NullFlags(cells, 0)) + EncodeCells(cells, types, metas, 0)
  }

  /** Column by column, the decoded row says what the server's row holds. */
  predicate RepresentsRow(row: Row, cells: seq<Cell>, types: bytes, metas: seq<uint16>)
    requires WellFormedRow(cells, types, metas)
  {
    |row| == |cells| && forall i :: 0 <= i < |row| ==> Represents(row[i], cells[i], types[i], metas[i])
  }

  predicate RepresentsFrom(row: Row, cells: seq<Cell>, types: bytes, metas: seq<uint16>, i: nat)
    requires WellFormedRow(cells, types, metas) && i <= |cells|
  {
    |row| == |cells| - i && forall j :: 0 <= j < |row| ==> Represents(row[j], cells[i + j], types[i + j], metas[i + j])
  }

  lemma {:induction false} PresentCells(cells: seq<Cell>, bitmap: bytes, i: nat)
    requires i <= |cells| && Presents(bitmap, cells)
    ensures CountPresent(bitmap, |cells|) == CountPresent(bitmap, i) + |NullFlags(cells, i)|
    decreases |cells| - i
  {
    hide BitmapBit;
    if i == |cells| {
    } else {
      PresentCells(cells, bitmap, i + 1);
      assert CountPresent(bitmap, i + 1) == CountPresent(bitmap, i) + (if cells[i].Absent? then 0 else 1);
    }
  }

  predicate FlagsAt(bitmap: bytes, k: nat, flags: seq<bool>) {
    forall j :: 0 <= j < |flags| ==> flags[j] == BitmapBit(bitmap, k + j)
  }

  lemma {:induction false} ColumnsRoundTripFrom(
    cells: seq<Cell>, types: bytes, metas: seq<uint16>, bitmap: bytes, nulls: bytes, i: nat, k: nat, suffix: bytes)
    requires WellFormedRow(cells, types, metas) && i <= |cells| && Presents(bitmap, cells)
    requires FlagsAt(nulls, k, NullFlags(cells, i))
    ensures var data := EncodeCells(cells, types, metas, i);
            var r := DecodeColumnsFrom(data + suffix, types, metas, bitmap, nulls, i, |cells|, k);
            r.Ok? && r.value.size == |data| && RepresentsFrom(r.value.value, cells, types, metas, i)
    decreases |cells| - i
  {
    hide BitmapBit, EncodeCell, DecodeColumnValue, Represents, WellFormed, ToColumn, RepresentsFrom, Presents;
    if i < |cells| {
      assert BitmapBit(bitmap, i) <==> !cells[i].Absent? by { PresentAt(bitmap, cells, i); }
      var next: Row;
      if cells[i].Absent? {
        assert NullFlags(cells, i) == NullFlags(cells, i + 1);
        ColumnsRoundTripFrom(cells, types, metas, bitmap, nulls, i + 1, k, suffix);
        AbsentRepresented(types[i], metas[i]);
        next := DecodeColumnsFrom(EncodeCells(cells, types, metas, i + 1) + suffix, types, metas, bitmap, nulls,
                                  i + 1, |cells|, k).value.value;
        ConsRepresented(ColumnValue(types[i], metas[i], false, true, Nil, None), next, cells, types, metas, i);
      } else {
        NextFlags(cells, nulls, i, k);
        ColumnsRoundTripFrom(cells, types, metas, bitmap, nulls, i + 1, k + 1, suffix);
        next := DecodeColumnsFrom(EncodeCells(cells, types, metas, i + 1) + suffix, types, metas, bitmap, nulls,
                                  i + 1, |cells|, k + 1).value.value;
        if cells[i].Null? {
          NullRepresented(types[i], metas[i]);
          ConsRepresented(ColumnValue(types[i], metas[i], true, false, Nil, None), next, cells, types, metas, i);
        } else {
          ValueStep(cells, types, metas, i, suffix);
          var c := DecodeColumnValue(EncodeCells(cells, types, metas, i) + suffix, types[i], metas[i]).value;
          ConsRepresented(ToColumn(types[i], metas[i], c), next, cells, types, metas, i);
        }
      }
    } else {
      NothingRepresented(cells, types, metas);
    }
  }

  lemma PresentAt(bitmap: bytes, cells: seq<Cell>, i: nat)
    requires i < |cells| && Presents(bitmap, cells)
    ensures BitmapBit(bitmap, i) <==> !cells[i].Absent?
  {
  }

  lemma NothingRepresented(cells: seq<Cell>, types: bytes, metas: seq<uint16>)
    requires WellFormedRow(cells, types, metas)
    ensures RepresentsFrom([], cells, types, metas, |cells|)
  {
  }

  lemma ConsRepresented(c: ColumnValue, rest: Row, cells: seq<Cell>, types: bytes, metas: seq<uint16>, i: nat)
    requires WellFormedRow(cells, types, metas) && i < |cells|
    requires Represents(c, cells[i], types[i], metas[i]) && RepresentsFrom(rest, cells, types, metas, i + 1)
    ensures RepresentsFrom([c] + rest, cells, types, metas, i)
  {
    hide Represents, WellFormed;
    var row := [c] + rest;
    forall j | 0 <= j < |row| ensures Represents(row[j], cells[i + j], types[i + j], metas[i + j]) {
      var k := i + 1 + (j - 1);
      if j > 0 { assert Represents(rest[j - 1], cells[k], types[k], metas[k]); }
    }
  }

  /** A present value is read back and exactly its bytes are consumed. */
  lemma ValueStep(cells: seq<Cell>, types: bytes, metas: seq<uint16>, i: nat, suffix: bytes)
    requires WellFormedRow(cells, types, metas) && i < |cells| && IsValue(cells[i])
    ensures var data, tail := EncodeCells(cells, types, metas, i) + suffix, EncodeCells(cells, types, metas, i + 1);
            var r := DecodeColumnValue(data, types[i], metas[i]);
            && r.Ok? && |EncodeCells(cells, types, metas, i)| == r.value.size + |tail|
            && data[r.value.size..] == tail + suffix
            && Represents(ToColumn(types[i], metas[i], r.value), cells[i], types[i], metas[i])
  {
    hide EncodeCell, DecodeColumnValue, Represents, ToColumn;
    var e, tail := EncodeCell(cells[i], types[i], metas[i]), EncodeCells(cells, types, metas, i + 1);
    ColumnRoundTrip(cells[i], types[i], metas[i], tail + suffix);
    Assoc(e, tail, suffix);
    Concat(e, tail + suffix);
  }

  lemma NextFlags(cells: seq<Cell>, nulls: bytes, i: nat, k: nat)
    requires i < |cells| && !cells[i].Absent?
    requires FlagsAt(nulls, k, NullFlags(cells, i))
    ensures BitmapBit(nulls, k) == cells[i].Null?
    ensures FlagsAt(nulls, k + 1, NullFlags(cells, i + 1))
  {
    hide BitmapBit;
    var flags, rest := NullFlags(cells, i), NullFlags(cells, i + 1);
    assert flags == [cells[i].Null?] + rest;
    assert flags[0] == BitmapBit(nulls, k + 0);
    forall j | 0 <= j < |rest| ensures rest[j] == BitmapBit(nulls, k + 1 + j) {
      assert rest[j] == flags[1 + j] == BitmapBit(nulls, k + (1 + j));
    }
  }

  lemma AbsentRepresented(typ: byte, meta: uint16)
    ensures Represents(ColumnValue(typ, meta, false, true, Nil, None), Absent, typ, meta)
  {
  }

  lemma NullRepresented(typ: byte, meta: uint16)
    ensures Represents(ColumnValue(typ, meta, true, false, Nil, None), Null, typ, meta)
  {
  }

  /** Row images round-trip: for every table map, bitmap, row and suffix, the decoder returns that row
      and exactly its length. */
  lemma RowRoundTrip(cells: seq<Cell>, table: TableMap, bitmap: bytes, suffix: bytes)
    requires Consistent(table) && |cells| <= table.columnCount
    requires WellFormedRow(cells, table.types, table.metas) && Presents(bitmap, cells)
    ensures var data := EncodeRow(cells, table.types, table.metas);
            var r := DecodeRow(data + suffix, table, |cells|, bitmap);
            r.Ok? && r.value.size == |data| && RepresentsRow(r.value.value, cells, table.types, table.metas)
  {
    hide BitmapBit, PackBits, EncodeCells, Represents, WellFormed, DecodeColumnsFrom;
    var flags := NullFlags(cells, 0);
    var nulls := PackBits(flags);
    var body := EncodeCells(cells, table.types, table.metas, 0);
    PresentCells(cells, bitmap, 0);
    forall j | 0 <= j < |flags| ensures flags[j] == BitmapBit(nulls, 0 + j) {
      PackedBit(flags, [], j);
      assert nulls + [] == nulls;
    }
    ColumnsRoundTripFrom(cells, table.types, table.metas, bitmap, nulls, 0, 0, suffix);
    Assoc(nulls, body, suffix);
    Concat(nulls, body + suffix);
  }

  // ---- the event ----

  const WRITE_ROWS_V0 := 0x14
  const UPDATE_ROWS_V0 := 0x15
  const DELETE_ROWS_V0 := 0x16
  const WRITE_ROWS_V1 := 0x17
  const UPDATE_ROWS_V1 := 0x18
  const DELETE_ROWS_V1 := 0x19
  const WRITE_ROWS_V2 := 0x1e
  const UPDATE_ROWS_V2 := 0x1f
  const DELETE_ROWS_V2 := 0x20
  const PARTIAL_UPDATE_ROWS := 0x27

  datatype RowsEvent = RowsEvent(
    version: nat, tableID: nat, flags: nat, extraData: bytes,
    columnCount: nat, bitmap1: bytes, bitmap2: bytes,
    schema: bytes, table: bytes, rows: seq<Row>, before: seq<Row>, after: seq<Row>, decodeError: bool)

  predicate IsRowsType(typ: byte) {
    WRITE_ROWS_V0 <= typ <= DELETE_ROWS_V1 || WRITE_ROWS_V2 <= typ <= DELETE_ROWS_V2 || typ == PARTIAL_UPDATE_ROWS
  }

  function Version(typ: byte): nat {
    if WRITE_ROWS_V0 <= typ <= DELETE_ROWS_V0 then 0
    else if WRITE_ROWS_V1 <= typ <= DELETE_ROWS_V1 then 1
    else if IsRowsType(typ) then 2
    else 0
  }

  /** Version 0 updates are not among these, so their images are read as plain rows. */
  predicate IsUpdate(typ: byte) {
    typ == UPDATE_ROWS_V1 || typ == UPDATE_ROWS_V2 || typ == PARTIAL_UPDATE_ROWS
  }

  datatype Header = Header(event: RowsEvent, rest: bytes)

  /** A cut that reports a short payload instead of stopping the runtime. */
  function Expect(b: bytes, n: int): (r: Result<Cut>)
    ensures r.Ok? ==> n >= 0 && |r.value.taken| == n && b == r.value.taken + r.value.rest
    ensures r.Err? ==> r.error != EOF
  {
    if |b| < n then Err(UnexpectedEOF) else if n < 0 then Err(Panic) else Ok(Cut(b[..n], b[n..]))
  }

  function ExtraData(b: bytes, version: nat): (r: Result<Cut>)
    ensures r.Ok? ==> |r.value.rest| <= |b|
    ensures r.Err? ==> r.error != EOF
  {
    if version != 2 then Ok(Cut([], b))
    else
      var length :- Expect(b, 2);
      if LittleEndian(length.taken) < 2 then Err(UnexpectedEOF)
      else Expect(length.rest, LittleEndian(length.taken) - 2)
  }

  /** Everything before the row images. */
  function DecodeHeader(data: bytes, desc: Option<FmtDesc>, typ: byte): (r: Result<Header>)
    ensures r.Ok? ==> |r.value.rest| <= |data|
    ensures r.Err? ==> r.error != EOF
    ensures r.Ok? ==> r.value.event.rows == [] && r.value.event.before == [] && r.value.event.after == []
  {
    if desc.None? || typ == 0 then Err(Invalid)
    else
      var width :- TableIDLength(desc, typ);
      if |data| < width + 2 then Err(UnexpectedEOF)
      else
        var id :- Expect(data, width);
        var flags :- Expect(id.rest, 2);
        var extra :- ExtraData(flags.rest, Version(typ));
        if extra.rest == [] then Err(UnexpectedEOF)
        else
          var count :- LengthEncodedInt(extra.rest);
          var size := BitmapByteSize(GoInt(count.num));
          var bitmap1 :- Expect(extra.rest[count.size..], size);
          var bitmap2 :- if IsUpdate(typ) then Expect(bitmap1.rest, size) else Ok(Cut([], bitmap1.rest));
          Ok(Header(RowsEvent(Version(typ), LittleEndian(id.taken), LittleEndian(flags.taken), extra.taken,
                              count.num, bitmap1.taken, bitmap2.taken, [], [], [], [], [], false), bitmap2.rest))
  }

  /** Row images one after another to the end of the payload. */
  function DecodeRowList(data: bytes, table: TableMap, n: nat, bitmap: bytes): (r: Result<seq<Row>>)
    requires Consistent(table) && n <= table.columnCount
    ensures r.Err? ==> r.error != EOF
    decreases |data|
  {
    if data == [] then Ok([])
    else
      var image :- DecodeRow(data, table, n, bitmap);
      if image.size == 0 then Err(Invalid)
      else
        var rest :- DecodeRowList(data[image.size..], table, n, bitmap);
        Ok([image.value] + rest)
  }

  datatype Pairs = Pairs(before: seq<Row>, after: seq<Row>)

  /** Before and after images in turn. */
  function DecodePairs(data: bytes, table: TableMap, n: nat, bitmap1: bytes, bitmap2: bytes): (r: Result<Pairs>)
    requires Consistent(table) && n <= table.columnCount
    ensures r.Ok? ==> |r.value.before| == |r.value.after|
    ensures r.Err? ==> r.error != EOF
    decreases |data|
  {
    if data == [] then Ok(Pairs([], []))
    else
      var before :- DecodeRow(data, table, n, bitmap1);
      if before.size == 0 then Err(Invalid)
      else
        var after :- DecodeRow(data[before.size..], table, n, bitmap2);
        if after.size == 0 then Err(Invalid)
        else
          var rest :- DecodePairs(data[before.size..][after.size..], table, n, bitmap1, bitmap2);
          Ok(Pairs([before.value] + rest.before, [after.value] + rest.after))
  }

  /** The rows event, once its table map is known. */
  function DecodeBody(h: Header, table: TableMap, typ: byte): (r: Result<RowsEvent>)
    requires Consistent(table)
    ensures r.Err? ==> r.error != EOF
  {
    if table.columnCount < h.event.columnCount then Err(Invalid)
    else
      var e := h.event.(schema := table.schema, table := table.table);
      if IsUpdate(typ) then
        var pairs :- DecodePairs(h.rest, table, e.columnCount, e.bitmap1, e.bitmap2);
        Ok(e.(before := pairs.before, after := pairs.after))
      else
        var rows :- DecodeRowList(h.rest, table, e.columnCount, e.bitmap1);
        Ok(e.(rows := rows))
  }

  /** The table maps a decoder holds: each under its own id, each with a type and a metadata word for every
      column, so that decoding rows against it stays in range. */
  type Tables = m: map<nat, TableMap> | forall id :: id in m ==> m[id].tableID == id && Consistent(m[id])

  function DecodeRowsEvent(data: bytes, desc: Option<FmtDesc>, tables: Tables, typ: byte): (r: Result<RowsEvent>)
    ensures r.Err? ==> r.error != EOF
  {
    var h :- DecodeHeader(data, desc, typ);
    if h.event.tableID !in tables then Ok(h.event.(decodeError := true))
    else DecodeBody(h, tables[h.event.tableID], typ)
  }

  method DecodeRowListLoop(data: bytes, table: TableMap, n: nat, bitmap: bytes) returns (r: Result<seq<Row>>)
    requires Consistent(table) && n <= table.columnCount
    ensures r == DecodeRowList(data, table, n, bitmap)
  {
    hide Prepend, DecodeRow;
    var rows: seq<Row>, pos: nat := [], 0;
    ghost var all := DecodeRowList(data, table, n, bitmap);
    PrependEnds([], all);
    while pos < |data|
      invariant pos <= |data|
      invariant all == Prepend(rows, DecodeRowList(data[pos..], table, n, bitmap))
    {
      ghost var here := DecodeRowList(data[pos..], table, n, bitmap);
      var image := DecodeRowValues(data[pos..], table, n, bitmap);
      if image.Err? { PrependEnds(rows, here); return Err(image.error); }
      if image.value.size == 0 { PrependEnds(rows, here); return Err(Invalid); }
      Cursor(data, pos, image.value.size);
      PrependStep(rows, image.value.value, DecodeRowList(data[pos + image.value.size..], table, n, bitmap));
      rows := rows + [image.value.value];
      pos := pos + image.value.size;
    }
    PrependEnds(rows, DecodeRowList(data[pos..], table, n, bitmap));
    return Ok(rows);
  }

  function PrependPairs(before: seq<Row>, after: seq<Row>, r: Result<Pairs>): Result<Pairs> {
    if r.Ok? then Ok(Pairs(before + r.value.before, after + r.value.after)) else r
  }

  lemma PairStep(before: seq<Row>, after: seq<Row>, b: Row, a: Row, rest: Result<Pairs>)
    ensures PrependPairs(before, after,
                         if rest.Ok? then Ok(Pairs([b] + rest.value.before, [a] + rest.value.after)) else rest)
            == PrependPairs(before + [b], after + [a], rest)
  {
    if rest.Ok? {
      Assoc(before, [b], rest.value.before);
      Assoc(after, [a], rest.value.after);
    }
  }

  lemma PairsOnly(before: seq<Row>, after: seq<Row>, r: Result<Pairs>)
    ensures r.Err? ==> PrependPairs(before, after, r) == r
    ensures r == Ok(Pairs([], [])) ==> PrependPairs(before, after, r) == Ok(Pairs(before, after))
    ensures PrependPairs([], [], r) == r
  {
    assert before + [] == before && after + [] == after;
    if r.Ok? { assert [] + r.value.before == r.value.before && [] + r.value.after == r.value.after; }
  }

  method DecodePairsLoop(data: bytes, table: TableMap, n: nat, bitmap1: bytes, bitmap2: bytes)
    returns (r: Result<Pairs>)
    requires Consistent(table) && n <= table.columnCount
    ensures r == DecodePairs(data, table, n, bitmap1, bitmap2)
  {
    hide PrependPairs, DecodeRow, DecodePairs;
    var before: seq<Row>, after: seq<Row>, pos: nat := [], [], 0;
    ghost var all := DecodePairs(data, table, n, bitmap1, bitmap2);
    PairsOnly([], [], all);
    assert data[0..] == data;
    while pos < |data|
      invariant pos <= |data|
      invariant all == PrependPairs(before, after, DecodePairs(data[pos..], table, n, bitmap1, bitmap2))
    {
      PairTurn(before, after, data[pos..], table, n, bitmap1, bitmap2);
      var b := DecodeRowValues(data[pos..], table, n, bitmap1);
      if b.Err? { return Err(b.error); }
      if b.value.size == 0 { return Err(Invalid); }
      Cursor(data, pos, b.value.size);
      var middle := pos + b.value.size;
      var a := DecodeRowValues(data[middle..], table, n, bitmap2);
      if a.Err? { return Err(a.error); }
      if a.value.size == 0 { return Err(Invalid); }
      Cursor(data, middle, a.value.size);
      pos := middle + a.value.size;
      before, after := before + [b.value.value], after + [a.value.value];
    }
    NoPairs(before, after, table, n, bitmap1, bitmap2);
    assert data[pos..] == [];
    return Ok(Pairs(before, after));
  }

  lemma NoPairs(before: seq<Row>, after: seq<Row>, table: TableMap, n: nat, bitmap1: bytes, bitmap2: bytes)
    requires Consistent(table) && n <= table.columnCount
    ensures PrependPairs(before, after, DecodePairs([], table, n, bitmap1, bitmap2)) == Ok(Pairs(before, after))
  {
    PairsOnly(before, after, Ok(Pairs([], [])));
  }

  /** One turn of the loop over pairs. */
  lemma PairTurn(before: seq<Row>, after: seq<Row>, data: bytes, table: TableMap, n: nat,
                 bitmap1: bytes, bitmap2: bytes)
    requires Consistent(table) && n <= table.columnCount && data != []
    ensures var all := PrependPairs(before, after, DecodePairs(data, table, n, bitmap1, bitmap2));
            var b := DecodeRow(data, table, n, bitmap1);
            if b.Err? then all == Err(b.error)
            else if b.value.size == 0 then all == Err(Invalid)
            else
              var a := DecodeRow(data[b.value.size..], table, n, bitmap2);
              if a.Err? then all == Err(a.error)
              else if a.value.size == 0 then all == Err(Invalid)
              else
                var rest := DecodePairs(data[b.value.size..][a.value.size..], table, n, bitmap1, bitmap2);
                all == PrependPairs(before + [b.value.value], after + [a.value.value], rest)
  {
    hide PrependPairs, DecodeRow;
    PairsOnly(before, after, DecodePairs(data, table, n, bitmap1, bitmap2));
    var b := DecodeRow(data, table, n, bitmap1);
    if b.Ok? && b.value.size > 0 {
      var a := DecodeRow(data[b.value.size..], table, n, bitmap2);
      if a.Ok? && a.value.size > 0 {
        PairStep(before, after, b.value.value, a.value.value,
                 DecodePairs(data[b.value.size..][a.value.size..], table, n, bitmap1, bitmap2));
      }
    }
  }


  method DecodeRowsEventLoop(data: bytes, desc: Option<FmtDesc>, tables: Tables, typ: byte)
    returns (r: Result<RowsEvent>)
    ensures r == DecodeRowsEvent(data, desc, tables, typ)
  {
    hide DecodeHeader, DecodePairs, DecodeRowList;
    var h :- DecodeHeader(data, desc, typ);
    var event := h.event;
    if event.tableID !in tables {
      return Ok(event.(decodeError := true));
    }
    var table := tables[event.tableID];
    if table.columnCount < event.columnCount { return Err(Invalid); }
    event := event.(schema := table.schema, table := table.table);
    if IsUpdate(typ) {
      var pairs := DecodePairsLoop(h.rest, table, event.columnCount, event.bitmap1, event.bitmap2);
      if pairs.Err? { return Err(pairs.error); }
      return Ok(event.(before := pairs.value.before, after := pairs.value.after));
    }
    var rows := DecodeRowListLoop(h.rest, table, event.columnCount, event.bitmap1);
    if rows.Err? { return Err(rows.error); }
    return Ok(event.(rows := rows.value));
  }
}
