/** The wire form of whole rows events, and the proof that MysqlRows reads back what was written. */
module MysqlRowsWire {
  import opened Bytes
  import opened MysqlColumns
  import opened MysqlTableMap
  import opened MysqlRows
  import opened Reading

  /** The versions of the rows event types, by their bytes: 0x14 to 0x16 are version 0, 0x17 to 0x19 are version 1,
      0x1e to 0x20 and partial updates are version 2. */
  predicate HasVersion(typ: byte, version: nat) {
    || (typ in {0x14, 0x15, 0x16} && version == 0)
    || (typ in {0x17, 0x18, 0x19} && version == 1)
    || (typ in {0x1e, 0x1f, 0x20, 0x27} && version == 2)
  }

  /** Updates of version 1 and 2 carry a bitmap for their after images as well. */
  predicate HasAfterBitmap(typ: byte) { typ == 0x18 || typ == 0x1f || typ == 0x27 }

  /** Table ids have 4 bytes for the types whose post-header is 6 bytes long, and 6 for the others. */
  predicate HasWidth(desc: Option<FmtDesc>, typ: byte, width: nat) {
    && desc.Some? && 0 < typ <= |desc.value.postHeaders|
    && width == if desc.value.postHeaders[typ - 1] == 6 then 4 else 6
  }

  /** A header a server can write for an event of this type: no row images yet, no table resolved. */
  predicate WellFormedHeader(e: RowsEvent, typ: byte, width: nat) {
    && HasVersion(typ, e.version)
    && e.tableID < Pow(256, width) && e.flags < 0x1_0000
    && (if e.version == 2 then |e.extraData| < 0x1_0000 - 2 else e.extraData == [])
    && e.columnCount < MAX_PAYLOAD
    && |e.bitmap1| == (e.columnCount + 7) / 8
    && (if HasAfterBitmap(typ) then |e.bitmap2| == |e.bitmap1| else e.bitmap2 == [])
    && e.schema == [] && e.table == [] && e.rows == [] && e.before == [] && e.after == [] && !e.decodeError
  }

  function EncodeExtra(e: RowsEvent): bytes {
    if e.version == 2 then EncodeLittleEndian(|e.extraData| + 2, 2) + e.extraData else []
  }

  function EncodeHeader(e: RowsEvent, typ: byte, width: nat): bytes
    requires WellFormedHeader(e, typ, width)
  {
    EncodeLittleEndian(e.tableID, width) + (EncodeLittleEndian(e.flags, 2) + (EncodeExtra(e)
      + (EncodeLengthInt(e.columnCount) + (e.bitmap1 + e.bitmap2))))
  }

  lemma ExpectOf(b: bytes, rest: bytes)
    ensures Expect(b + rest, |b|) == Ok(Cut(b, rest))
  {
    Concat(b, rest);
  }

  lemma ExtraRoundTrip(e: RowsEvent, typ: byte, width: nat, rest: bytes)
    requires WellFormedHeader(e, typ, width)
    ensures ExtraData(EncodeExtra(e) + rest, e.version) == Ok(Cut(e.extraData, rest))
  {
    if e.version == 2 {
      var length := EncodeLittleEndian(|e.extraData| + 2, 2);
      Powers256();
      LittleEndianRoundTrip(|e.extraData| + 2, 2);
      Assoc(length, e.extraData, rest);
      ExpectOf(length, e.extraData + rest);
      ExpectOf(e.extraData, rest);
    } else {
      assert EncodeExtra(e) + rest == rest;
    }
  }

  /** Header and bitmaps as DecodeHeader reads them, from the column count on. */
  lemma BitmapsRoundTrip(e: RowsEvent, typ: byte, width: nat, body: bytes)
    requires WellFormedHeader(e, typ, width)
    ensures var b := EncodeLengthInt(e.columnCount) + (e.bitmap1 + (e.bitmap2 + body));
            var count := LengthEncodedInt(b);
            && b != [] && count == Ok(LengthInt(e.columnCount, false, |EncodeLengthInt(e.columnCount)|))
            && b[count.value.size..] == e.bitmap1 + (e.bitmap2 + body)
            && BitmapByteSize(GoInt(e.columnCount)) == |e.bitmap1|
            && Expect(e.bitmap1 + (e.bitmap2 + body), |e.bitmap1|) == Ok(Cut(e.bitmap1, e.bitmap2 + body))
            && (HasAfterBitmap(typ) ==> Expect(e.bitmap2 + body, |e.bitmap1|) == Ok(Cut(e.bitmap2, body)))
            && (!HasAfterBitmap(typ) ==> e.bitmap2 + body == body)
  {
    hide LengthEncodedInt;
    var tail := e.bitmap1 + (e.bitmap2 + body);
    LengthIntRoundTrip(e.columnCount, tail);
    Concat(EncodeLengthInt(e.columnCount), tail);
    ExpectOf(e.bitmap1, e.bitmap2 + body);
    if HasAfterBitmap(typ) { ExpectOf(e.bitmap2, body); }
  }

  lemma TypesAgree(typ: byte, version: nat)
    requires HasVersion(typ, version)
    ensures typ != 0 && Version(typ) == version && (IsUpdate(typ) <==> HasAfterBitmap(typ))
  {
  }

  lemma HeaderRoundTrip(e: RowsEvent, typ: byte, desc: Option<FmtDesc>, width: nat, body: bytes)
    requires HasWidth(desc, typ, width) && WellFormedHeader(e, typ, width)
    ensures DecodeHeader(EncodeHeader(e, typ, width) + body, desc, typ) == Ok(Header(e, body))
  {
    hide LittleEndian, EncodeLittleEndian, ExtraData, EncodeExtra, EncodeLengthInt, LengthEncodedInt,
      BitmapByteSize, GoInt, HasVersion, Version, IsUpdate, HasAfterBitmap;
    TypesAgree(typ, e.version);
    var id, flags, extra := EncodeLittleEndian(e.tableID, width), EncodeLittleEndian(e.flags, 2), EncodeExtra(e);
    var count := EncodeLengthInt(e.columnCount);
    LittleEndianRoundTrip(e.tableID, width);
    FlagsRoundTrip(e.flags);
    var fromCount := count + (e.bitmap1 + (e.bitmap2 + body));
    BitmapsRoundTrip(e, typ, width, body);
    ExtraRoundTrip(e, typ, width, fromCount);
    ExpectOf(flags, extra + fromCount);
    ExpectOf(id, flags + (extra + fromCount));
    assert EncodeHeader(e, typ, width) + body == id + (flags + (extra + fromCount)) by {
      Assoc(id, flags + (extra + (count + (e.bitmap1 + e.bitmap2))), body);
      Assoc(flags, extra + (count + (e.bitmap1 + e.bitmap2)), body);
      Assoc(extra, count + (e.bitmap1 + e.bitmap2), body);
      Assoc(count, e.bitmap1 + e.bitmap2, body);
      Assoc(e.bitmap1, e.bitmap2, body);
    }
  }

  lemma FlagsRoundTrip(flags: nat)
    requires flags < 0x1_0000
    ensures LittleEndian(EncodeLittleEndian(flags, 2)) == flags
  {
    Powers256();
    LittleEndianRoundTrip(flags, 2);
  }

  // ---- rows ----

  /** Every row has a cell for each of the n columns of the event, in the columns of the table. */
  predicate WellFormedRows(rows: seq<seq<Cell>>, table: TableMap, n: nat, bitmap: bytes) {
    && Consistent(table) && n <= table.columnCount
    && forall i :: 0 <= i < |rows| ==>
         |rows[i]| == n && WellFormedRow(rows[i], table.types, table.metas) && Presents(bitmap, rows[i])
  }

  function EncodeRows(rows: seq<seq<Cell>>, table: TableMap, n: nat, bitmap: bytes): bytes
    requires WellFormedRows(rows, table, n, bitmap)
  {
    if rows == [] then []
    else EncodeRow(rows[0], table.types, table.metas) + EncodeRows(rows[1..], table, n, bitmap)
  }

  predicate RepresentsRows(decoded: seq<Row>, rows: seq<seq<Cell>>, table: TableMap, n: nat, bitmap: bytes)
    requires WellFormedRows(rows, table, n, bitmap)
  {
    && |decoded| == |rows|
    && forall i :: 0 <= i < |rows| ==> RepresentsRow(decoded[i], rows[i], table.types, table.metas)
  }

  /** An image with a present column is never empty, so the body loop always moves on. */
  lemma ImageNotEmpty(cells: seq<Cell>, table: TableMap, bitmap: bytes)
    requires Consistent(table) && |cells| <= table.columnCount
    requires WellFormedRow(cells, table.types, table.metas) && Presents(bitmap, cells)
    requires CountPresent(bitmap, |cells|) > 0
    ensures |EncodeRow(cells, table.types, table.metas)| > 0
  {
    PresentCells(cells, bitmap, 0);
  }

  /** The body loop splits a concatenation of images into exactly those rows. */
  lemma {:induction false} RowListRoundTrip(rows: seq<seq<Cell>>, table: TableMap, n: nat, bitmap: bytes)
    requires WellFormedRows(rows, table, n, bitmap) && CountPresent(bitmap, n) > 0
    ensures var r := DecodeRowList(EncodeRows(rows, table, n, bitmap), table, n, bitmap);
            r.Ok? && RepresentsRows(r.value, rows, table, n, bitmap)
  {
    hide EncodeRow, DecodeRow, RepresentsRow, WellFormedRow, Presents, CountPresent;
    if rows == [] {
    } else {
      var e, rest := EncodeRow(rows[0], table.types, table.metas), EncodeRows(rows[1..], table, n, bitmap);
      RowRoundTrip(rows[0], table, bitmap, rest);
      ImageNotEmpty(rows[0], table, bitmap);
      Concat(e, rest);
      RowListRoundTrip(rows[1..], table, n, bitmap);
    }
  }

  /** Before and after images in turn, as updates are written. */
  function EncodePairs(before: seq<seq<Cell>>, after: seq<seq<Cell>>, table: TableMap, n: nat,
                       bitmap1: bytes, bitmap2: bytes): bytes
    requires |before| == |after|
    requires WellFormedRows(before, table, n, bitmap1) && WellFormedRows(after, table, n, bitmap2)
  {
    if before == [] then []
    else EncodeRow(before[0], table.types, table.metas) + (EncodeRow(after[0], table.types, table.metas)
           + EncodePairs(before[1..], after[1..], table, n, bitmap1, bitmap2))
  }

  lemma {:induction false} PairsRoundTrip(before: seq<seq<Cell>>, after: seq<seq<Cell>>, table: TableMap, n: nat,
                                          bitmap1: bytes, bitmap2: bytes)
    requires |before| == |after|
    requires WellFormedRows(before, table, n, bitmap1) && WellFormedRows(after, table, n, bitmap2)
    requires CountPresent(bitmap1, n) > 0 && CountPresent(bitmap2, n) > 0
    ensures var r := DecodePairs(EncodePairs(before, after, table, n, bitmap1, bitmap2), table, n, bitmap1, bitmap2);
            && r.Ok? && RepresentsRows(r.value.before, before, table, n, bitmap1)
            && RepresentsRows(r.value.after, after, table, n, bitmap2)
  {
    hide EncodeRow, DecodeRow, RepresentsRow, WellFormedRow, Presents, CountPresent;
    if before == [] {
    } else {
      var b, a := EncodeRow(before[0], table.types, table.metas), EncodeRow(after[0], table.types, table.metas);
      var rest := EncodePairs(before[1..], after[1..], table, n, bitmap1, bitmap2);
      RowRoundTrip(before[0], table, bitmap1, a + rest);
      RowRoundTrip(after[0], table, bitmap2, rest);
      ImageNotEmpty(before[0], table, bitmap1);
      ImageNotEmpty(after[0], table, bitmap2);
      Concat(b, a + rest);
      Concat(a, rest);
      PairsRoundTrip(before[1..], after[1..], table, n, bitmap1, bitmap2);
    }
  }

  /** The guard on present columns is needed: images with no column at all are empty on the wire, so a
      body of them reads back as no rows, however many were written. */
  lemma {:induction false} EmptyImagesLost(rows: seq<seq<Cell>>, table: TableMap, n: nat, bitmap: bytes)
    requires WellFormedRows(rows, table, n, bitmap) && CountPresent(bitmap, n) == 0
    ensures DecodeRowList(EncodeRows(rows, table, n, bitmap), table, n, bitmap) == Ok([])
  {
    if rows == [] {
    } else {
      EmptyImagesLost(rows[1..], table, n, bitmap);
      NoCells(rows[0], table.types, table.metas, bitmap);
      assert [] + EncodeRows(rows[1..], table, n, bitmap) == EncodeRows(rows[1..], table, n, bitmap);
    }
  }

  /** So the number of rows survives exactly when some column is present or there is no row at all. */
  lemma RowsSurvive(rows: seq<seq<Cell>>, table: TableMap, n: nat, bitmap: bytes)
    requires WellFormedRows(rows, table, n, bitmap)
    ensures var r := DecodeRowList(EncodeRows(rows, table, n, bitmap), table, n, bitmap);
            r.Ok? && (|r.value| == |rows| <==> rows == [] || CountPresent(bitmap, n) > 0)
  {
    if CountPresent(bitmap, n) > 0 {
      RowListRoundTrip(rows, table, n, bitmap);
    } else {
      EmptyImagesLost(rows, table, n, bitmap);
    }
  }

  lemma NoCells(cells: seq<Cell>, types: bytes, metas: seq<uint16>, bitmap: bytes)
    requires WellFormedRow(cells, types, metas) && Presents(bitmap, cells) && CountPresent(bitmap, |cells|) == 0
    ensures EncodeRow(cells, types, metas) == []
  {
    PresentCells(cells, bitmap, 0);
    NoValues(cells, types, metas, 0);
  }

  lemma {:induction false} NoValues(cells: seq<Cell>, types: bytes, metas: seq<uint16>, i: nat)
    requires WellFormedRow(cells, types, metas) && i <= |cells| && NullFlags(cells, i) == []
    ensures EncodeCells(cells, types, metas, i) == []
    decreases |cells| - i
  {
    if i == |cells| {
    } else {
      assert cells[i].Absent?;
      NoValues(cells, types, metas, i + 1);
    }
  }

  /** What becomes of written pairs, in every case: they all come back when both bitmaps name a column or there
      are none; they vanish when neither does; and one bitmap without a column makes the body an error. */
  lemma PairsSurvive(before: seq<seq<Cell>>, after: seq<seq<Cell>>, table: TableMap, n: nat,
                     bitmap1: bytes, bitmap2: bytes)
    requires |before| == |after|
    requires WellFormedRows(before, table, n, bitmap1) && WellFormedRows(after, table, n, bitmap2)
    ensures var r := DecodePairs(EncodePairs(before, after, table, n, bitmap1, bitmap2), table, n, bitmap1, bitmap2);
            if before == [] || (CountPresent(bitmap1, n) > 0 && CountPresent(bitmap2, n) > 0) then
              && r.Ok? && RepresentsRows(r.value.before, before, table, n, bitmap1)
              && RepresentsRows(r.value.after, after, table, n, bitmap2)
            else if CountPresent(bitmap1, n) == 0 && CountPresent(bitmap2, n) == 0 then r == Ok(Pairs([], []))
            else r == Err(Invalid)
  {
    hide EncodeRow, DecodeRow, RepresentsRow, WellFormedRow, Presents, CountPresent;
    if before == [] {
    } else if CountPresent(bitmap1, n) > 0 && CountPresent(bitmap2, n) > 0 {
      PairsRoundTrip(before, after, table, n, bitmap1, bitmap2);
    } else if CountPresent(bitmap1, n) == 0 && CountPresent(bitmap2, n) == 0 {
      EmptyPairsLost(before, after, table, n, bitmap1, bitmap2);
    } else {
      var b, a := EncodeRow(before[0], table.types, table.metas), EncodeRow(after[0], table.types, table.metas);
      var rest := EncodePairs(before[1..], after[1..], table, n, bitmap1, bitmap2);
      RowRoundTrip(before[0], table, bitmap1, a + rest);
      RowRoundTrip(after[0], table, bitmap2, rest);
      Concat(b, a + rest);
      if CountPresent(bitmap1, n) == 0 {
        NoCells(before[0], table.types, table.metas, bitmap1);
        ImageNotEmpty(after[0], table, bitmap2);
      } else {
        NoCells(after[0], table.types, table.metas, bitmap2);
        ImageNotEmpty(before[0], table, bitmap1);
      }
    }
  }

  lemma {:induction false} EmptyPairsLost(before: seq<seq<Cell>>, after: seq<seq<Cell>>, table: TableMap, n: nat,
                                          bitmap1: bytes, bitmap2: bytes)
    requires |before| == |after|
    requires WellFormedRows(before, table, n, bitmap1) && WellFormedRows(after, table, n, bitmap2)
    requires CountPresent(bitmap1, n) == 0 && CountPresent(bitmap2, n) == 0
    ensures EncodePairs(before, after, table, n, bitmap1, bitmap2) == []
  {
    hide EncodeRow, RepresentsRow, WellFormedRow, Presents, CountPresent;
    if before == [] {
    } else {
      EmptyPairsLost(before[1..], after[1..], table, n, bitmap1, bitmap2);
      NoCells(before[0], table.types, table.metas, bitmap1);
      NoCells(after[0], table.types, table.metas, bitmap2);
    }
  }

  // ---- whole events ----

  /** A write or delete event: its header, its table's names, and every row it was written with, or no row at
      all when its bitmap names no column. */
  lemma RowsEventRoundTrip(e: RowsEvent, typ: byte, desc: Option<FmtDesc>, width: nat, tables: Tables,
                           rows: seq<seq<Cell>>)
    requires HasWidth(desc, typ, width) && WellFormedHeader(e, typ, width)
    requires !HasAfterBitmap(typ) && e.tableID in tables
    requires WellFormedRows(rows, tables[e.tableID], e.columnCount, e.bitmap1)
    ensures var table := tables[e.tableID];
            var data := EncodeHeader(e, typ, width)
                        + EncodeRows(rows, table, e.columnCount, e.bitmap1);
            var r := DecodeRowsEvent(data, desc, tables, typ);
            && r.Ok? && r.value == e.(schema := table.schema, table := table.table, rows := r.value.rows)
            && if CountPresent(e.bitmap1, e.columnCount) > 0
               then RepresentsRows(r.value.rows, rows, table, e.columnCount, e.bitmap1) else r.value.rows == []
  {
    hide DecodeHeader, EncodeHeader, EncodeRows, DecodeRowList, RepresentsRows;
    HeaderRoundTrip(e, typ, desc, width, EncodeRows(rows, tables[e.tableID], e.columnCount, e.bitmap1));
    if CountPresent(e.bitmap1, e.columnCount) > 0 {
      RowListRoundTrip(rows, tables[e.tableID], e.columnCount, e.bitmap1);
    } else {
      EmptyImagesLost(rows, tables[e.tableID], e.columnCount, e.bitmap1);
    }
  }

  /** An update with two bitmaps: the same, with its before and after images paired as they were written, unless a
      bitmap names no column. */
  lemma UpdateEventRoundTrip(e: RowsEvent, typ: byte, desc: Option<FmtDesc>, width: nat, tables: Tables,
                             before: seq<seq<Cell>>, after: seq<seq<Cell>>)
    requires HasWidth(desc, typ, width) && WellFormedHeader(e, typ, width)
    requires HasAfterBitmap(typ)
    requires e.tableID in tables && |before| == |after|
    requires WellFormedRows(before, tables[e.tableID], e.columnCount, e.bitmap1)
    requires WellFormedRows(after, tables[e.tableID], e.columnCount, e.bitmap2)
    ensures var table := tables[e.tableID];
            var data := EncodeHeader(e, typ, width)
                        + EncodePairs(before, after, table, e.columnCount, e.bitmap1, e.bitmap2);
            var r := DecodeRowsEvent(data, desc, tables, typ);
            var present1, present2 := CountPresent(e.bitmap1, e.columnCount), CountPresent(e.bitmap2, e.columnCount);
            if before == [] || (present1 > 0 && present2 > 0) then
              && r.Ok? && r.value == e.(schema := table.schema, table := table.table,
                                        before := r.value.before, after := r.value.after)
              && RepresentsRows(r.value.before, before, table, e.columnCount, e.bitmap1)
              && RepresentsRows(r.value.after, after, table, e.columnCount, e.bitmap2)
            else if present1 == 0 && present2 == 0 then r == Ok(e.(schema := table.schema, table := table.table))
            else r == Err(Invalid)
  {
    hide DecodeHeader, EncodeHeader, EncodePairs, DecodePairs, RepresentsRows;
    var table := tables[e.tableID];
    HeaderRoundTrip(e, typ, desc, width, EncodePairs(before, after, table, e.columnCount, e.bitmap1, e.bitmap2));
    PairsSurvive(before, after, table, e.columnCount, e.bitmap1, e.bitmap2);
  }

  /** A written event whose rows are not decoded: of a table that no map announced, which is no error but flagged,
      and of one with fewer columns than the event, which is. */
  lemma RowsNotDecoded(e: RowsEvent, typ: byte, desc: Option<FmtDesc>, width: nat, tables: Tables, body: bytes)
    requires HasWidth(desc, typ, width) && WellFormedHeader(e, typ, width)
    ensures var r := DecodeRowsEvent(EncodeHeader(e, typ, width) + body, desc, tables, typ);
            if e.tableID !in tables then r == Ok(e.(decodeError := true))
            else tables[e.tableID].columnCount < e.columnCount ==> r == Err(Invalid)
  {
    hide DecodeHeader, EncodeHeader, WellFormedHeader, DecodePairs, DecodeRowList;
    HeaderRoundTrip(e, typ, desc, width, body);
  }

  /** Events that cannot be read for want of a description, of a post-header length, or of bytes. */
  lemma RowsRefused(data: bytes, desc: Option<FmtDesc>, width: nat, tables: Tables, typ: byte)
    ensures desc.None? || typ == 0 ==> DecodeRowsEvent(data, desc, tables, typ) == Err(Invalid)
    ensures desc.Some? && |desc.value.postHeaders| < typ ==> DecodeRowsEvent(data, desc, tables, typ) == Err(Panic)
    ensures HasWidth(desc, typ, width) && |data| < width + 2 ==>
              DecodeRowsEvent(data, desc, tables, typ) == Err(UnexpectedEOF)
  {
  }
}
