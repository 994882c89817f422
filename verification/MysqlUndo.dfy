/** Reversal of rows events, and what applying a reversed event does to the tables
    (mysql/decode/events/types/E_ROWS_EVENT.go, mysql/decode/decoder/dblog.go). */
module MysqlUndo {
  import opened Bytes
  import opened MysqlColumns
  import opened MysqlTableMap
  import opened MysqlRows
  import opened Bags
  import opened Reading
  import Recovery

  /** A rows event body with the type its header carries. */
  datatype Change = Change(typ: byte, event: RowsEvent)

  predicate CompleteRows(rows: seq<Row>) {
    forall i, j :: 0 <= i < |rows| && 0 <= j < |rows[i]| ==> !rows[i][j].skipped
  }

  function ReverseRows(e: RowsEvent, typ: byte, rows: seq<Row>, before: seq<Row>, after: seq<Row>): Option<Change> {
    if before == [] && after == [] && rows == [] then None
    else if !CompleteRows(rows) || !CompleteRows(before) || !CompleteRows(after) then None
    else Some(Change(typ, e.(rows := rows, before := before, after := after, decodeError := false)))
  }

  function ReversedType(typ: byte): byte {
    if typ == WRITE_ROWS_V0 then DELETE_ROWS_V0
    else if typ == WRITE_ROWS_V1 then DELETE_ROWS_V1
    else if typ == WRITE_ROWS_V2 then DELETE_ROWS_V2
    else if typ == DELETE_ROWS_V0 then WRITE_ROWS_V0
    else if typ == DELETE_ROWS_V1 then WRITE_ROWS_V1
    else if typ == DELETE_ROWS_V2 then WRITE_ROWS_V2
    else typ
  }

  predicate IsWrite(typ: byte) { typ == WRITE_ROWS_V0 || typ == WRITE_ROWS_V1 || typ == WRITE_ROWS_V2 }
  predicate IsDelete(typ: byte) { typ == DELETE_ROWS_V0 || typ == DELETE_ROWS_V1 || typ == DELETE_ROWS_V2 }
  predicate IsFullUpdate(typ: byte) { typ == UPDATE_ROWS_V0 || typ == UPDATE_ROWS_V1 || typ == UPDATE_ROWS_V2 }

  function Reverse(c: Change): Option<Change> {
    var e := c.event;
    if e.decodeError then None
    else if IsWrite(c.typ) || IsDelete(c.typ) then ReverseRows(e, ReversedType(c.typ), e.rows, [], [])
    else if IsFullUpdate(c.typ) then
      if e.before == [] || |e.before| != |e.after| then None
      else ReverseRows(e, c.typ, [], e.after, e.before)
    else None
  }

  // ---- the types of rows events, by their bytes ----

  predicate Inserts(typ: byte) { typ == 0x14 || typ == 0x17 || typ == 0x1e }
  predicate Updates(typ: byte) { typ == 0x15 || typ == 0x18 || typ == 0x1f }
  predicate Deletes(typ: byte) { typ == 0x16 || typ == 0x19 || typ == 0x20 }

  /** Writes and deletes of a version turn into each other, updates into updates. */
  predicate TurnsInto(typ: byte, back: byte) {
    || (typ, back) in {(0x14, 0x16), (0x16, 0x14), (0x17, 0x19), (0x19, 0x17), (0x1e, 0x20), (0x20, 0x1e)}
    || (Updates(typ) && back == typ)
  }

  /** Which events have a reverse, exactly: those decoded in full that hold a row, all of it complete, updates with
      as many before images as after images. What the reverse is: the opposite type over the same rows, or the two
      images exchanged. */
  lemma ReversesExactly(c: Change)
    ensures var e := c.event;
            Reverse(c).Some? <==>
              && !e.decodeError
              && if Inserts(c.typ) || Deletes(c.typ) then e.rows != [] && CompleteRows(e.rows)
                 else Updates(c.typ) && e.before != [] && |e.before| == |e.after|
                      && CompleteRows(e.before) && CompleteRows(e.after)
    ensures Reverse(c).Some? ==>
              && TurnsInto(c.typ, Reverse(c).value.typ)
              && Reverse(c).value.event == if Updates(c.typ) then c.event.(rows := [], before := c.event.after,
                                                                           after := c.event.before)
                                           else c.event.(before := [], after := [])
  {
  }

  // ---- what decoding guarantees about an event that reverses ----

  /** A column is skipped exactly when the bitmap leaves it out. */
  lemma {:induction false} SkippedColumns(data: bytes, types: bytes, metas: seq<uint16>, bitmap: bytes, nulls: bytes,
                                          i: nat, n: nat, k: nat)
    requires i <= n <= |types| && n <= |metas|
    requires DecodeColumnsFrom(data, types, metas, bitmap, nulls, i, n, k).Ok?
    ensures var row := DecodeColumnsFrom(data, types, metas, bitmap, nulls, i, n, k).value.value;
            forall j :: 0 <= j < n - i ==> row[j].skipped == !BitmapBit(bitmap, i + j)
    decreases n - i
  {
    hide BitmapBit, DecodeColumnValue;
    if i == n {
    } else {
      var row := DecodeColumnsFrom(data, types, metas, bitmap, nulls, i, n, k).value.value;
      var rest: Row;
      if !BitmapBit(bitmap, i) {
        SkippedColumns(data, types, metas, bitmap, nulls, i + 1, n, k);
        rest := DecodeColumnsFrom(data, types, metas, bitmap, nulls, i + 1, n, k).value.value;
      } else if BitmapBit(nulls, k) {
        SkippedColumns(data, types, metas, bitmap, nulls, i + 1, n, k + 1);
        rest := DecodeColumnsFrom(data, types, metas, bitmap, nulls, i + 1, n, k + 1).value.value;
      } else {
        var size := DecodeColumnValue(data, types[i], metas[i]).value.size;
        SkippedColumns(data[size..], types, metas, bitmap, nulls, i + 1, n, k + 1);
        rest := DecodeColumnsFrom(data[size..], types, metas, bitmap, nulls, i + 1, n, k + 1).value.value;
      }
      assert row[0].skipped == !BitmapBit(bitmap, i) && row[1..] == rest;
      ConsSkipped(row, bitmap, i);
    }
  }

  lemma ConsSkipped(row: Row, bitmap: bytes, i: nat)
    requires row != [] && row[0].skipped == !BitmapBit(bitmap, i)
    requires forall j :: 0 <= j < |row| - 1 ==> row[1..][j].skipped == !BitmapBit(bitmap, i + 1 + j)
    ensures forall j :: 0 <= j < |row| ==> row[j].skipped == !BitmapBit(bitmap, i + j)
  {
    forall j | 0 <= j < |row| ensures row[j].skipped == !BitmapBit(bitmap, i + j) {
      if j > 0 { assert row[1..][j - 1].skipped == !BitmapBit(bitmap, i + 1 + (j - 1)); }
    }
  }

  predicate AllPresent(bitmap: bytes, n: nat) { forall i :: 0 <= i < n ==> BitmapBit(bitmap, i) }

  lemma CompleteRowBitmap(data: bytes, table: TableMap, n: nat, bitmap: bytes)
    requires Consistent(table) && n <= table.columnCount
    requires DecodeRow(data, table, n, bitmap).Ok?
    requires forall j :: 0 <= j < n ==> !DecodeRow(data, table, n, bitmap).value.value[j].skipped
    ensures AllPresent(bitmap, n)
  {
    hide BitmapBit;
    var nullLength := (CountPresent(bitmap, n) + 7) / 8;
    SkippedColumns(data[nullLength..], table.types, table.metas, bitmap, data[..nullLength], 0, n, 0);
    var row := DecodeRow(data, table, n, bitmap).value.value;
    forall i | 0 <= i < n ensures BitmapBit(bitmap, i) {
      assert row[i].skipped == !BitmapBit(bitmap, 0 + i);
    }
  }

  /** Reverse leaves both bitmaps where they were although it swaps the images. For a decoded update that
      is right: it reverses only when both bitmaps hold every column. */
  lemma ReversibleUpdateBitmaps(data: bytes, desc: Option<FmtDesc>, tables: Tables, typ: byte, e: RowsEvent)
    requires DecodeRowsEvent(data, desc, tables, typ) == Ok(e)
    requires typ == 0x18 || typ == 0x1f
    requires Reverse(Change(typ, e)).Some?
    ensures AllPresent(e.bitmap1, e.columnCount) && AllPresent(e.bitmap2, e.columnCount)
  {
    hide DecodeHeader, DecodeRow, BitmapBit;
    var h := DecodeHeader(data, desc, typ).value;
    var table := tables[e.tableID];
    var n := e.columnCount;
    assert h.rest != [];
    var b := DecodeRow(h.rest, table, n, e.bitmap1).value;
    var a := DecodeRow(h.rest[b.size..], table, n, e.bitmap2).value;
    assert e.before[0] == b.value && e.after[0] == a.value;
    CompleteRowBitmap(h.rest, table, n, e.bitmap1);
    CompleteRowBitmap(h.rest[b.size..], table, n, e.bitmap2);
  }

  /** Which images a decoded event holds. */
  lemma DecodedShape(data: bytes, desc: Option<FmtDesc>, tables: Tables, typ: byte, e: RowsEvent)
    requires DecodeRowsEvent(data, desc, tables, typ) == Ok(e)
    ensures |e.before| == |e.after|
    ensures if typ == 0x18 || typ == 0x1f || typ == 0x27 then e.rows == [] else e.before == [] && e.after == []
    ensures e.decodeError <==> e.tableID !in tables
  {
    hide DecodePairs, DecodeRowList;
    DecodedHeader(data, desc, typ);
  }

  lemma DecodedHeader(data: bytes, desc: Option<FmtDesc>, typ: byte)
    requires DecodeHeader(data, desc, typ).Ok?
    ensures !DecodeHeader(data, desc, typ).value.event.decodeError
  {
    hide TableIDLength, ExtraData, LengthEncodedInt, Expect, BitmapByteSize;
  }

  /** Reversing twice gives the decoded event back, type and images and all. */
  lemma ReverseTwice(data: bytes, desc: Option<FmtDesc>, tables: Tables, typ: byte, e: RowsEvent)
    requires DecodeRowsEvent(data, desc, tables, typ) == Ok(e)
    requires Reverse(Change(typ, e)).Some?
    ensures Reverse(Reverse(Change(typ, e)).value) == Some(Change(typ, e))
  {
    hide DecodeRowsEvent, CompleteRows;
    DecodedShape(data, desc, tables, typ, e);
  }

  /** Version 0 updates are decoded as plain rows, so no flashback is ever emitted for them; nor is one
      for partial updates. */
  lemma UnpairedUpdatesNeverReverse(data: bytes, desc: Option<FmtDesc>, tables: Tables, typ: byte, e: RowsEvent)
    requires DecodeRowsEvent(data, desc, tables, typ) == Ok(e)
    requires typ == 0x15 || typ == 0x27
    ensures Reverse(Change(typ, e)).None?
  {
    hide DecodeRowsEvent;
    DecodedShape(data, desc, tables, typ, e);
  }

  // ---- a store of tables ----

  type Store = map<(bytes, bytes), multiset<Row>>

  function Key(e: RowsEvent): (bytes, bytes) { (e.schema, e.table) }

  /** What replaying a rows event does; None when its table or one of its rows is not there. */
  function Apply(s: Store, c: Change): Option<Store> {
    var e := c.event;
    if e.decodeError || Key(e) !in s then None
    else
      var t := s[Key(e)];
      if Inserts(c.typ) then Some(s[Key(e) := InsertAll(t, e.rows)])
      else if Deletes(c.typ) then
        var u := DeleteAll(t, e.rows);
        if u.None? then None else Some(s[Key(e) := u.value])
      else if Updates(c.typ) && |e.before| == |e.after| then
        var u := UpdateAll(t, e.before, e.after);
        if u.None? then None else Some(s[Key(e) := u.value])
      else None
  }

  /** The event reverses, and if it is an update then each of its swapped pairs finds its row, by the count on
      the table before the event. */
  predicate Guard(s: Store, c: Change) {
    && Reverse(c).Some?
    && (Updates(c.typ) && Key(c.event) in s ==> FindsEach(s[Key(c.event)], c.event.before, c.event.after))
  }

  /** An applied event is undone by its reverse exactly under the guard. */
  lemma EventUndone(s: Store, c: Change)
    requires Reverse(c).Some? && Apply(s, c).Some?
    ensures Apply(Apply(s, c).value, Reverse(c).value) == Some(s) <==> Guard(s, c)
  {
    hide CompleteRows, InsertAll, DeleteAll, UpdateAll, FindsEach;
    var e := c.event;
    var t := s[Key(e)];
    var u := Apply(s, c).value[Key(e)];
    if Inserts(c.typ) {
      InsertUndone(t, e.rows);
    } else if Deletes(c.typ) {
      DeleteUndone(t, e.rows);
    } else {
      UpdateUndoneExactly(t, e.before, e.after);
    }
    assert s[Key(e) := u][Key(e) := t] == s;
  }

  /** In particular when the deleted rows, or the before images of an update, lie in the table together. */
  lemma TogetherGuarded(s: Store, c: Change)
    requires Reverse(c).Some? && Key(c.event) in s
    requires Updates(c.typ) ==> multiset(c.event.before) <= s[Key(c.event)]
    ensures Guard(s, c)
  {
    hide CompleteRows, FindsEach;
    if Updates(c.typ) { TogetherFinds(s[Key(c.event)], c.event.before, c.event.after); }
  }

  /** A row of one INT column. */
  function RowOf(n: int): Row { [ColumnValue(TYPE_LONG, 0, false, false, Int(n), None)] }

  /** An event that is not undone: one row is moved from 1 to 2 and on to 3. It applies and has a reverse, but
      the reverse looks for a 2 in a table that holds a 3. */
  lemma ChainedChangeNotUndone()
    ensures var before, after := [RowOf(1), RowOf(2)], [RowOf(2), RowOf(3)];
            var c := Change(0x1f,
                            RowsEvent(2, 1, 0, [], 1, [1], [1], [100], [116], [], before, after, false));
            var s := map[([100], [116]) := multiset{RowOf(1)}];
            && Apply(s, c) == Some(map[([100], [116]) := multiset{RowOf(3)}])
            && Reverse(c).Some? && Apply(Apply(s, c).value, Reverse(c).value).None?
  {
    hide UpdateAll;
    assert RowOf(1)[0] != RowOf(2)[0] && RowOf(2)[0] != RowOf(3)[0] && RowOf(1)[0] != RowOf(3)[0];
    ChainedUpdateNotUndone(RowOf(1), RowOf(2), RowOf(3));
    var key: (bytes, bytes) := ([100], [116]);
    assert map[key := multiset{RowOf(1)}][key := multiset{RowOf(3)}] == map[key := multiset{RowOf(3)}];
  }

  /** What a binlog event does to the rows: a change, or nothing, as for transaction and format events. */
  datatype Logged = Rows(change: Change) | Control

  function ReverseLogged(b: Logged): Option<Change> { if b.Rows? then Reverse(b.change) else None }

  function ApplyLogged(s: Store, b: Logged): Option<Store> { if b.Rows? then Apply(s, b.change) else Some(s) }

  predicate GuardLogged(s: Store, b: Logged) { b.Rows? ==> Guard(s, b.change) }

  /** The reverse of an event gives a state from one state only. */
  lemma UndoInjective(s: Store, c: Change, t: Store)
    requires Reverse(c).Some? && Apply(s, c).Some? && Apply(t, Reverse(c).value) == Some(s)
    ensures t == Apply(s, c).value
  {
    hide CompleteRows, InsertAll, DeleteAll, UpdateAll;
    var e := c.event;
    var key := Key(e);
    if Inserts(c.typ) {
      DeleteInjective(t[key], s[key], e.rows);
    } else if Deletes(c.typ) {
      InsertUndone(t[key], e.rows);
    } else {
      UpdateInjective(t[key], s[key], e.before, e.after);
    }
    assert t[key := s[key]] == s && t[key := s[key]][key := t[key]] == t;
  }

  /** Window rollback for MySQL, exactly: over any run of applied events whose row changes have a reverse,
      replaying the plan in reverse checkpoint order restores every table if and only if each event is undone
      where it happened. */
  lemma MysqlWindowRollback(s: Store, events: seq<Recovery.Event<Logged>>)
    requires Recovery.ApplyAll(s, events, ApplyLogged).Some?
    requires forall e :: e in events && e.body.Rows? ==> Reverse(e.body.change).Some?
    ensures Recovery.Rollback(Recovery.ApplyAll(s, events, ApplyLogged).value, Recovery.Plan(events, ReverseLogged),
                              Apply)
            == Some(s)
            <==> Recovery.Guarded(s, events, ApplyLogged, GuardLogged)
  {
    hide Apply, Reverse, Guard;
    var harmless := (b: Logged) => b.Control?;
    forall s: Store, b: Logged
      ensures ApplyLogged(s, b).Some? && ReverseLogged(b).Some? ==>
                (Apply(ApplyLogged(s, b).value, ReverseLogged(b).value) == Some(s) <==> GuardLogged(s, b))
      ensures ReverseLogged(b).None? && harmless(b) ==> ApplyLogged(s, b) == Some(s) && GuardLogged(s, b)
    {
      if ApplyLogged(s, b).Some? && ReverseLogged(b).Some? { EventUndone(s, b.change); }
    }
    forall s: Store, b: Logged, t: Store
      | ApplyLogged(s, b).Some? && ReverseLogged(b).Some? && Apply(t, ReverseLogged(b).value) == Some(s)
      ensures t == ApplyLogged(s, b).value
    {
      UndoInjective(s, b.change, t);
    }
    Recovery.WindowRollbackExactly(s, events, ApplyLogged, Apply, ReverseLogged, GuardLogged, harmless);
  }
}
