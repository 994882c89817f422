/** What flashback statements undo: single changes, windows of them, and whole streams
    (postgres/decode/events/types/event.go, postgres/decode/events/types/sql.go, doc/RECOVERY.md). */
module PgUndo {
  import opened Bytes
  import opened PgParser
  import opened PgStream
  import opened PgFlashback
  import opened Restart
  import Recovery

  // ---- one change ----

  /** The row fits the table, and the record, which is not empty, is a true one of it. */
  predicate Fits(t: Table, columns: seq<Column>, row: Row) {
    row.Keys == t.defaults.Keys && columns != [] && Record(columns, row)
  }

  ghost function Plus(t: Table, row: Row): Table
    requires row.Keys == t.defaults.Keys
  {
    TableData(t.defaults, t.rows + multiset{row})
  }

  /** Columns that a statement on the table may name. */
  predicate Nameable(columns: seq<Column>, t: Table) {
    && columns != [] && Distinct(Names(columns))
    && forall i :: 0 <= i < |columns| ==> columns[i].name in t.defaults
  }

  lemma FitsNameable(read: Reader, t: Table, columns: seq<Column>, row: Row)
    requires Fits(t, columns, row) && Readable(read, columns)
    ensures Nameable(Printed(read, columns), t)
  {
    hide Literal;
    var p := Printed(read, columns);
    forall i | 0 <= i < |p| ensures p[i].name in t.defaults {
      assert p[i].name == columns[i].name && columns[i].name in row.Keys;
    }
  }

  lemma AgreesPrinted(read: Reader, columns: seq<Column>, row: Row)
    requires Agrees(columns, row) && Readable(read, columns)
    ensures Agrees(Printed(read, columns), row) <==> Exact(read, columns)
  {
    hide Literal;
    var p := Printed(read, columns);
    if Agrees(p, row) {
      forall i | 0 <= i < |columns| ensures Literal(read, columns[i].value) == Some(columns[i].value) {
        assert row[p[i].name] == p[i].value;
      }
    }
  }

  /** An insert is undone exactly when its values read back and its record agrees with no row that was there
      before. */
  lemma InsertUndone(read: Reader, t: Table, columns: seq<Column>, row: Row)
    requires Fits(t, columns, row)
    ensures Run(read, Plus(t, row), Delete(Where(columns))) == Some(t)
            <==> Exact(read, columns) && forall r :: r in t.rows ==> !Agrees(columns, r)
  {
    hide Exec, Agrees, Exact, Readable, ReadStatement, Accepted, Printed;
    ReadDelete(read, columns);
    ExactPrinted(read, columns);
    if Readable(read, columns) {
      FitsNameable(read, t, columns, row);
      AgreesPrinted(read, columns, row);
      DeleteLeaves(t, Printed(read, columns), row);
    }
  }

  lemma DeleteLeaves(t: Table, columns: seq<Column>, row: Row)
    requires row.Keys == t.defaults.Keys && Nameable(columns, t)
    ensures Exec(Plus(t, row), Delete(Where(columns))) == Some(t)
            <==> Agrees(columns, row) && forall r :: r in t.rows ==> !Agrees(columns, r)
  {
    hide Exec, Rewrite, Agrees, Distinct;
    DeleteRuns(Plus(t, row), columns);
    forall x ensures Rewrite(Delete(Where(columns)), t.rows + multiset{row})[x]
                     == if Agrees(columns, x) then 0 else (t.rows + multiset{row})[x]
    {
      DeletedRows(Where(columns), t.rows + multiset{row}, x);
      WhereSelects(columns, x);
    }
    RemainingCounts(t.rows, Rewrite(Delete(Where(columns)), t.rows + multiset{row}), columns, row);
  }

  lemma DeleteRuns(t: Table, columns: seq<Column>)
    requires Nameable(columns, t)
    ensures var delete := Delete(Where(columns));
            var r := Exec(t, delete);
            r.Some? && r.value.defaults == t.defaults && r.value.rows == Rewrite(delete, t.rows)
  {
    hide Distinct, Rewrite;
    NamesKnown(columns, t);
  }

  lemma NamesKnown(columns: seq<Column>, t: Table)
    requires Nameable(columns, t)
    ensures KnownNames(Where(columns), t.defaults)
    ensures Targets(Assignments(columns)) == Names(columns) && Writable(Names(columns), t.defaults)
  {
    hide Distinct;
    assert forall i :: 0 <= i < |columns| ==> Where(columns)[i].name == columns[i].name;
    assert forall i :: 0 <= i < |columns| ==> Names(columns)[i] == columns[i].name;
  }

  lemma RemainingCounts(rows: multiset<Row>, left: multiset<Row>, columns: seq<Column>, row: Row)
    requires forall x :: left[x] == if Agrees(columns, x) then 0 else (rows + multiset{row})[x]
    ensures left == rows <==> Agrees(columns, row) && forall r :: r in rows ==> !Agrees(columns, r)
  {
    hide Agrees;
    if !Agrees(columns, row) {
      assert left[row] != rows[row];
    } else if forall r :: r in rows ==> !Agrees(columns, r) {
      forall x ensures left[x] == rows[x] {}
    } else {
      var r :| r in rows && Agrees(columns, r);
      assert left[r] != rows[r];
    }
  }

  /** A delete is undone exactly when its values read back and every column its record leaves out held the
      column's default. */
  lemma DeleteUndone(read: Reader, t: Table, columns: seq<Column>, row: Row)
    requires Fits(t, columns, row)
    ensures Run(read, t, Insert(Names(columns), Values(columns))) == Some(Plus(t, row))
            <==> Exact(read, columns) && AlikeOutside(columns, t.defaults, row)
  {
    hide Agrees, Assigned, Exact, Readable, Exec, ReadStatement, Accepted, Printed;
    ReadInsert(read, columns);
    ExactPrinted(read, columns);
    if Readable(read, columns) {
      var p := Printed(read, columns);
      FitsNameable(read, t, columns, row);
      AgreesPrinted(read, columns, row);
      InsertRuns(t, p);
      AssignedBack(p, t.defaults, row);
      AddedAlike(t.rows, Assigned(t.defaults, Assignments(p)), row);
      SameOutside(columns, p, t.defaults, row);
    }
  }

  lemma SameOutside(columns: seq<Column>, p: seq<Column>, a: Row, b: Row)
    requires a.Keys == b.Keys && Names(p) == Names(columns)
    ensures AlikeOutside(p, a, b) <==> AlikeOutside(columns, a, b)
  {
  }

  lemma InsertRuns(t: Table, columns: seq<Column>)
    requires Nameable(columns, t)
    ensures var r := Exec(t, Insert(Names(columns), Values(columns)));
            && r.Some? && r.value.defaults == t.defaults
            && r.value.rows == t.rows + multiset{Assigned(t.defaults, Assignments(columns))}
  {
    hide Distinct, Assigned;
    NamesKnown(columns, t);
    assert Zip(Names(columns), Values(columns)) == Assignments(columns);
  }

  lemma AddedAlike<T>(rows: multiset<T>, a: T, b: T)
    ensures rows + multiset{a} == rows + multiset{b} <==> a == b
  {
    if a != b { assert (rows + multiset{a})[a] == rows[a] + 1 && (rows + multiset{b})[a] == rows[a]; }
  }

  /** When the statement that reverses an update restores the table. If the new tuple reads back, the statement
      finds the new row, so: the old values must read back, the old key must cover every column that changed,
      and no other row may equal the new one, unless nothing changed. If it is accepted without reading back,
      the statement misses the new row and finds others instead, if any: then nothing must have changed, and
      nothing be changed. */
  ghost predicate UpdateReversible(read: Reader, t: Table, oldKey: seq<Column>, newTuple: seq<Column>,
                                   oldRow: Row, newRow: Row)
    requires oldRow.Keys == newRow.Keys
  {
    if Exact(read, newTuple) then
      Exact(read, oldKey) && AlikeOutside(oldKey, newRow, oldRow) && (newRow in t.rows ==> oldRow == newRow)
    else
      && Readable(read, newTuple) && Readable(read, oldKey) && oldRow == newRow
      && var found := RowOf(Printed(read, newTuple));
         found in t.rows ==> Assigned(found, Assignments(Printed(read, oldKey))) == found
  }

  /** When replacing every `found` by `back` in `rows` with `newRow` added gives `rows` with `oldRow` added. */
  ghost predicate Restores<T>(rows: multiset<T>, oldRow: T, newRow: T, found: T, back: T) {
    if found == newRow then back == oldRow && (newRow in rows ==> oldRow == newRow)
    else oldRow == newRow && (found in rows ==> back == found)
  }

  /** An update from `oldRow` to `newRow`, its new tuple whole, is undone exactly when it is reversible so. */
  lemma UpdateUndone(read: Reader, t: Table, oldKey: seq<Column>, newTuple: seq<Column>, oldRow: Row, newRow: Row)
    requires Fits(t, oldKey, oldRow) && Fits(t, newTuple, newRow) && Whole(newTuple, newRow)
    ensures Run(read, Plus(t, newRow), Update(Assignments(oldKey), Where(newTuple))) == Some(Plus(t, oldRow))
            <==> UpdateReversible(read, t, oldKey, newTuple, oldRow, newRow)
  {
    hide Exec, Agrees, Distinct, Assigned, AlikeOutside, Exact, Readable, ReadStatement, Accepted, Printed, RowOf,
      Whole, Names, Assignments;
    ReadUpdate(read, oldKey, newTuple);
    ExactPrinted(read, oldKey);
    ExactPrinted(read, newTuple);
    if Readable(read, oldKey) && Readable(read, newTuple) {
      ReadableUpdateUndone(read, t, oldKey, newTuple, oldRow, newRow);
    }
  }

  lemma ReadableUpdateUndone(read: Reader, t: Table, oldKey: seq<Column>, newTuple: seq<Column>,
                             oldRow: Row, newRow: Row)
    requires Fits(t, oldKey, oldRow) && Fits(t, newTuple, newRow) && Whole(newTuple, newRow)
    requires Readable(read, oldKey) && Readable(read, newTuple)
    ensures Exec(Plus(t, newRow), Update(Assignments(Printed(read, oldKey)), Where(Printed(read, newTuple))))
            == Some(Plus(t, oldRow))
            <==> UpdateReversible(read, t, oldKey, newTuple, oldRow, newRow)
  {
    hide Exec, Agrees, Distinct, Assigned, AlikeOutside, Exact, Readable, Printed, RowOf, Whole, Names, Assignments;
    var po := Printed(read, oldKey);
    FitsNameable(read, t, oldKey, oldRow);
    FitsNameable(read, t, newTuple, newRow);
    AgreesPrinted(read, oldKey, oldRow);
    PrintedWhole(read, newTuple, newRow);
    UpdateRestores(t, po, Printed(read, newTuple), oldRow, newRow, RowOf(Printed(read, newTuple)));
    AssignedBack(po, newRow, oldRow);
    SameOutside(oldKey, po, newRow, oldRow);
  }

  lemma UpdateRestores(t: Table, oldKey: seq<Column>, newTuple: seq<Column>, oldRow: Row, newRow: Row, found: Row)
    requires Nameable(oldKey, t) && Nameable(newTuple, t) && Whole(newTuple, found)
    requires oldRow.Keys == newRow.Keys == found.Keys == t.defaults.Keys
    ensures Exec(Plus(t, newRow), Update(Assignments(oldKey), Where(newTuple))) == Some(Plus(t, oldRow))
            <==> Restores(t.rows, oldRow, newRow, found, Assigned(found, Assignments(oldKey)))
  {
    hide Exec, Agrees, Distinct, Assigned, Rewrite, Whole, Restores;
    UpdateRuns(Plus(t, newRow), oldKey, newTuple);
    OnlyOneRewritten(t.rows + multiset{newRow}, oldKey, newTuple, found);
    RewrittenCounts(t.rows, Rewrite(Update(Assignments(oldKey), Where(newTuple)), t.rows + multiset{newRow}),
                    oldRow, newRow, found, Assigned(found, Assignments(oldKey)));
  }

  /** A whole record, as printed, is a whole record of some row, and of the same row just when it reads back. */
  lemma PrintedWhole(read: Reader, columns: seq<Column>, row: Row)
    requires Whole(columns, row) && Readable(read, columns)
    ensures var p := Printed(read, columns);
            Whole(p, RowOf(p)) && RowOf(p).Keys == row.Keys && (RowOf(p) == row <==> Exact(read, columns))
  {
    hide Exact, Readable, RowOf, Literal;
    var p := Printed(read, columns);
    RowOfWhole(p);
    WholeKeys(p, RowOf(p));
    WholeKeys(columns, row);
    WholeSelects(p, RowOf(p), row);
    AgreesPrinted(read, columns, row);
  }

  lemma WholeKeys(columns: seq<Column>, row: Row)
    requires Whole(columns, row)
    ensures row.Keys == set name | name in Names(columns)
  {
    forall name | name in Names(columns) ensures name in row {
      var i :| 0 <= i < |columns| && Names(columns)[i] == name;
      assert columns[i].name in row;
    }
  }

  lemma UpdateRuns(t: Table, oldKey: seq<Column>, newTuple: seq<Column>)
    requires Nameable(oldKey, t) && Nameable(newTuple, t)
    ensures var update := Update(Assignments(oldKey), Where(newTuple));
            var r := Exec(t, update);
            r.Some? && r.value.defaults == t.defaults && r.value.rows == Rewrite(update, t.rows)
  {
    hide Distinct, Rewrite;
    NamesKnown(newTuple, t);
    NamesKnown(oldKey, t);
  }

  lemma OnlyOneRewritten(rows: multiset<Row>, oldKey: seq<Column>, newTuple: seq<Column>, found: Row)
    requires Whole(newTuple, found) && forall r :: r in rows ==> r.Keys == found.Keys
    ensures var assignments := Assignments(oldKey);
            forall x :: Rewrite(Update(assignments, Where(newTuple)), rows)[x]
              == (if x == found then 0 else rows[x]) + (if x == Assigned(found, assignments) then rows[found] else 0)
  {
    hide Agrees, Distinct, Assigned, Selects, Rewrite;
    var assignments, where := Assignments(oldKey), Where(newTuple);
    forall r | r in rows ensures Selects(where, r) <==> r == found {
      WhereSelects(newTuple, r);
      WholeSelects(newTuple, found, r);
    }
    forall x ensures Rewrite(Update(assignments, where), rows)[x]
                     == (if x == found then 0 else rows[x])
                        + (if x == Assigned(found, assignments) then rows[found] else 0)
    {
      UpdatedRows(assignments, where, rows, found, x);
    }
  }

  lemma RewrittenCounts<T(!new)>(rows: multiset<T>, result: multiset<T>, oldRow: T, newRow: T,
                                 found: T, back: T)
    requires forall x :: result[x] == (if x == found then 0 else (rows + multiset{newRow})[x])
                                      + (if x == back then (rows + multiset{newRow})[found] else 0)
    ensures result == rows + multiset{oldRow} <==> Restores(rows, oldRow, newRow, found, back)
  {
    var target := rows + multiset{oldRow};
    assert result == target ==>
        result[newRow] == target[newRow] && result[oldRow] == target[oldRow]
        && result[found] == target[found] && result[back] == target[back];
    if Restores(rows, oldRow, newRow, found, back) {
      forall x ensures result[x] == target[x] {}
    }
  }

  /** What the coverage check is for: over a whole new tuple, a flashback is emitted exactly when the old key
      names every column too. */
  lemma UpdateReverses(change: Change, row: Row)
    requires OperationOf(change.operation).UpdateRow? && change.newTuple != [] && Whole(change.newTuple, row)
    ensures Reverse(change).Some?
            <==> change.oldKey != [] && forall name :: name in row ==> name in Names(change.oldKey)
  {
    if CoversColumns(change.oldKey, change.newTuple) {
      forall name | name in row ensures name in Names(change.oldKey) {
        var i :| 0 <= i < |change.newTuple| && Names(change.newTuple)[i] == name;
      }
    }
  }

  // ---- changes as they happened ----

  /** A logged line with the rows it was written for: the one before, of an update or a delete, and the one
      after, of an insert or an update. The line's records may leave columns of them out. */
  datatype Logged = Logged(body: Body, oldRow: Row, newRow: Row)

  type Store = map<TableName, Table>

  function Key(change: Change): TableName { TableName(change.schema, change.table) }

  /** The records are true ones. New tuples are written whole; old ones may lack columns, nulls for one. */
  predicate WellRecorded(t: Table, change: Change, oldRow: Row, newRow: Row) {
    match OperationOf(change.operation)
    case InsertRow => Fits(t, change.columns, newRow)
    case DeleteRow => Fits(t, change.columns, oldRow)
    case UpdateRow =>
      Fits(t, change.oldKey, oldRow) && Fits(t, change.newTuple, newRow) && Whole(change.newTuple, newRow)
    case OtherOperation => false
  }

  /** What the change did; an old row must have been there, and rows have the table's columns. */
  ghost function ApplyChange(t: Table, change: Change, oldRow: Row, newRow: Row): Option<Table> {
    match OperationOf(change.operation)
    case InsertRow => if newRow.Keys == t.defaults.Keys then Some(Plus(t, newRow)) else None
    case DeleteRow => if oldRow in t.rows then Some(Minus(t, oldRow)) else None
    case UpdateRow =>
      if oldRow in t.rows && newRow.Keys == t.defaults.Keys then Some(Plus(Minus(t, oldRow), newRow)) else None
    case OtherOperation => None
  }

  ghost function Minus(t: Table, row: Row): Table { TableData(t.defaults, t.rows - multiset{row}) }

  /** When a change is undone by its reverse. */
  ghost predicate Reversible(read: Reader, t: Table, change: Change, oldRow: Row, newRow: Row)
    requires WellRecorded(t, change, oldRow, newRow)
  {
    match OperationOf(change.operation)
    case InsertRow => Exact(read, change.columns) && forall r :: r in t.rows ==> !Agrees(change.columns, r)
    case DeleteRow => Exact(read, change.columns) && AlikeOutside(change.columns, t.defaults, oldRow)
    case UpdateRow => UpdateReversible(read, Minus(t, oldRow), change.oldKey, change.newTuple, oldRow, newRow)
  }

  lemma InsertedChangeUndone(read: Reader, t: Table, change: Change, oldRow: Row, newRow: Row)
    requires OperationOf(change.operation).InsertRow? && WellRecorded(t, change, oldRow, newRow)
    requires Reverse(change).Some? && ApplyChange(t, change, oldRow, newRow).Some?
    ensures Run(read, ApplyChange(t, change, oldRow, newRow).value, Reverse(change).value) == Some(t)
            <==> Reversible(read, t, change, oldRow, newRow)
  {
    hide Run, CoversColumns, OperationOf, Record, Names, Values, Assignments, Where, Exact, UpdateReversible, Whole;
    InsertUndone(read, t, change.columns, newRow);
  }

  lemma DeletedChangeUndone(read: Reader, t: Table, change: Change, oldRow: Row, newRow: Row)
    requires OperationOf(change.operation).DeleteRow? && WellRecorded(t, change, oldRow, newRow)
    requires Reverse(change).Some? && ApplyChange(t, change, oldRow, newRow).Some?
    ensures Run(read, ApplyChange(t, change, oldRow, newRow).value, Reverse(change).value) == Some(t)
            <==> Reversible(read, t, change, oldRow, newRow)
  {
    hide Run, CoversColumns, OperationOf, Record, Names, Values, Assignments, Where, Exact, UpdateReversible, Whole;
    DeleteUndone(read, Minus(t, oldRow), change.columns, oldRow);
    assert Plus(Minus(t, oldRow), oldRow) == t;
  }

  lemma UpdatedChangeUndone(read: Reader, t: Table, change: Change, oldRow: Row, newRow: Row)
    requires OperationOf(change.operation).UpdateRow? && WellRecorded(t, change, oldRow, newRow)
    requires Reverse(change).Some? && ApplyChange(t, change, oldRow, newRow).Some?
    ensures Run(read, ApplyChange(t, change, oldRow, newRow).value, Reverse(change).value) == Some(t)
            <==> Reversible(read, t, change, oldRow, newRow)
  {
    hide Run, Reverse, OperationOf, Record, Names, Assignments, Where, UpdateReversible, Whole;
    UpdateStatement(change);
    UpdateUndone(read, Minus(t, oldRow), change.oldKey, change.newTuple, oldRow, newRow);
    assert Plus(Minus(t, oldRow), oldRow) == t;
  }

  lemma UpdateStatement(change: Change)
    requires OperationOf(change.operation).UpdateRow? && Reverse(change).Some?
    ensures Reverse(change) == Some(Update(Assignments(change.oldKey), Where(change.newTuple)))
  {
    hide OperationOf, CoversColumns, Assignments, Where;
  }

  /** An applied change, its records true but perhaps partial, is undone by its emitted reverse exactly when it
      is reversible. */
  lemma ChangeUndone(read: Reader, t: Table, change: Change, oldRow: Row, newRow: Row)
    requires WellRecorded(t, change, oldRow, newRow) && Reverse(change).Some?
    requires ApplyChange(t, change, oldRow, newRow).Some?
    ensures Run(read, ApplyChange(t, change, oldRow, newRow).value, Reverse(change).value) == Some(t)
            <==> Reversible(read, t, change, oldRow, newRow)
  {
    hide Run, OperationOf, ApplyChange, Reversible, Fits, Whole;
    match OperationOf(change.operation)
    case InsertRow => InsertedChangeUndone(read, t, change, oldRow, newRow);
    case DeleteRow => DeletedChangeUndone(read, t, change, oldRow, newRow);
    case UpdateRow => UpdatedChangeUndone(read, t, change, oldRow, newRow);
  }

  /** In a table that holds no row twice, whole records that read back are enough. */
  lemma DistinctRowsReversible(read: Reader, t: Table, change: Change, oldRow: Row, newRow: Row)
    requires WellRecorded(t, change, oldRow, newRow) && ApplyChange(t, change, oldRow, newRow).Some?
    requires forall r :: ApplyChange(t, change, oldRow, newRow).value.rows[r] <= 1
    requires if OperationOf(change.operation).UpdateRow? then
               Exact(read, change.oldKey) && Exact(read, change.newTuple) && Whole(change.oldKey, oldRow)
             else
               Exact(read, change.columns)
               && Whole(change.columns, if OperationOf(change.operation).InsertRow? then newRow else oldRow)
    ensures Reversible(read, t, change, oldRow, newRow)
  {
    hide OperationOf, Exact, Distinct, Agrees;
    var after := ApplyChange(t, change, oldRow, newRow).value.rows;
    match OperationOf(change.operation)
    case InsertRow =>
      assert after[newRow] == t.rows[newRow] + 1;
      forall r | r in t.rows ensures !Agrees(change.columns, r) { WholeSelects(change.columns, newRow, r); }
    case DeleteRow =>
    case UpdateRow => assert after[newRow] == Minus(t, oldRow).rows[newRow] + 1;
  }

  // ---- a window of changes ----

  /** Transactions' ends change nothing. */
  ghost function Apply(s: Store, b: Logged): Option<Store> {
    if !b.body.RowChange? then Some(s)
    else if Key(b.body.change) !in s then None
    else
      match ApplyChange(s[Key(b.body.change)], b.body.change, b.oldRow, b.newRow)
      case None => None
      case Some(t) => Some(s[Key(b.body.change) := t])
  }

  function ReverseLogged(b: Logged): Option<Targeted> {
    if !b.body.RowChange? then None
    else
      match Reverse(b.body.change)
      case None => None
      case Some(statement) => Some(Targeted(Key(b.body.change), statement))
  }

  /** A flashback names the schema and table of the change it compensates. */
  lemma FlashbackTarget(b: Logged)
    ensures ReverseLogged(b).Some? ==>
              && b.body.RowChange? && Reverse(b.body.change) == Some(ReverseLogged(b).value.statement)
              && ReverseLogged(b).value.table.schema == b.body.change.schema
              && ReverseLogged(b).value.table.table == b.body.change.table
  {
    hide Reverse;
  }

  ghost function Undo(read: Reader, s: Store, step: Targeted): Option<Store> {
    if step.table !in s then None
    else
      match Run(read, s[step.table], step.statement)
      case None => None
      case Some(t) => Some(s[step.table := t])
  }

  ghost predicate Guard(read: Reader, s: Store, b: Logged) {
    b.body.RowChange? && Key(b.body.change) in s ==>
      var t, change := s[Key(b.body.change)], b.body.change;
      && Reverse(change).Some? && WellRecorded(t, change, b.oldRow, b.newRow)
      && Reversible(read, t, change, b.oldRow, b.newRow)
  }

  lemma AppliedAt(s: Store, b: Logged)
    requires Apply(s, b).Some? && b.body.RowChange?
    ensures var key, change := Key(b.body.change), b.body.change;
            && key in s && ApplyChange(s[key], change, b.oldRow, b.newRow).Some?
            && Apply(s, b) == Some(s[key := ApplyChange(s[key], change, b.oldRow, b.newRow).value])
  {
    hide ApplyChange;
  }

  lemma UndoneAt(read: Reader, s: Store, key: TableName, statement: Statement, t: Table)
    requires key in s && Run(read, t, statement) == Some(s[key])
    ensures Undo(read, s[key := t], Targeted(key, statement)) == Some(s)
  {
    hide Run;
    PutBack(s, key, t);
  }

  lemma PutBack<K, V>(m: map<K, V>, k: K, v: V)
    requires k in m
    ensures m[k := v][k := m[k]] == m
  {
  }

  lemma ChangeLogUndone(read: Reader, s: Store, b: Logged)
    requires Guard(read, s, b) && Apply(s, b).Some? && b.body.RowChange?
    ensures ReverseLogged(b).Some? && Undo(read, Apply(s, b).value, ReverseLogged(b).value) == Some(s)
  {
    hide Run, Apply, ApplyChange, Reverse, Reversible, WellRecorded, Undo;
    var key, change := Key(b.body.change), b.body.change;
    AppliedAt(s, b);
    ChangeUndone(read, s[key], change, b.oldRow, b.newRow);
    UndoneAt(read, s, key, Reverse(change).value, ApplyChange(s[key], change, b.oldRow, b.newRow).value);
  }

  lemma ControlUnchanged(s: Store, b: Logged)
    requires !b.body.RowChange?
    ensures Apply(s, b) == Some(s) && ReverseLogged(b).None?
  {
  }

  /** Window rollback for PostgreSQL: over any run of transactions' ends and row changes that are reversible where
      they happen, whole records or partial ones, replaying the plan's statements in reverse checkpoint order
      restores every table's rows. */
  lemma PgWindowRollback(read: Reader, s: Store, events: seq<Recovery.Event<Logged>>)
    requires Recovery.Guarded(s, events, Apply, (u: Store, b: Logged) => Guard(read, u, b))
    requires Recovery.ApplyAll(s, events, Apply).Some?
    ensures Recovery.Rollback(Recovery.ApplyAll(s, events, Apply).value, Recovery.Plan(events, ReverseLogged),
                              (u: Store, step: Targeted) => Undo(read, u, step))
            == Some(s)
  {
    hide Apply, Guard, ReverseLogged, Undo;
    var same := (a: Store, b: Store) => a == b;
    var guard := (u: Store, b: Logged) => Guard(read, u, b);
    var undo := (u: Store, step: Targeted) => Undo(read, u, step);
    forall s: Store, b: Logged, t: Store | guard(s, b) && Apply(s, b).Some? && same(Apply(s, b).value, t)
      ensures if ReverseLogged(b).None? then same(s, t)
              else undo(t, ReverseLogged(b).value).Some? && same(s, undo(t, ReverseLogged(b).value).value)
    {
      if b.body.RowChange? { ChangeLogUndone(read, s, b); } else { ControlUnchanged(s, b); }
    }
    var end := Recovery.ApplyAll(s, events, Apply).value;
    Recovery.WindowRollback(s, end, events, Apply, undo, ReverseLogged, guard, same);
  }

  /** For windows those conditions are not all needed. A row inserted twice into an empty table: the second
      insert is not undone by its own reverse, which deletes both rows, and yet the two are rolled back. */
  lemma DoubleInsertRolledBack(read: Reader, defaults: Row, columns: seq<Column>, row: Row)
    requires Fits(TableData(defaults, multiset{}), columns, row) && Exact(read, columns)
    ensures var none: Table := TableData(defaults, multiset{});
            var once := Plus(none, row);
            var delete := Delete(Where(columns));
            && Run(read, Plus(once, row), delete) == Some(none) && Run(read, Plus(once, row), delete) != Some(once)
            && Run(read, none, delete) == Some(none)
  {
    hide Agrees, Exact, Readable, Exec, ReadStatement, Accepted, Printed;
    var none: Table := TableData(defaults, multiset{});
    ReadDelete(read, columns);
    ExactPrinted(read, columns);
    FitsNameable(read, none, columns, row);
    DeletesAll(none, columns, row);
    DeletesAll(Plus(none, row), columns, row);
    DeletesAll(Plus(Plus(none, row), row), columns, row);
    assert row in Plus(none, row).rows;
  }

  /** A table that holds nothing but copies of a row is emptied by that row's delete. */
  lemma DeletesAll(t: Table, columns: seq<Column>, row: Row)
    requires Nameable(columns, t) && Agrees(columns, row)
    requires forall r :: r in t.rows ==> r == row
    ensures Exec(t, Delete(Where(columns))) == Some(TableData(t.defaults, multiset{}))
  {
    hide Agrees, Exec, Rewrite;
    DeleteRuns(t, columns);
    forall x ensures Rewrite(Delete(Where(columns)), t.rows)[x] == 0 {
      DeletedRows(Where(columns), t.rows, x);
      WhereSelects(columns, x);
    }
    assert Rewrite(Delete(Where(columns)), t.rows) == multiset{};
  }

  // ---- windows of inserts and deletes, exactly ----

  /** An insert recorded whole, or a delete that its own reverse undoes. */
  ghost predicate Plain(read: Reader, s: Store, b: Logged) {
    b.body.RowChange? && Key(b.body.change) in s ==>
      var t, change := s[Key(b.body.change)], b.body.change;
      && WellRecorded(t, change, b.oldRow, b.newRow) && !OperationOf(change.operation).UpdateRow?
      && Exact(read, change.columns)
      && if OperationOf(change.operation).InsertRow? then Whole(change.columns, b.newRow)
         else AlikeOutside(change.columns, t.defaults, b.oldRow)
  }

  /** A row of a table, its copies taken together. */
  type Kept = (TableName, Row)

  predicate Inserts(b: Logged) { b.body.RowChange? && OperationOf(b.body.change.operation).InsertRow? }

  /** The first insert of each row, `seen` ones aside, found no copy of it in its table. */
  ghost predicate FirstInserts(s: Store, events: seq<Recovery.Event<Logged>>, seen: set<Kept>)
    decreases |events|
  {
    events == [] ||
    var b := events[0].body;
    && Apply(s, b).Some?
    && if Inserts(b) then
         var row := (Key(b.body.change), b.newRow);
         && (row in seen || row.1 !in s[row.0].rows)
         && FirstInserts(Apply(s, b).value, events[1..], seen + {row})
       else FirstInserts(Apply(s, b).value, events[1..], seen)
  }

  /** The same tables with the same columns. */
  predicate SameShape(s: Store, r: Store) {
    r.Keys == s.Keys && forall k :: k in s ==> r[k].defaults == s[k].defaults
  }

  /** How many copies of the row the store holds. */
  ghost function Copies(s: Store, row: Kept): nat { if row.0 in s then s[row.0].rows[row.1] else 0 }

  /** The same rows too, except that copies of `seen` ones are not compared. */
  ghost predicate SameBut(seen: set<Kept>, s: Store, r: Store) {
    SameShape(s, r) && forall row :: row !in seen ==> Copies(r, row) == Copies(s, row)
  }

  /** The delete of a whole record that reads back takes all copies of its row and nothing else. */
  lemma CopiesErased(read: Reader, t: Table, columns: seq<Column>, row: Row)
    requires Fits(t, columns, row) && Whole(columns, row) && Exact(read, columns)
    ensures var r := Run(read, t, Delete(Where(columns)));
            && r.Some? && r.value.defaults == t.defaults
            && forall x :: r.value.rows[x] == if x == row then 0 else t.rows[x]
  {
    hide Agrees, Exact, Readable, Exec, ReadStatement, Accepted, Printed, Rewrite;
    ReadDelete(read, columns);
    ExactPrinted(read, columns);
    FitsNameable(read, t, columns, row);
    DeleteRuns(t, columns);
    forall x ensures Rewrite(Delete(Where(columns)), t.rows)[x] == if x == row then 0 else t.rows[x] {
      DeletedRows(Where(columns), t.rows, x);
      WhereSelects(columns, x);
      if x in t.rows { WholeSelects(columns, row, x); }
    }
  }

  lemma ReplacedShape(s: Store, key: TableName, a: Table, t: Store, u: Table)
    requires key in s && a.defaults == s[key].defaults && SameShape(s[key := a], t) && u.defaults == t[key].defaults
    ensures SameShape(s, t[key := u])
  {
  }

  lemma ErasedCopies(t: Store, row: Kept, u: Table, q: Kept)
    requires row.0 in t && forall x :: u.rows[x] == if x == row.1 then 0 else t[row.0].rows[x]
    ensures Copies(t[row.0 := u], q) == if q == row then 0 else Copies(t, q)
  {
  }

  lemma PlusCopies(s: Store, row: Kept, q: Kept)
    requires row.0 in s && row.1.Keys == s[row.0].defaults.Keys
    ensures Copies(s[row.0 := Plus(s[row.0], row.1)], q) == Copies(s, q) + if q == row then 1 else 0
  {
  }

  lemma MinusCopies(s: Store, row: Kept, q: Kept)
    requires row.0 in s && row.1 in s[row.0].rows
    ensures Copies(s, q) == Copies(s[row.0 := Minus(s[row.0], row.1)], q) + if q == row then 1 else 0
  {
  }

  lemma ShapeAt(s: Store, key: TableName, a: Table, t: Store)
    requires SameShape(s[key := a], t)
    ensures key in t && t[key].defaults == a.defaults
  {
    assert key in s[key := a];
  }

  /** Erasing a row's copies from one table restores the store before an insert of it, up to `seen` rows, just
      when the table had none, or the row is one of them. */
  lemma ErasedBut(s: Store, row: Kept, t: Store, u: Table, seen: set<Kept>)
    requires row.0 in s && row.1.Keys == s[row.0].defaults.Keys && SameShape(s[row.0 := Plus(s[row.0], row.1)], t)
    requires u.defaults == t[row.0].defaults
    requires forall x :: u.rows[x] == if x == row.1 then 0 else t[row.0].rows[x]
    ensures SameShape(s, t[row.0 := u])
    ensures SameBut(seen, s, t[row.0 := u])
            <==> && (row in seen || row.1 !in s[row.0].rows)
                 && SameBut(seen + {row}, s[row.0 := Plus(s[row.0], row.1)], t)
  {
    assert Copies(s, row) == 0 <==> row.1 !in s[row.0].rows;
    ReplacedShape(s, row.0, Plus(s[row.0], row.1), t, u);
    var next, r := s[row.0 := Plus(s[row.0], row.1)], t[row.0 := u];
    hide Copies, SameShape, SameBut;
    forall q: Kept ensures Copies(r, q) == if q == row then 0 else Copies(t, q) { ErasedCopies(t, row, u, q); }
    forall q: Kept ensures Copies(next, q) == Copies(s, q) + if q == row then 1 else 0 { PlusCopies(s, row, q); }
    ErasedCounts(s, next, t, r, row, seen);
  }

  lemma ErasedCounts(s: Store, next: Store, t: Store, r: Store, row: Kept, seen: set<Kept>)
    requires SameShape(s, r) && SameShape(next, t)
    requires forall q: Kept :: Copies(r, q) == if q == row then 0 else Copies(t, q)
    requires forall q: Kept :: Copies(next, q) == Copies(s, q) + if q == row then 1 else 0
    ensures SameBut(seen, s, r) <==> (row in seen || Copies(s, row) == 0) && SameBut(seen + {row}, next, t)
  {
    hide Copies, SameShape;
    assert SameBut(seen, s, r) && row !in seen ==> Copies(r, row) == Copies(s, row);
    if SameBut(seen, s, r) {
      forall q: Kept | q !in seen + {row} ensures Copies(t, q) == Copies(next, q) { assert q !in seen; }
    }
    if (row in seen || Copies(s, row) == 0) && SameBut(seen + {row}, next, t) {
      forall q: Kept | q !in seen ensures Copies(r, q) == Copies(s, q) {
        if q != row { assert q !in seen + {row}; }
      }
    }
  }

  /** Adding a row to one table restores the store before a delete of it just when the rest is restored. */
  lemma AddedBut(s: Store, row: Kept, t: Store, seen: set<Kept>)
    requires row.0 in s && row.1 in s[row.0].rows && SameShape(s[row.0 := Minus(s[row.0], row.1)], t)
    ensures row.0 in t && row.1.Keys == t[row.0].defaults.Keys && SameShape(s, t[row.0 := Plus(t[row.0], row.1)])
    ensures SameBut(seen, s, t[row.0 := Plus(t[row.0], row.1)])
            <==> SameBut(seen, s[row.0 := Minus(s[row.0], row.1)], t)
  {
    ShapeAt(s, row.0, Minus(s[row.0], row.1), t);
    var next, r := s[row.0 := Minus(s[row.0], row.1)], t[row.0 := Plus(t[row.0], row.1)];
    ReplacedShape(s, row.0, Minus(s[row.0], row.1), t, Plus(t[row.0], row.1));
    hide Copies, SameShape, SameBut, Minus, Plus;
    forall q: Kept ensures Copies(r, q) == Copies(t, q) + if q == row then 1 else 0 { PlusCopies(t, row, q); }
    forall q: Kept ensures Copies(s, q) == Copies(next, q) + if q == row then 1 else 0 { MinusCopies(s, row, q); }
    AddedCounts(s, next, t, r, row, seen);
  }

  lemma AddedCounts(s: Store, next: Store, t: Store, r: Store, row: Kept, seen: set<Kept>)
    requires SameShape(s, r) && SameShape(next, t)
    requires forall q: Kept :: Copies(r, q) == Copies(t, q) + if q == row then 1 else 0
    requires forall q: Kept :: Copies(s, q) == Copies(next, q) + if q == row then 1 else 0
    ensures SameBut(seen, s, r) <==> SameBut(seen, next, t)
  {
    hide Copies, SameShape;
    forall q: Kept ensures Copies(r, q) == Copies(s, q) <==> Copies(t, q) == Copies(next, q) {}
  }

  lemma InsertFacts(read: Reader, s: Store, b: Logged)
    requires Inserts(b) && Plain(read, s, b) && Apply(s, b).Some?
    ensures b.body.RowChange?
    ensures var key, columns := Key(b.body.change), b.body.change.columns;
            && key in s && Fits(s[key], columns, b.newRow) && Whole(columns, b.newRow) && Exact(read, columns)
            && Apply(s, b) == Some(s[key := Plus(s[key], b.newRow)])
            && ReverseLogged(b) == Some(Targeted(key, Delete(Where(columns))))
  {
    hide Exact, Record, Whole, Where, CoversColumns;
  }

  lemma DeleteFacts(read: Reader, s: Store, b: Logged)
    requires b.body.RowChange? && !Inserts(b) && Plain(read, s, b) && Apply(s, b).Some?
    ensures var key, columns := Key(b.body.change), b.body.change.columns;
            && key in s && Fits(s[key], columns, b.oldRow) && Exact(read, columns) && b.oldRow in s[key].rows
            && AlikeOutside(columns, s[key].defaults, b.oldRow)
            && Apply(s, b) == Some(s[key := Minus(s[key], b.oldRow)])
            && ReverseLogged(b) == Some(Targeted(key, Insert(Names(columns), Values(columns))))
  {
    hide Exact, Record, AlikeOutside, Names, Values, CoversColumns;
  }

  lemma InsertStep(read: Reader, s: Store, b: Logged, t: Store, seen: set<Kept>)
    requires Inserts(b) && Plain(read, s, b) && Apply(s, b).Some? && SameShape(Apply(s, b).value, t)
    ensures ReverseLogged(b).Some?
    ensures var r := Undo(read, t, ReverseLogged(b).value);
            var row := (Key(b.body.change), b.newRow);
            && row.0 in s && r.Some? && SameShape(s, r.value)
            && (SameBut(seen, s, r.value)
                <==> (row in seen || row.1 !in s[row.0].rows) && SameBut(seen + {row}, Apply(s, b).value, t))
  {
    hide Inserts, Plain, Apply, ReverseLogged, Run, Exact, Record, SameShape, SameBut, Whole, Where;
    InsertFacts(read, s, b);
    var change := b.body.change;
    var key := Key(change);
    ShapeAt(s, key, Plus(s[key], b.newRow), t);
    CopiesErased(read, t[key], change.columns, b.newRow);
    ErasedBut(s, (key, b.newRow), t, Run(read, t[key], Delete(Where(change.columns))).value, seen);
  }

  lemma DeleteStep(read: Reader, s: Store, b: Logged, t: Store, seen: set<Kept>)
    requires b.body.RowChange? && !Inserts(b) && Plain(read, s, b) && Apply(s, b).Some?
    requires SameShape(Apply(s, b).value, t)
    ensures ReverseLogged(b).Some?
    ensures var r := Undo(read, t, ReverseLogged(b).value);
            r.Some? && SameShape(s, r.value) && (SameBut(seen, s, r.value) <==> SameBut(seen, Apply(s, b).value, t))
  {
    hide Inserts, Plain, Apply, ReverseLogged, Run, Exact, Record, SameShape, SameBut, AlikeOutside, Names, Values;
    var change := b.body.change;
    var key := Key(change);
    DeleteFacts(read, s, b);
    ShapeAt(s, key, Minus(s[key], b.oldRow), t);
    DeleteUndone(read, t[key], change.columns, b.oldRow);
    AddedBut(s, (key, b.oldRow), t, seen);
  }

  lemma {:induction false} PlainWindow(read: Reader, s: Store, events: seq<Recovery.Event<Logged>>, seen: set<Kept>)
    requires Recovery.Guarded(s, events, Apply, (u: Store, b: Logged) => Plain(read, u, b))
    requires Recovery.ApplyAll(s, events, Apply).Some?
    ensures var r := Recovery.Rollback(Recovery.ApplyAll(s, events, Apply).value, Recovery.Plan(events, ReverseLogged),
                                       (u: Store, step: Targeted) => Undo(read, u, step));
            r.Some? && SameShape(s, r.value) && (SameBut(seen, s, r.value) <==> FirstInserts(s, events, seen))
    decreases |events|
  {
    hide Apply, Plain, Inserts, ReverseLogged, Undo, SameShape, SameBut;
    var undo := (u: Store, step: Targeted) => Undo(read, u, step);
    if events == [] {
      AlikeItself(s, seen);
    } else {
      var b := events[0].body;
      var next, end := Apply(s, b).value, Recovery.ApplyAll(s, events, Apply).value;
      var row := if b.body.RowChange? then (Key(b.body.change), b.newRow) else (TableName("", ""), map[]);
      PlainWindow(read, next, events[1..], if Inserts(b) then seen + {row} else seen);
      var t := Recovery.Rollback(end, Recovery.Plan(events[1..], ReverseLogged), undo).value;
      if !b.body.RowChange? {
        ControlUnchanged(s, b);
        ControlInsertsNothing(b);
      } else {
        if Inserts(b) { InsertStep(read, s, b, t, seen); } else { DeleteStep(read, s, b, t, seen); }
        assert Recovery.Plan(events, ReverseLogged)[1..] == Recovery.Plan(events[1..], ReverseLogged);
      }
    }
  }

  lemma AlikeItself(s: Store, seen: set<Kept>)
    ensures SameShape(s, s) && SameBut(seen, s, s)
  {
  }

  lemma ControlInsertsNothing(b: Logged)
    requires !b.body.RowChange?
    ensures !Inserts(b)
  {
  }

  /** When a window of inserts and deletes is rolled back, exactly: if and only if, for each row inserted in it,
      the first of its inserts found no copy in the table. Later copies do no harm. */
  lemma InsertsRolledBack(read: Reader, s: Store, events: seq<Recovery.Event<Logged>>)
    requires Recovery.Guarded(s, events, Apply, (u: Store, b: Logged) => Plain(read, u, b))
    requires Recovery.ApplyAll(s, events, Apply).Some?
    ensures Recovery.Rollback(Recovery.ApplyAll(s, events, Apply).value, Recovery.Plan(events, ReverseLogged),
                              (u: Store, step: Targeted) => Undo(read, u, step))
            == Some(s)
            <==> FirstInserts(s, events, {})
  {
    hide Apply, Plain, ReverseLogged, Undo, FirstInserts, SameBut;
    PlainWindow(read, s, events, {});
    var r := Recovery.Rollback(Recovery.ApplyAll(s, events, Apply).value, Recovery.Plan(events, ReverseLogged),
                               (u: Store, step: Targeted) => Undo(read, u, step)).value;
    AlikeItself(s, {});
    if SameBut({}, s, r) { SameStore(s, r); }
  }

  lemma SameStore(s: Store, r: Store)
    requires SameBut({}, s, r)
    ensures r == s
  {
    forall k | k in s ensures r[k] == s[k] {
      forall x ensures r[k].rows[x] == s[k].rows[x] { assert Copies(r, (k, x)) == Copies(s, (k, x)); }
      assert r[k].rows == s[k].rows;
    }
  }

  // ---- a stream ----

  /** Everything decoded from the lines, each line with the rows it was written for, as common events. */
  function LoggedAt(placed: seq<Placed<Entry>>, rows: nat -> (Row, Row)): (r: seq<Placed<Logged>>)
    ensures |r| == |placed| && forall i :: 0 <= i < |r| ==> r[i].position == placed[i].position
  {
    seq(|placed|, i requires 0 <= i < |placed| =>
      Placed(placed[i].position,
             Logged(placed[i].event.body, rows(placed[i].position).0, rows(placed[i].position).1)))
  }

  function StreamEvents(lines: seq<string>, rows: nat -> (Row, Row), source: Recovery.Source, kindOf: Logged -> string)
    : seq<Recovery.Event<Logged>>
  {
    LogEvents(source, DRIVER, kindOf, (b: Logged) => b, LoggedAt(EventsFrom(lines, 0, 0).placed, rows))
  }

  /** Rolling back a stream, end to end: the plan's statements for everything decoded from the lines, sorted
      into reverse checkpoint order by whoever stored them, restore every table. */
  lemma StreamRollback(lines: seq<string>, rows: nat -> (Row, Row), source: Recovery.Source, kindOf: Logged -> string,
                       read: Reader, s: Store, listed: seq<Recovery.Step<Targeted>>)
    requires |lines| < TWO_63
    requires var events := StreamEvents(lines, rows, source, kindOf);
             && Recovery.Guarded(s, events, Apply, (u: Store, b: Logged) => Guard(read, u, b))
             && Recovery.ApplyAll(s, events, Apply).Some?
             && Recovery.Falling(PlaceOf, listed)
             && multiset(listed) == multiset(Recovery.Plan(events, ReverseLogged))
    ensures var events := StreamEvents(lines, rows, source, kindOf);
            Recovery.Replay(Recovery.ApplyAll(s, events, Apply).value, listed,
                            (u: Store, step: Targeted) => Undo(read, u, step)) == Some(s)
  {
    hide EventsFrom, Apply, ReverseLogged, Recovery.Guarded, Recovery.Falling, Recovery.Ordered, Recovery.Rollback;
    var placed := EventsFrom(lines, 0, 0).placed;
    var events := StreamEvents(lines, rows, source, kindOf);
    PositionsRise(lines, 0, 0);
    RisingOrdered(source, DRIVER, kindOf, (b: Logged) => b, LoggedAt(placed, rows));
    PgWindowRollback(read, s, events);
    var end := Recovery.ApplyAll(s, events, Apply).value;
    Recovery.ReverseCheckpointOrder(end, events, listed, (u: Store, step: Targeted) => Undo(read, u, step),
                                    ReverseLogged, PlaceOf);
  }
}
