/** Flashback statements for logical changes, and what running them does to tables under SQL's three-valued
    logic (postgres/decode/events/types/event.go, postgres/decode/events/types/sql.go). */
module PgFlashback {
  import opened Bytes
  import opened Text
  import opened PgParser
  import opened PgStream

  // ---- statements ----

  datatype Condition = IsNull(name: string) | Equals(name: string, value: Value)
  datatype Assignment = Assignment(name: string, value: Value)

  /** The shape of the SQL that is emitted; its target is the change's own table. */
  datatype Statement =
    | Insert(names: seq<string>, values: seq<Value>)
    | Delete(where: seq<Condition>)
    | Update(assignments: seq<Assignment>, where: seq<Condition>)

  datatype Targeted = Targeted(table: TableName, statement: Statement)

  datatype Operation = InsertRow | UpdateRow | DeleteRow | OtherOperation

  function OperationOf(name: string): Operation {
    if name == "insert" then InsertRow else if name == UPDATE then UpdateRow
    else if name == "delete" then DeleteRow else OtherOperation
  }

  /** The words test_decoding writes, in any case, are the three operations, and any other word is none. */
  lemma OperationsInWords(c: Change, word: string)
    requires !Contains(Qualified(c), ": ") && ParseLine(RenderLine(c, word)).Ok?
    ensures var r := ParseLine(RenderLine(c, word)).value;
            && (InAnyCase(word, "insert") ==> r.RowChange? && OperationOf(r.change.operation) == InsertRow)
            && (InAnyCase(word, "update") ==> r.RowChange? && OperationOf(r.change.operation) == UpdateRow)
            && (InAnyCase(word, "delete") ==> r.RowChange? && OperationOf(r.change.operation) == DeleteRow)
  {
    hide ParseLine, RenderLine, InAnyCase, OperationOf;
    WordsOfOperations();
    if InAnyCase(word, "insert") { OperationWord(c, word, "insert"); }
    if InAnyCase(word, "update") { OperationWord(c, word, "update"); }
    if InAnyCase(word, "delete") { OperationWord(c, word, "delete"); }
  }

  lemma WordsOfOperations()
    ensures OperationOf("insert") == InsertRow && OperationOf("update") == UpdateRow
    ensures OperationOf("delete") == DeleteRow
  {
  }

  function Names(columns: seq<Column>): (r: seq<string>)
    ensures |r| == |columns|
  {
    seq(|columns|, i requires 0 <= i < |columns| => columns[i].name)
  }

  function Values(columns: seq<Column>): (r: seq<Value>)
    ensures |r| == |columns|
  {
    seq(|columns|, i requires 0 <= i < |columns| => columns[i].value)
  }

  function Assignments(columns: seq<Column>): (r: seq<Assignment>)
    ensures |r| == |columns|
  {
    seq(|columns|, i requires 0 <= i < |columns| => Assignment(columns[i].name, columns[i].value))
  }

  function ConditionOn(column: Column): Condition {
    if column.value.Null? then IsNull(column.name) else Equals(column.name, column.value)
  }

  function Where(columns: seq<Column>): (r: seq<Condition>)
    ensures |r| == |columns|
  {
    seq(|columns|, i requires 0 <= i < |columns| => ConditionOn(columns[i]))
  }

  /** Every column of the new tuple is named in the old key. */
  predicate CoversColumns(oldKey: seq<Column>, newTuple: seq<Column>) {
    forall i :: 0 <= i < |newTuple| ==> newTuple[i].name in Names(oldKey)
  }

  function Reverse(change: Change): Option<Statement> {
    match OperationOf(change.operation)
    case InsertRow => Some(Delete(Where(change.columns)))
    case UpdateRow =>
      if change.oldKey == [] || change.newTuple == [] || !CoversColumns(change.oldKey, change.newTuple) then None
      else Some(Update(Assignments(change.oldKey), Where(change.newTuple)))
    case DeleteRow => Some(Insert(Names(change.columns), Values(change.columns)))
    case OtherOperation => None
  }

  // ---- what the server reads ----

  type NotNull = v: Value | !v.Null? witness Bool(true)

  /** What the server takes the printed form of a `Plain` text for, a float64 or a quoted string; None when it
      refuses the literal. */
  type Reader = string -> Option<NotNull>

  /** The value a server reads from an emitted literal. */
  function Literal(read: Reader, v: Value): Option<Value> {
    if v.Plain? then (match read(v.text) case None => None case Some(w) => Some(w)) else Some(v)
  }

  /** The server accepts every literal, whatever it reads it as. */
  predicate Readable(read: Reader, columns: seq<Column>) {
    forall i :: 0 <= i < |columns| ==> Literal(read, columns[i].value).Some?
  }

  /** Every column reads back as the value it was decoded as. */
  predicate Exact(read: Reader, columns: seq<Column>) {
    forall i :: 0 <= i < |columns| ==> Literal(read, columns[i].value) == Some(columns[i].value)
  }

  /** The columns as the server reads them from a statement. */
  function Printed(read: Reader, columns: seq<Column>): (r: seq<Column>)
    requires Readable(read, columns)
    ensures |r| == |columns| && Names(r) == Names(columns)
  {
    seq(|columns|, i requires 0 <= i < |columns| => columns[i].(value := Literal(read, columns[i].value).value))
  }

  predicate ReadableConditions(read: Reader, where: seq<Condition>) {
    forall i :: 0 <= i < |where| && where[i].Equals? ==> Literal(read, where[i].value).Some?
  }

  /** The server accepts every literal of the statement. */
  predicate Accepted(read: Reader, statement: Statement) {
    match statement
    case Insert(_, values) => forall i :: 0 <= i < |values| ==> Literal(read, values[i]).Some?
    case Delete(where) => ReadableConditions(read, where)
    case Update(assignments, where) =>
      && (forall i :: 0 <= i < |assignments| ==> Literal(read, assignments[i].value).Some?)
      && ReadableConditions(read, where)
  }

  function ReadConditions(read: Reader, where: seq<Condition>): seq<Condition>
    requires ReadableConditions(read, where)
  {
    seq(|where|, i requires 0 <= i < |where| =>
      if where[i].IsNull? then where[i] else Equals(where[i].name, Literal(read, where[i].value).value))
  }

  /** A statement as the server reads it. */
  function ReadStatement(read: Reader, statement: Statement): Statement
    requires Accepted(read, statement)
  {
    match statement
    case Insert(names, values) =>
      Insert(names, seq(|values|, i requires 0 <= i < |values| => Literal(read, values[i]).value))
    case Delete(where) => Delete(ReadConditions(read, where))
    case Update(assignments, where) =>
      Update(seq(|assignments|, i requires 0 <= i < |assignments| =>
               Assignment(assignments[i].name, Literal(read, assignments[i].value).value)),
             ReadConditions(read, where))
  }

  lemma ReadWhere(read: Reader, columns: seq<Column>)
    ensures ReadableConditions(read, Where(columns)) <==> Readable(read, columns)
    ensures Readable(read, columns) ==> ReadConditions(read, Where(columns)) == Where(Printed(read, columns))
  {
    assert forall i :: 0 <= i < |columns| ==> Where(columns)[i] == ConditionOn(columns[i]);
    if ReadableConditions(read, Where(columns)) {
      forall i | 0 <= i < |columns| ensures Literal(read, columns[i].value).Some? {
        assert Where(columns)[i].Equals? ==> Literal(read, Where(columns)[i].value).Some?;
      }
    }
    if Readable(read, columns) {
      assert ReadConditions(read, Where(columns)) == Where(Printed(read, columns));
    }
  }

  lemma ReadDelete(read: Reader, columns: seq<Column>)
    ensures Accepted(read, Delete(Where(columns))) <==> Readable(read, columns)
    ensures Readable(read, columns) ==>
              ReadStatement(read, Delete(Where(columns))) == Delete(Where(Printed(read, columns)))
  {
    ReadWhere(read, columns);
  }

  lemma ReadInsert(read: Reader, columns: seq<Column>)
    ensures Accepted(read, Insert(Names(columns), Values(columns))) <==> Readable(read, columns)
    ensures Readable(read, columns) ==>
              var p := Printed(read, columns);
              ReadStatement(read, Insert(Names(columns), Values(columns))) == Insert(Names(p), Values(p))
  {
    var insert := Insert(Names(columns), Values(columns));
    assert forall i :: 0 <= i < |columns| ==> insert.values[i] == columns[i].value;
    if Accepted(read, insert) {
      forall i | 0 <= i < |columns| ensures Literal(read, columns[i].value).Some? {
        assert Literal(read, insert.values[i]).Some?;
      }
      assert ReadStatement(read, insert).values == Values(Printed(read, columns));
    }
  }

  lemma ReadUpdate(read: Reader, oldKey: seq<Column>, newTuple: seq<Column>)
    ensures Accepted(read, Update(Assignments(oldKey), Where(newTuple)))
            <==> Readable(read, oldKey) && Readable(read, newTuple)
    ensures Readable(read, oldKey) && Readable(read, newTuple) ==>
              ReadStatement(read, Update(Assignments(oldKey), Where(newTuple)))
              == Update(Assignments(Printed(read, oldKey)), Where(Printed(read, newTuple)))
  {
    var update := Update(Assignments(oldKey), Where(newTuple));
    ReadWhere(read, newTuple);
    assert forall i :: 0 <= i < |oldKey| ==> update.assignments[i].value == oldKey[i].value;
    if Accepted(read, update) {
      forall i | 0 <= i < |oldKey| ensures Literal(read, oldKey[i].value).Some? {
        assert Literal(read, update.assignments[i].value).Some?;
      }
      assert ReadStatement(read, update).assignments == Assignments(Printed(read, oldKey));
    }
  }

  lemma ExactPrinted(read: Reader, columns: seq<Column>)
    ensures Exact(read, columns) <==> Readable(read, columns) && Printed(read, columns) == columns
  {
    if Exact(read, columns) {
      assert forall i :: 0 <= i < |columns| ==> Literal(read, columns[i].value) == Some(columns[i].value);
      assert Readable(read, columns);
      assert forall i :: 0 <= i < |columns| ==> Printed(read, columns)[i] == columns[i];
    } else if Readable(read, columns) {
      var i :| 0 <= i < |columns| && Literal(read, columns[i].value) != Some(columns[i].value);
      assert Printed(read, columns)[i] != columns[i];
    }
  }

  // ---- the loops that build them ----

  method CoversColumnsLoop(oldKey: seq<Column>, newTuple: seq<Column>) returns (covered: bool)
    ensures covered <==> CoversColumns(oldKey, newTuple)
  {
    var columns: set<string> := {};
    for i := 0 to |oldKey|
      invariant forall name :: name in columns <==> exists k :: 0 <= k < i && oldKey[k].name == name
    {
      columns := columns + {oldKey[i].name};
    }
    forall name ensures name in columns <==> name in Names(oldKey) {
      if name in columns {
        var k :| 0 <= k < |oldKey| && oldKey[k].name == name;
        assert Names(oldKey)[k] == name;
      }
    }
    for i := 0 to |newTuple|
      invariant forall k :: 0 <= k < i ==> newTuple[k].name in Names(oldKey)
    {
      if newTuple[i].name !in columns { return false; }
    }
    return true;
  }

  method InsertLoop(columns: seq<Column>) returns (names: seq<string>, values: seq<Value>)
    ensures names == Names(columns) && values == Values(columns)
  {
    names, values := [], [];
    for i := 0 to |columns|
      invariant names == Names(columns)[..i] && values == Values(columns)[..i]
    {
      names, values := names + [columns[i].name], values + [columns[i].value];
    }
  }

  method UpdateLoop(oldKey: seq<Column>) returns (assignments: seq<Assignment>)
    ensures assignments == Assignments(oldKey)
  {
    assignments := [];
    for i := 0 to |oldKey|
      invariant assignments == Assignments(oldKey)[..i]
    {
      assignments := assignments + [Assignment(oldKey[i].name, oldKey[i].value)];
    }
  }

  method WhereLoop(columns: seq<Column>) returns (where: seq<Condition>)
    ensures where == Where(columns)
  {
    where := [];
    for i := 0 to |columns|
      invariant where == Where(columns)[..i]
    {
      if columns[i].value.Null? {
        where := where + [IsNull(columns[i].name)];
        continue;
      }
      where := where + [Equals(columns[i].name, columns[i].value)];
    }
  }

  /** Event.Reverse: the case analysis, with the loops that build each statement. */
  method BuildReverse(change: Change) returns (r: Option<Statement>)
    ensures r == Reverse(change)
  {
    match OperationOf(change.operation) {
      case InsertRow =>
        var where := WhereLoop(change.columns);
        return Some(Delete(where));
      case UpdateRow =>
        if change.oldKey == [] || change.newTuple == [] { return None; }
        var covered := CoversColumnsLoop(change.oldKey, change.newTuple);
        if !covered { return None; }
        var assignments := UpdateLoop(change.oldKey);
        var where := WhereLoop(change.newTuple);
        return Some(Update(assignments, where));
      case DeleteRow =>
        var names, values := InsertLoop(change.columns);
        return Some(Insert(names, values));
      case OtherOperation => return None;
    }
  }

  // ---- SQL over rows ----

  type Row = map<string, Value>

  datatype Truth = True | False | Unknown

  function And(a: Truth, b: Truth): Truth {
    if a.False? || b.False? then False else if a.Unknown? || b.Unknown? then Unknown else True
  }

  /** A comparison with null on either side is unknown. */
  function EvalCondition(c: Condition, row: Row): Truth
    requires c.name in row
  {
    var mine := row[c.name];
    match c
    case IsNull(_) => if mine.Null? then True else False
    case Equals(_, value) => if mine.Null? || value.Null? then Unknown else if mine == value then True else False
  }

  predicate KnownNames(where: seq<Condition>, row: Row) {
    forall i :: 0 <= i < |where| ==> where[i].name in row
  }

  function Eval(where: seq<Condition>, row: Row): Truth
    requires KnownNames(where, row)
  {
    if where == [] then True else And(EvalCondition(where[0], row), Eval(where[1..], row))
  }

  predicate Distinct(names: seq<string>) {
    forall i, j :: 0 <= i < j < |names| ==> names[i] != names[j]
  }

  function Assigned(row: Row, assignments: seq<Assignment>): Row
    decreases |assignments|
  {
    if assignments == [] then row
    else Assigned(row[assignments[0].name := assignments[0].value], assignments[1..])
  }

  /** A table's columns with their defaults, and its rows. */
  datatype TableData = TableData(defaults: Row, rows: multiset<Row>)

  type Table = t: TableData | forall r :: r in t.rows ==> r.Keys == t.defaults.Keys
    witness TableData(map[], multiset{})

  /** The rows a condition list picks out: those for which it is true, not false and not unknown. */
  predicate Selects(where: seq<Condition>, row: Row) { KnownNames(where, row) && Eval(where, row).True? }

  /** What a statement leaves in place of one row. */
  ghost function Effect(statement: Statement, row: Row): multiset<Row> {
    match statement
    case Insert(_, _) => multiset{row}
    case Delete(where) => if Selects(where, row) then multiset{} else multiset{row}
    case Update(assignments, where) =>
      if Selects(where, row) then multiset{Assigned(row, assignments)} else multiset{row}
  }

  ghost function Any(rows: multiset<Row>): (row: Row)
    requires rows != multiset{}
    ensures row in rows
  {
    var row :| row in rows;
    row
  }

  /** The rows a statement leaves, each replaced by its own effect. */
  ghost function Rewrite(statement: Statement, rows: multiset<Row>): multiset<Row>
    decreases |rows|
  {
    if rows == multiset{} then multiset{}
    else Effect(statement, Any(rows)) + Rewrite(statement, rows - multiset{Any(rows)})
  }

  /** A list of columns that a statement may write: some, each once, all of the table. */
  predicate Writable(names: seq<string>, defaults: Row) {
    && names != [] && Distinct(names)
    && forall i :: 0 <= i < |names| ==> names[i] in defaults
  }

  function Targets(assignments: seq<Assignment>): seq<string> {
    seq(|assignments|, i requires 0 <= i < |assignments| => assignments[i].name)
  }

  function Zip(names: seq<string>, values: seq<Value>): seq<Assignment>
    requires |names| == |values|
  {
    seq(|names|, i requires 0 <= i < |names| => Assignment(names[i], values[i]))
  }

  lemma {:induction false} AssignedKeys(row: Row, assignments: seq<Assignment>)
    requires forall i :: 0 <= i < |assignments| ==> assignments[i].name in row
    ensures Assigned(row, assignments).Keys == row.Keys
    decreases |assignments|
  {
    if assignments == [] {
    } else {
      var next := row[assignments[0].name := assignments[0].value];
      assert next.Keys == row.Keys;
      AssignedKeys(next, assignments[1..]);
    }
  }

  lemma EffectKeys(statement: Statement, row: Row)
    requires statement.Update? ==> forall i :: 0 <= i < |statement.assignments| ==> statement.assignments[i].name in row
    ensures forall r :: r in Effect(statement, row) ==> r.Keys == row.Keys
  {
    if statement.Update? { AssignedKeys(row, statement.assignments); }
  }

  lemma {:induction false} RewriteKeys(statement: Statement, rows: multiset<Row>, keys: set<string>)
    requires forall r :: r in rows ==> r.Keys == keys
    requires statement.Update? ==>
               forall i :: 0 <= i < |statement.assignments| ==> statement.assignments[i].name in keys
    ensures forall r :: r in Rewrite(statement, rows) ==> r.Keys == keys
    decreases |rows|
  {
    hide Effect, Eval, KnownNames, Assigned;
    if rows == multiset{} {
    } else {
      EffectKeys(statement, Any(rows));
      RewriteKeys(statement, rows - multiset{Any(rows)}, keys);
    }
  }

  /** Running a statement; None when the server refuses it: no condition, an unknown or a repeated column. */
  ghost function Exec(t: Table, statement: Statement): Option<Table> {
    match statement
    case Insert(names, values) =>
      if !Writable(names, t.defaults) || |names| != |values| then None
      else
        AssignedKeys(t.defaults, Zip(names, values));
        Some(TableData(t.defaults, t.rows + multiset{Assigned(t.defaults, Zip(names, values))}))
    case Delete(where) =>
      if where == [] || !KnownNames(where, t.defaults) then None
      else
        RewriteKeys(statement, t.rows, t.defaults.Keys);
        Some(TableData(t.defaults, Rewrite(statement, t.rows)))
    case Update(assignments, where) =>
      if where == [] || !KnownNames(where, t.defaults) || !Writable(Targets(assignments), t.defaults) then None
      else
        assert forall i :: 0 <= i < |assignments| ==> Targets(assignments)[i] == assignments[i].name;
        RewriteKeys(statement, t.rows, t.defaults.Keys);
        Some(TableData(t.defaults, Rewrite(statement, t.rows)))
  }

  /** Sending a statement: the server reads its literals and runs it, or refuses it. */
  ghost function Run(read: Reader, t: Table, statement: Statement): Option<Table> {
    if Accepted(read, statement) then Exec(t, ReadStatement(read, statement)) else None
  }

  // ---- which rows a flashback touches ----

  /** The columns are a true record of the row, as far as they go. */
  predicate Agrees(columns: seq<Column>, row: Row) {
    forall i :: 0 <= i < |columns| ==> columns[i].name in row && row[columns[i].name] == columns[i].value
  }

  /** A record of the row that names no column twice. */
  predicate Record(columns: seq<Column>, row: Row) { Distinct(Names(columns)) && Agrees(columns, row) }

  /** A record that leaves no column of the row out. */
  predicate Whole(columns: seq<Column>, row: Row) {
    Record(columns, row) && forall name :: name in row ==> name in Names(columns)
  }

  /** The conditions built from a record select exactly the rows it agrees with, nulls included. */
  lemma {:induction false} WhereSelects(columns: seq<Column>, row: Row)
    ensures Selects(Where(columns), row) <==> Agrees(columns, row)
    decreases |columns|
  {
    var where := Where(columns);
    if columns == [] {
    } else {
      assert where[1..] == Where(columns[1..]);
      WhereSelects(columns[1..], row);
      var first := columns[0];
      assert where[0] == ConditionOn(first);
      if first.name in row {
        assert EvalCondition(where[0], row).True? <==> row[first.name] == first.value;
      }
      SplitKnown(where, row);
      SplitAgrees(columns, row);
    }
  }

  lemma SplitKnown(where: seq<Condition>, row: Row)
    requires where != []
    ensures KnownNames(where, row) <==> where[0].name in row && KnownNames(where[1..], row)
  {
    if where[0].name in row && KnownNames(where[1..], row) {
      forall i | 0 <= i < |where| ensures where[i].name in row {
        if i > 0 { assert where[i] == where[1..][i - 1]; }
      }
    }
  }

  lemma SplitAgrees(columns: seq<Column>, row: Row)
    requires columns != []
    ensures Agrees(columns, row)
            <==> columns[0].name in row && row[columns[0].name] == columns[0].value && Agrees(columns[1..], row)
  {
    if columns[0].name in row && row[columns[0].name] == columns[0].value && Agrees(columns[1..], row) {
      forall i | 0 <= i < |columns| ensures columns[i].name in row && row[columns[i].name] == columns[i].value {
        if i > 0 { assert columns[i] == columns[1..][i - 1]; }
      }
    }
  }

  /** Without the separate branch for null, a record holding a null would select no row at all. */
  lemma {:induction false} EqualsNullSelectsNothing(where: seq<Condition>, i: nat, row: Row)
    requires i < |where| && where[i] == Equals(where[i].name, Null)
    ensures !Selects(where, row)
    decreases i
  {
    if KnownNames(where, row) {
      SplitKnown(where, row);
      if i > 0 { EqualsNullSelectsNothing(where[1..], i - 1, row); }
    }
  }

  /** A whole record agrees with its own row only. */
  lemma WholeSelects(columns: seq<Column>, row: Row, other: Row)
    requires Whole(columns, row) && other.Keys == row.Keys
    ensures Agrees(columns, other) <==> other == row
  {
    if Agrees(columns, other) {
      forall name | name in row ensures other[name] == row[name] {
        var i :| 0 <= i < |columns| && Names(columns)[i] == name;
      }
    }
  }

  /** One row's share of a rewritten table. */
  lemma RewriteStep(statement: Statement, rows: multiset<Row>, x: Row)
    requires rows != multiset{}
    ensures var rest := rows - multiset{Any(rows)};
            && |rest| < |rows|
            && (forall y :: rows[y] == rest[y] + (if y == Any(rows) then 1 else 0))
            && Rewrite(statement, rows)[x] == Effect(statement, Any(rows))[x] + Rewrite(statement, rest)[x]
  {
    hide Effect;
  }

  lemma {:induction false} DeletedRows(where: seq<Condition>, rows: multiset<Row>, x: Row)
    ensures Rewrite(Delete(where), rows)[x] == if Selects(where, x) then 0 else rows[x]
    decreases |rows|
  {
    hide Selects, Rewrite;
    if rows != multiset{} {
      RewriteStep(Delete(where), rows, x);
      DeletedRows(where, rows - multiset{Any(rows)}, x);
    } else {
      NothingRewritten(Delete(where));
    }
  }

  lemma NothingRewritten(statement: Statement)
    ensures Rewrite(statement, multiset{}) == multiset{}
  {
  }

  lemma UpdatedRow(assignments: seq<Assignment>, where: seq<Condition>, row: Row, only: Row, x: Row)
    requires Selects(where, row) <==> row == only
    ensures Effect(Update(assignments, where), row)[x]
            == (if x == row && row != only then 1 else 0)
               + (if x == Assigned(only, assignments) && row == only then 1 else 0)
  {
  }

  lemma {:induction false} UpdatedRows(assignments: seq<Assignment>, where: seq<Condition>,
                                       rows: multiset<Row>, only: Row, x: Row)
    requires forall r :: r in rows ==> (Selects(where, r) <==> r == only)
    ensures Rewrite(Update(assignments, where), rows)[x]
            == (if x == only then 0 else rows[x]) + (if x == Assigned(only, assignments) then rows[only] else 0)
    decreases |rows|
  {
    hide Selects, Assigned, Effect, Rewrite;
    if rows != multiset{} {
      RewriteStep(Update(assignments, where), rows, x);
      UpdatedRow(assignments, where, Any(rows), only, x);
      UpdatedRows(assignments, where, rows - multiset{Any(rows)}, only, x);
    } else {
      NothingRewritten(Update(assignments, where));
    }
  }

  /** Assigning a record to a row gives the recorded values and leaves the other columns. */
  lemma {:induction false} AssignedRecord(columns: seq<Column>, row: Row, name: string)
    requires Distinct(Names(columns)) && name in row
    ensures name !in Names(columns) ==> name in Assigned(row, Assignments(columns))
                                        && Assigned(row, Assignments(columns))[name] == row[name]
    ensures forall i :: 0 <= i < |columns| && columns[i].name == name ==>
              && name in Assigned(row, Assignments(columns))
              && Assigned(row, Assignments(columns))[name] == columns[i].value
    decreases |columns|
  {
    if columns == [] {
    } else {
      var first, rest := columns[0], columns[1..];
      var next := row[first.name := first.value];
      assert Assignments(columns)[1..] == Assignments(rest) && Names(columns)[1..] == Names(rest);
      assert Assignments(columns)[0] == Assignment(first.name, first.value);
      assert Names(columns) == [first.name] + Names(rest);
      AssignedRecord(rest, next, name);
      forall i | 0 <= i < |columns| && columns[i].name == name
        ensures Assigned(next, Assignments(rest))[name] == columns[i].value
      {
        if i > 0 {
          assert columns[i] == rest[i - 1];
        } else {
          assert forall k :: 0 <= k < |rest| ==> Names(rest)[k] == Names(columns)[k + 1] && Names(columns)[0] == name;
          assert name !in Names(rest);
        }
      }
    }
  }

  /** Two rows agree on every column that the record leaves out. */
  predicate AlikeOutside(columns: seq<Column>, a: Row, b: Row)
    requires a.Keys == b.Keys
  {
    forall name :: name in b && name !in Names(columns) ==> a[name] == b[name]
  }

  /** Assigning columns to a row gives another exactly when they agree with it and leave out only what the two
      have in common. */
  lemma AssignedBack(columns: seq<Column>, from: Row, to: Row)
    requires Distinct(Names(columns)) && from.Keys == to.Keys
    requires forall i :: 0 <= i < |columns| ==> columns[i].name in to
    ensures Assigned(from, Assignments(columns)) == to <==> Agrees(columns, to) && AlikeOutside(columns, from, to)
  {
    var back := Assigned(from, Assignments(columns));
    assert forall i :: 0 <= i < |columns| ==> Assignments(columns)[i].name == columns[i].name;
    AssignedKeys(from, Assignments(columns));
    forall name | name in to ensures name !in Names(columns) ==> back[name] == from[name] {
      AssignedRecord(columns, from, name);
    }
    forall i | 0 <= i < |columns| ensures back[columns[i].name] == columns[i].value {
      AssignedRecord(columns, from, columns[i].name);
    }
    if Agrees(columns, to) && AlikeOutside(columns, from, to) {
      forall name | name in to ensures back[name] == to[name] {
        if name in Names(columns) {
          var i :| 0 <= i < |columns| && Names(columns)[i] == name;
          assert columns[i].name == name;
        }
      }
    }
  }

  /** The row that a record describes by itself. */
  function RowOf(columns: seq<Column>): Row { Assigned(map[], Assignments(columns)) }

  lemma {:induction false} RowOfKeys(row: Row, assignments: seq<Assignment>)
    ensures Assigned(row, assignments).Keys == row.Keys + set i | 0 <= i < |assignments| :: assignments[i].name
    decreases |assignments|
  {
    if assignments == [] {
    } else {
      var next := row[assignments[0].name := assignments[0].value];
      RowOfKeys(next, assignments[1..]);
      var all := set i | 0 <= i < |assignments| :: assignments[i].name;
      var rest := set i | 0 <= i < |assignments[1..]| :: assignments[1..][i].name;
      assert all == {assignments[0].name} + rest by {
        forall name | name in all ensures name in {assignments[0].name} + rest {
          var i :| 0 <= i < |assignments| && assignments[i].name == name;
          if i > 0 { assert assignments[1..][i - 1].name == name; }
        }
        forall name | name in rest ensures name in all {
          var i :| 0 <= i < |assignments[1..]| && assignments[1..][i].name == name;
          assert assignments[i + 1].name == name;
        }
      }
    }
  }

  /** A record that repeats no column is a whole one of the row it describes. */
  lemma RowOfWhole(columns: seq<Column>)
    requires Distinct(Names(columns))
    ensures Whole(columns, RowOf(columns))
  {
    var row, a := RowOf(columns), Assignments(columns);
    RowOfKeys(map[], a);
    forall name | name in row ensures name in Names(columns) {
      var i :| 0 <= i < |a| && a[i].name == name;
      assert Names(columns)[i] == name;
    }
    forall i | 0 <= i < |columns| ensures columns[i].name in row && row[columns[i].name] == columns[i].value {
      RecordedAt(map[], columns, i);
    }
  }

  lemma {:induction false} RecordedAt(row: Row, columns: seq<Column>, i: nat)
    requires Distinct(Names(columns)) && i < |columns|
    ensures var r := Assigned(row, Assignments(columns));
            columns[i].name in r && r[columns[i].name] == columns[i].value
    decreases |columns|
  {
    var first, rest := columns[0], columns[1..];
    var next := row[first.name := first.value];
    assert Assignments(columns)[1..] == Assignments(rest) && Names(columns)[1..] == Names(rest);
    assert Assignments(columns)[0] == Assignment(first.name, first.value);
    if i > 0 {
      RecordedAt(next, rest, i - 1);
    } else {
      assert forall k :: 0 <= k < |rest| ==> Names(rest)[k] == Names(columns)[k + 1] && Names(columns)[0] == first.name;
      AssignedRecord(rest, next, first.name);
    }
  }
}
