/**
 * An in-memory stand-in for the parts of SQLite the expense tracker relies on:
 * dynamically typed cell values, tables whose rows carry an INTEGER PRIMARY KEY
 * (an alias of SQLite's rowid), and the effect on one table of a plain INSERT,
 * SELECT ... WHERE, DELETE ... WHERE and UPDATE ... WHERE statement.
 *
 * A table is the sequence of its rows in rowid order, which is the order in
 * which `SELECT *` without `ORDER BY` hands them back for a rowid table.
 */
module Sqlite {

  datatype Option<T> = None | Some(value: T)

  /** A cell: one of SQLite's five storage classes. */
  datatype Value = Null | Integer(i: int) | Real(r: real) | Text(s: string) | Blob(bytes: seq<bv8>)

  /**
   * The exceptions the persistence code can raise: sqlite3's OperationalError
   * ("no such table"), and Python's TypeError and AttributeError.
   */
  datatype Error = OperationalError | TypeError | AttributeError

  datatype Result<T> = Ok(value: T) | Err(error: Error)

  /** The outcome of a call that returns None when it does not raise. */
  datatype Outcome = Pass | Fail(error: Error)

  /**
   * `a = b` in a WHERE clause. A NULL on either side makes the comparison NULL,
   * which selects no row.
   */
  predicate SqlEquals(a: Value, b: Value)
    ensures SqlEquals(a, b) ==> a != Null && b != Null
    ensures a != Null ==> (SqlEquals(a, b) <==> a == b)
  {
    a != Null && a == b
  }

  /** A row: its rowid (the INTEGER PRIMARY KEY column) and its other columns. */
  datatype Row<C> = Row(rowid: int, cols: C)

  function Rowids<C(==, !new)>(rows: seq<Row<C>>): set<int> {
    set r | r in rows :: r.rowid
  }

  /** Rows are kept in strictly increasing rowid order, so the key is unique. */
  predicate RowidsAscending<C(==, !new)>(rows: seq<Row<C>>) {
    forall i, j :: 0 <= i < j < |rows| ==> rows[i].rowid < rows[j].rowid
  }

  function MaxRowid<C(==, !new)>(rows: seq<Row<C>>): (m: int)
    requires rows != []
    ensures forall r :: r in rows ==> r.rowid <= m
    ensures exists r :: r in rows && r.rowid == m
  {
    if |rows| == 1 then
      rows[0].rowid
    else
      var m := MaxRowid(rows[1..]);
      assert forall r :: r in rows ==> r == rows[0] || r in rows[1..];
      if rows[0].rowid > m then rows[0].rowid else m
  }

  /**
   * The rowid SQLite gives a row inserted without one: one more than the
   * largest rowid in the table, or 1 when the table is empty. It is never in use.
   */
  function NextRowid<C(==, !new)>(rows: seq<Row<C>>): (id: int)
    ensures forall r :: r in rows ==> r.rowid < id
    ensures id !in Rowids(rows)
    ensures rows != [] ==> exists r :: r in rows && r.rowid == id - 1
    ensures rows == [] ==> id == 1
  {
    if rows == [] then 1 else MaxRowid(rows) + 1
  }

  /** `INSERT INTO table (columns) VALUES (...)`: one new row, under a fresh rowid. */
  function InsertRow<C(==, !new)>(rows: seq<Row<C>>, cols: C): (r: seq<Row<C>>)
    ensures |r| == |rows| + 1 && r[..|rows|] == rows
    ensures r[|rows|].cols == cols
    ensures forall x :: x in rows ==> x.rowid < r[|rows|].rowid
    ensures RowidsAscending(rows) ==> RowidsAscending(r)
  {
    rows + [Row(NextRowid(rows), cols)]
  }

  /** `SELECT * FROM table WHERE where`: the rows that satisfy `where`, in table order. */
  function SelectWhere<C(==, !new)>(rows: seq<Row<C>>, where: Row<C> -> bool): (r: seq<Row<C>>)
    ensures forall x :: x in r <==> x in rows && where(x)
    ensures |r| <= |rows|
    ensures RowidsAscending(rows) ==> RowidsAscending(r)
  {
    if rows == [] then
      []
    else
      var rest := SelectWhere(rows[1..], where);
      assert forall x :: x in rows <==> x == rows[0] || x in rows[1..];
      if where(rows[0]) then
        assert RowidsAscending(rows) ==> forall x :: x in rest ==> rows[0].rowid < x.rowid by {
          if RowidsAscending(rows) {
            forall x | x in rest ensures rows[0].rowid < x.rowid {
              var k :| 0 <= k < |rows[1..]| && rows[1..][k] == x;
              assert rows[k + 1] == x;
            }
          }
        }
        [rows[0]] + rest
      else
        rest
  }

  /** The negation of a WHERE condition. */
  function Not<C>(where: Row<C> -> bool): Row<C> -> bool {
    r => !where(r)
  }

  /** `DELETE FROM table WHERE where`: the rows that do not satisfy `where`, in table order. */
  function DeleteWhere<C(==, !new)>(rows: seq<Row<C>>, where: Row<C> -> bool): (r: seq<Row<C>>)
    ensures forall x :: x in r ==> !where(x)
    ensures forall x :: x in rows && !where(x) ==> x in r
    ensures forall x :: x in r ==> x in rows
    ensures RowidsAscending(rows) ==> RowidsAscending(r)
  {
    SelectWhere(rows, Not(where))
  }

  /**
   * `UPDATE table SET columns WHERE where`: every row that satisfies `where`
   * takes the new columns and keeps its rowid; every other row is unchanged.
   */
  function UpdateWhere<C(==, !new)>(rows: seq<Row<C>>, where: Row<C> -> bool, cols: C): (r: seq<Row<C>>)
    ensures |r| == |rows|
    ensures forall i :: 0 <= i < |rows| ==> r[i].rowid == rows[i].rowid
    ensures forall i :: 0 <= i < |rows| && where(rows[i]) ==> r[i].cols == cols
    ensures forall i :: 0 <= i < |rows| && !where(rows[i]) ==> r[i] == rows[i]
    ensures RowidsAscending(rows) ==> RowidsAscending(r)
  {
    seq(|rows|, i requires 0 <= i < |rows| => if where(rows[i]) then Row(rows[i].rowid, cols) else rows[i])
  }

  /** Selecting twice with the same condition selects nothing more and nothing less. */
  lemma {:induction false} SelectWhereIdempotent<C(!new)>(rows: seq<Row<C>>, where: Row<C> -> bool)
    ensures SelectWhere(SelectWhere(rows, where), where) == SelectWhere(rows, where)
  {
    if rows != [] {
      SelectWhereIdempotent(rows[1..], where);
      var rest := SelectWhere(rows[1..], where);
      if where(rows[0]) {
        assert ([rows[0]] + rest)[1..] == rest;
      }
    }
  }

  /** When every row satisfies the condition, the selection is the whole table. */
  lemma {:induction false} SelectWhereAll<C(!new)>(rows: seq<Row<C>>, where: Row<C> -> bool)
    requires forall x :: x in rows ==> where(x)
    ensures SelectWhere(rows, where) == rows
  {
    if rows != [] {
      assert rows[0] in rows;
      assert forall x :: x in rows[1..] ==> x in rows;
      SelectWhereAll(rows[1..], where);
      assert [rows[0]] + rows[1..] == rows;
    }
  }

  /** Selecting from a table with one more row at the end. */
  lemma {:induction false} SelectWhereAppend<C(!new)>(rows: seq<Row<C>>, x: Row<C>, where: Row<C> -> bool)
    ensures SelectWhere(rows + [x], where) == SelectWhere(rows, where) + (if where(x) then [x] else [])
  {
    if rows == [] {
      assert SelectWhere([x], where) == (if where(x) then [x] else []) + SelectWhere([], where);
    } else {
      assert (rows + [x])[0] == rows[0];
      assert (rows + [x])[1..] == rows[1..] + [x];
      SelectWhereAppend(rows[1..], x, where);
    }
  }

  /** Deleting twice with the same condition changes nothing the second time. */
  lemma DeleteWhereIdempotent<C(!new)>(rows: seq<Row<C>>, where: Row<C> -> bool)
    ensures DeleteWhere(DeleteWhere(rows, where), where) == DeleteWhere(rows, where)
  {
    SelectWhereIdempotent(rows, Not(where));
  }

  /** A delete whose condition no row satisfies leaves the table as it was. */
  lemma DeleteWhereNoMatch<C(!new)>(rows: seq<Row<C>>, where: Row<C> -> bool)
    requires forall x :: x in rows ==> !where(x)
    ensures DeleteWhere(rows, where) == rows
  {
    SelectWhereAll(rows, Not(where));
  }

  /** An update whose condition no row satisfies leaves the table as it was. */
  lemma UpdateWhereNoMatch<C(!new)>(rows: seq<Row<C>>, where: Row<C> -> bool, cols: C)
    requires forall x :: x in rows ==> !where(x)
    ensures UpdateWhere(rows, where, cols) == rows
  {
    var r := UpdateWhere(rows, where, cols);
    forall i | 0 <= i < |rows| ensures r[i] == rows[i] {
      assert rows[i] in rows;
    }
  }
}
