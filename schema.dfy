/**
 * The expense tracker's database: the three tables `transactions`,
 * `attachments` and `filedata`, the file that holds them, and the effect on
 * them of each persistence operation, stated once here for both the
 * `Database` class (classes.py) and its free-function copy (functions.py).
 */
module Schema {
  import opened Sqlite

  /** `transactions (id INTEGER PRIMARY KEY, name TEXT, amount NUMBER, date TEXT, notes TEXT)` */
  datatype TransactionCols = TransactionCols(name: Value, amount: Value, date: Value, notes: Value)

  /** `attachments (id INTEGER PRIMARY KEY, transaction_id INTEGER, name TEXT, filepath TEXT)` */
  datatype AttachmentCols = AttachmentCols(transactionId: Value, name: Value, filepath: Value)

  /** `filedata (id INTEGER PRIMARY KEY, fileID INTEGER, data BLOB)` */
  datatype FileDataCols = FileDataCols(fileId: Value, data: Value)

  datatype Tables = Tables(
    transactions: seq<Row<TransactionCols>>,
    attachments: seq<Row<AttachmentCols>>,
    filedata: seq<Row<FileDataCols>>)

  const NoRows := Tables([], [], [])

  /** Every table keeps its rows in strictly increasing primary-key order. */
  ghost predicate WellKeyed(t: Tables) {
    RowidsAscending(t.transactions) && RowidsAscending(t.attachments) && RowidsAscending(t.filedata)
  }

  /**
   * The database file a path names. Its tables are absent until
   * `prepare_tables` creates them; a statement on an absent table raises
   * sqlite3's OperationalError.
   */
  class DatabaseFile {
    var tables: Option<Tables>

    ghost predicate Valid()
      reads this
    {
      tables.Some? ==> WellKeyed(tables.value)
    }

    /** A fresh, empty database file. */
    constructor ()
      ensures Valid() && tables == None
    {
      tables := None;
    }
  }

  /** `WHERE id = ?` on `transactions`. */
  function IdIs(key: Value): Row<TransactionCols> -> bool {
    (r: Row<TransactionCols>) => SqlEquals(Integer(r.rowid), key)
  }

  /** `WHERE transaction_id = ?` on `attachments`. */
  function OfTransaction(key: Value): Row<AttachmentCols> -> bool {
    (r: Row<AttachmentCols>) => SqlEquals(r.cols.transactionId, key)
  }

  /** `WHERE fileID = ?` on `filedata`. */
  function OfFile(key: Value): Row<FileDataCols> -> bool {
    (r: Row<FileDataCols>) => SqlEquals(r.cols.fileId, key)
  }

  /** `WHERE id = ?` selects a row exactly when the key is the integer equal to its id. */
  lemma IdIsMatches(key: Value, row: Row<TransactionCols>)
    ensures IdIs(key)(row) <==> key == Integer(row.rowid)
  {
  }

  /** `WHERE transaction_id = ?` selects nothing for a NULL key, otherwise the rows holding the key. */
  lemma OfTransactionMatches(key: Value, row: Row<AttachmentCols>)
    ensures key == Null ==> !OfTransaction(key)(row)
    ensures key != Null ==> (OfTransaction(key)(row) <==> row.cols.transactionId == key)
  {
  }

  /** `WHERE fileID = ?` selects nothing for a NULL key, otherwise the rows holding the key. */
  lemma OfFileMatches(key: Value, row: Row<FileDataCols>)
    ensures key == Null ==> !OfFile(key)(row)
    ensures key != Null ==> (OfFile(key)(row) <==> row.cols.fileId == key)
  {
  }

  /**
   * The three `CREATE TABLE IF NOT EXISTS` statements: a file without the
   * tables gets them empty, a file with them keeps every row.
   */
  function PrepareTablesEffect(file: Option<Tables>): (t: Tables)
    ensures file.Some? ==> t == file.value
    ensures file.None? ==> t.transactions == [] && t.attachments == [] && t.filedata == []
  {
    match file
    case None => NoRows
    case Some(t) => t
  }

  lemma PrepareTablesIdempotent(file: Option<Tables>)
    ensures PrepareTablesEffect(Some(PrepareTablesEffect(file))) == PrepareTablesEffect(file)
  {
  }

  /**
   * One `INSERT INTO attachments (transaction_id, name, filepath)` per element
   * of a transaction's attachment list, in list order. `fields` holds, per
   * element, its `name` and `filepath` attributes, or None where the element
   * has no such attribute: the loop raises AttributeError there, and the rows
   * inserted before it stay (the connection commits on the way out). The
   * boolean is false exactly when that happens.
   */
  function InsertAttachmentRows(
    rows: seq<Row<AttachmentCols>>, transactionId: Value, fields: seq<Option<(Value, Value)>>)
    : (r: (seq<Row<AttachmentCols>>, bool))
    decreases |fields|
  {
    if fields == [] then
      (rows, true)
    else
      match fields[0]
      case None => (rows, false)
      case Some((name, filepath)) =>
        InsertAttachmentRows(InsertRow(rows, AttachmentCols(transactionId, name, filepath)), transactionId, fields[1..])
  }

  /** The old rows stay in front, in order. */
  lemma {:induction false} InsertAttachmentRowsPrefix(
    rows: seq<Row<AttachmentCols>>, transactionId: Value, fields: seq<Option<(Value, Value)>>)
    ensures var r := InsertAttachmentRows(rows, transactionId, fields).0;
      |rows| <= |r| && r[..|rows|] == rows
    decreases |fields|
  {
    if fields != [] && fields[0].Some? {
      var next := InsertRow(rows, AttachmentCols(transactionId, fields[0].value.0, fields[0].value.1));
      InsertAttachmentRowsPrefix(next, transactionId, fields[1..]);
      var r := InsertAttachmentRows(next, transactionId, fields[1..]).0;
      assert r[..|rows|] == r[..|next|][..|rows|];
    }
  }

  /**
   * The old rows stay in front, in order, and every inserted row has an id
   * that was not in use before.
   */
  lemma {:induction false} InsertAttachmentRowsKeepsRows(
    rows: seq<Row<AttachmentCols>>, transactionId: Value, fields: seq<Option<(Value, Value)>>)
    ensures var r := InsertAttachmentRows(rows, transactionId, fields).0;
      && |rows| <= |r| && r[..|rows|] == rows
      && (forall k :: |rows| <= k < |r| ==> r[k].rowid !in Rowids(rows))
      && (RowidsAscending(rows) ==> RowidsAscending(r))
    decreases |fields|
  {
    if fields != [] && fields[0].Some? {
      var next := InsertRow(rows, AttachmentCols(transactionId, fields[0].value.0, fields[0].value.1));
      InsertAttachmentRowsKeepsRows(next, transactionId, fields[1..]);
      var r := InsertAttachmentRows(next, transactionId, fields[1..]).0;
      assert r[..|rows|] == r[..|next|][..|rows|];
      assert Rowids(rows) <= Rowids(next);
      forall k | |rows| <= k < |r| ensures r[k].rowid !in Rowids(rows) {
        if k == |rows| {
          assert r[k] == r[..|next|][k];
        }
      }
    }
  }

  /** How many elements at the front of the list have the attributes. */
  function LeadingSome(fields: seq<Option<(Value, Value)>>): (n: nat)
    ensures n <= |fields|
    ensures forall k :: 0 <= k < n ==> fields[k].Some?
    ensures n < |fields| ==> fields[n].None?
  {
    if fields == [] || fields[0].None? then 0 else 1 + LeadingSome(fields[1..])
  }

  /**
   * One new row per element up to the first element that lacks the
   * attributes, and success exactly when there is no such element.
   */
  lemma {:induction false} InsertAttachmentRowsCount(
    rows: seq<Row<AttachmentCols>>, transactionId: Value, fields: seq<Option<(Value, Value)>>)
    ensures var r := InsertAttachmentRows(rows, transactionId, fields);
      |r.0| == |rows| + LeadingSome(fields) && (r.1 <==> LeadingSome(fields) == |fields|)
    decreases |fields|
  {
    if fields != [] && fields[0].Some? {
      var next := InsertRow(rows, AttachmentCols(transactionId, fields[0].value.0, fields[0].value.1));
      InsertAttachmentRowsCount(next, transactionId, fields[1..]);
    }
  }

  /** A list that inserts anything starts with an element that has the attributes. */
  lemma InsertAttachmentRowsInserted(
    rows: seq<Row<AttachmentCols>>, transactionId: Value, fields: seq<Option<(Value, Value)>>)
    requires |rows| < |InsertAttachmentRows(rows, transactionId, fields).0|
    ensures fields != [] && fields[0].Some?
  {
  }

  /** One step of the insert loop: the first element's row, then the rest of the list. */
  lemma InsertAttachmentRowsUnfold(
    rows: seq<Row<AttachmentCols>>, transactionId: Value, fields: seq<Option<(Value, Value)>>)
    requires fields != [] && fields[0].Some?
    ensures InsertAttachmentRows(rows, transactionId, fields)
      == InsertAttachmentRows(InsertRow(rows, AttachmentCols(transactionId, fields[0].value.0, fields[0].value.1)),
                              transactionId, fields[1..])
  {
  }

  /** Past the first element, the new rows are those the rest of the list inserts. */
  lemma InsertAttachmentRowsShift(
    rows: seq<Row<AttachmentCols>>, transactionId: Value, fields: seq<Option<(Value, Value)>>, k: nat)
    requires fields != [] && fields[0].Some?
    requires var next := InsertRow(rows, AttachmentCols(transactionId, fields[0].value.0, fields[0].value.1));
      |next| + k < |InsertAttachmentRows(next, transactionId, fields[1..]).0|
    ensures var next := InsertRow(rows, AttachmentCols(transactionId, fields[0].value.0, fields[0].value.1));
      InsertAttachmentRows(rows, transactionId, fields).0[|rows| + 1 + k]
      == InsertAttachmentRows(next, transactionId, fields[1..]).0[|next| + k]
  {
    InsertAttachmentRowsUnfold(rows, transactionId, fields);
  }

  /**
   * The k-th new row carries the given transaction id and the name and
   * filepath of the k-th element of the list.
   */
  lemma {:induction false} InsertAttachmentRowsContents(
    rows: seq<Row<AttachmentCols>>, transactionId: Value, fields: seq<Option<(Value, Value)>>, k: nat)
    requires |rows| + k < |InsertAttachmentRows(rows, transactionId, fields).0|
    ensures k < |fields| && fields[k].Some?
    ensures InsertAttachmentRows(rows, transactionId, fields).0[|rows| + k].cols
      == AttachmentCols(transactionId, fields[k].value.0, fields[k].value.1)
    decreases |fields|
  {
    InsertAttachmentRowsInserted(rows, transactionId, fields);
    var next := InsertRow(rows, AttachmentCols(transactionId, fields[0].value.0, fields[0].value.1));
    var r := InsertAttachmentRows(next, transactionId, fields[1..]).0;
    assert r == InsertAttachmentRows(rows, transactionId, fields).0;
    if k == 0 {
      InsertAttachmentRowsPrefix(next, transactionId, fields[1..]);
      assert r[|rows|] == r[..|next|][|rows|] == next[|rows|];
    } else {
      InsertAttachmentRowsContents(next, transactionId, fields[1..], k - 1);
      InsertAttachmentRowsShift(rows, transactionId, fields, k - 1);
      assert fields[1..][k - 1] == fields[k];
    }
  }

  /**
   * `add_transaction`: one new `transactions` row with the transaction's four
   * fields under a fresh id (the transaction's own id is not used), then one
   * `attachments` row per attachment carrying that new id.
   */
  function AddTransactionEffect(t: Tables, cols: TransactionCols, fields: seq<Option<(Value, Value)>>)
    : (r: (Tables, bool))
    ensures |r.0.transactions| == |t.transactions| + 1
    ensures r.0.transactions[..|t.transactions|] == t.transactions
    ensures var added := r.0.transactions[|t.transactions|];
      added.cols == cols && added.rowid !in Rowids(t.transactions) &&
      (r.0.attachments, r.1) == InsertAttachmentRows(t.attachments, Integer(added.rowid), fields)
    ensures r.0.filedata == t.filedata
    ensures WellKeyed(t) ==> WellKeyed(r.0)
  {
    var transactionId := NextRowid(t.transactions);
    var transactions := InsertRow(t.transactions, cols);
    assert transactions[|t.transactions|].rowid == transactionId;
    var inserted := InsertAttachmentRows(t.attachments, Integer(transactionId), fields);
    InsertAttachmentRowsKeepsRows(t.attachments, Integer(transactionId), fields);
    (Tables(transactions, inserted.0, t.filedata), inserted.1)
  }

  /**
   * `delete_transaction`: the transaction row with that id and every
   * attachment row referring to it go; every other row stays.
   */
  function DeleteTransactionEffect(t: Tables, key: Value): (r: Tables)
    ensures forall x :: x in r.transactions <==> x in t.transactions && !SqlEquals(Integer(x.rowid), key)
    ensures forall x :: x in r.attachments <==> x in t.attachments && !SqlEquals(x.cols.transactionId, key)
    ensures r.filedata == t.filedata
    ensures WellKeyed(t) ==> WellKeyed(r)
  {
    Tables(DeleteWhere(t.transactions, IdIs(key)), DeleteWhere(t.attachments, OfTransaction(key)), t.filedata)
  }

  /** Deleting the same transaction a second time changes nothing. */
  lemma DeleteTransactionIdempotent(t: Tables, key: Value)
    ensures DeleteTransactionEffect(DeleteTransactionEffect(t, key), key) == DeleteTransactionEffect(t, key)
  {
    DeleteWhereIdempotent(t.transactions, IdIs(key));
    DeleteWhereIdempotent(t.attachments, OfTransaction(key));
  }

  /**
   * `modify_transaction`: the row whose id is the transaction's id takes the
   * four new fields; then one attachment row per attachment is inserted with
   * that id, whatever rows already exist and whether or not a row matched.
   */
  function ModifyTransactionEffect(t: Tables, key: Value, cols: TransactionCols, fields: seq<Option<(Value, Value)>>)
    : (r: (Tables, bool))
    ensures |r.0.transactions| == |t.transactions|
    ensures forall i :: 0 <= i < |t.transactions| ==>
      r.0.transactions[i] == if SqlEquals(Integer(t.transactions[i].rowid), key)
                             then Row(t.transactions[i].rowid, cols) else t.transactions[i]
    ensures (r.0.attachments, r.1) == InsertAttachmentRows(t.attachments, key, fields)
    ensures r.0.filedata == t.filedata
    ensures WellKeyed(t) ==> WellKeyed(r.0)
  {
    var inserted := InsertAttachmentRows(t.attachments, key, fields);
    InsertAttachmentRowsKeepsRows(t.attachments, key, fields);
    (Tables(UpdateWhere(t.transactions, IdIs(key), cols), inserted.0, t.filedata), inserted.1)
  }

  /** When no transaction has the id, the transactions table is left as it was. */
  lemma ModifyTransactionNoMatch(t: Tables, key: Value, cols: TransactionCols, fields: seq<Option<(Value, Value)>>)
    requires forall x :: x in t.transactions ==> !SqlEquals(Integer(x.rowid), key)
    ensures ModifyTransactionEffect(t, key, cols, fields).0.transactions == t.transactions
  {
    UpdateWhereNoMatch(t.transactions, IdIs(key), cols);
  }

  /**
   * Modifying a transaction twice with the same attachment list inserts the
   * attachment rows twice: nothing is removed or deduplicated.
   */
  lemma ModifyTransactionTwiceGrows(t: Tables, key: Value, cols: TransactionCols, fields: seq<Option<(Value, Value)>>)
    requires forall k :: 0 <= k < |fields| ==> fields[k].Some?
    ensures var once := ModifyTransactionEffect(t, key, cols, fields).0;
      |ModifyTransactionEffect(once, key, cols, fields).0.attachments| == |t.attachments| + 2 * |fields|
  {
    var once := ModifyTransactionEffect(t, key, cols, fields).0;
    InsertAttachmentRowsCount(t.attachments, key, fields);
    InsertAttachmentRowsCount(once.attachments, key, fields);
  }

  /** `add_attachment_to_db`: one new `filedata` row holding the file id and the data. */
  function StoreFileDataEffect(t: Tables, fileId: Value, data: Value): (r: Tables)
    ensures r.transactions == t.transactions && r.attachments == t.attachments
    ensures |r.filedata| == |t.filedata| + 1 && r.filedata[..|t.filedata|] == t.filedata
    ensures r.filedata[|t.filedata|].cols == FileDataCols(fileId, data)
    ensures WellKeyed(t) ==> WellKeyed(r)
  {
    t.(filedata := InsertRow(t.filedata, FileDataCols(fileId, data)))
  }

  /**
   * What `attachment.data` holds after `get_attachment_from_db` assigns it the
   * data of each selected row in turn: the last selected row's data, or what
   * it held before when no row was selected.
   */
  function FetchedData(filedata: seq<Row<FileDataCols>>, fileId: Value, current: Value): (data: Value)
  {
    var selected := SelectWhere(filedata, OfFile(fileId));
    if selected == [] then
      current
    else
      assert selected[|selected| - 1] in selected;
      selected[|selected| - 1].cols.data
  }

  /** The index of the last `filedata` row with that file id, or -1 when there is none. */
  function LastMatch(filedata: seq<Row<FileDataCols>>, fileId: Value): (i: int)
    ensures -1 <= i < |filedata|
    ensures i >= 0 ==> SqlEquals(filedata[i].cols.fileId, fileId)
    ensures forall j :: i < j < |filedata| ==> !SqlEquals(filedata[j].cols.fileId, fileId)
  {
    if filedata == [] then -1
    else if SqlEquals(filedata[|filedata| - 1].cols.fileId, fileId) then |filedata| - 1
    else LastMatch(filedata[..|filedata| - 1], fileId)
  }

  /** A last row with the file id is the one whose data is fetched. */
  lemma FetchedDataLastRow(filedata: seq<Row<FileDataCols>>, fileId: Value, current: Value)
    requires filedata != [] && SqlEquals(filedata[|filedata| - 1].cols.fileId, fileId)
    ensures FetchedData(filedata, fileId, current) == filedata[|filedata| - 1].cols.data
  {
    var n := |filedata| - 1;
    assert filedata == filedata[..n] + [filedata[n]];
    SelectWhereAppend(filedata[..n], filedata[n], OfFile(fileId));
  }

  /** A last row with another file id does not change what is fetched. */
  lemma FetchedDataSkipsLastRow(filedata: seq<Row<FileDataCols>>, fileId: Value, current: Value)
    requires filedata != [] && !SqlEquals(filedata[|filedata| - 1].cols.fileId, fileId)
    ensures FetchedData(filedata, fileId, current) == FetchedData(filedata[..|filedata| - 1], fileId, current)
  {
    var n := |filedata| - 1;
    assert filedata == filedata[..n] + [filedata[n]];
    SelectWhereAppend(filedata[..n], filedata[n], OfFile(fileId));
  }

  /**
   * The fetched data is that of the last row with the file id, and the data
   * is left unchanged when there is no such row.
   */
  lemma {:induction false} FetchedDataIsLastMatch(filedata: seq<Row<FileDataCols>>, fileId: Value, current: Value)
    ensures var i := LastMatch(filedata, fileId);
      FetchedData(filedata, fileId, current) == if i < 0 then current else filedata[i].cols.data
  {
    if filedata != [] {
      var n := |filedata| - 1;
      if SqlEquals(filedata[n].cols.fileId, fileId) {
        FetchedDataLastRow(filedata, fileId, current);
      } else {
        var front := filedata[..n];
        FetchedDataSkipsLastRow(filedata, fileId, current);
        FetchedDataIsLastMatch(front, fileId, current);
        var i := LastMatch(front, fileId);
        assert i >= 0 ==> front[i] == filedata[i];
      }
    }
  }

  /**
   * Round trip: data stored under a non-NULL file id is what a later fetch of
   * that file id reads back.
   */
  lemma StoreThenFetch(t: Tables, fileId: Value, data: Value, current: Value)
    requires fileId != Null
    ensures FetchedData(StoreFileDataEffect(t, fileId, data).filedata, fileId, current) == data
  {
    var stored := StoreFileDataEffect(t, fileId, data).filedata;
    var n := |t.filedata|;
    assert stored == t.filedata + [stored[n]];
    SelectWhereAppend(t.filedata, stored[n], OfFile(fileId));
  }

  /**
   * `get_next_transaction_id` / `get_next_attachment_id` as written: the
   * single row of `SELECT MAX(id)` is consumed by the first `fetchone()`, whose
   * value is NULL only for an empty table; otherwise the second `fetchone()`
   * returns None and subscripting it raises TypeError.
   */
  function NextIdAsWritten<C(==, !new)>(rows: seq<Row<C>>): (r: Result<int>)
    ensures r.Ok? <==> rows == []
    ensures r.Ok? ==> r.value == NextRowid(rows)
    ensures r.Err? ==> r.error == TypeError
  {
    if rows == [] then Ok(1) else Err(TypeError)
  }

  /** A table holding the single row with id 1: the intended next id is 2, the code raises instead. */
  lemma NextIdAsWrittenFailsOnOneRow(row: Row<TransactionCols>)
    requires row.rowid == 1
    ensures NextIdAsWritten([row]) == Err(TypeError)
    ensures NextRowid([row]) == 2
  {
    assert [row][0] == row;
  }
}
