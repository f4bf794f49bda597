/**
 * The data model and the `Database` class of the expense tracker (classes.py).
 *
 * `Database`'s static methods work on the database file named by the class
 * attribute `Database.db_path`; each is modelled as a method taking that file.
 * Each call opens one connection, runs its statements in order and commits on
 * the way out, even when a statement or the Python code between them raises,
 * so the statements run before an exception keep their effect.
 */
module Classes {
  import opened Sqlite
  import opened Schema

  /**
   * A file attached to a transaction. `name`, `filetype` and `filepath` are
   * set once by `__init__`; `data` is overwritten by `get_attachment_from_db`.
   * `fileID` is read by `add_attachment_to_db` and `get_attachment_from_db`
   * but set by no code: `fileId` is None while the attribute does not exist.
   */
  class Attachment {
    const id: Value
    const name: Value
    const filetype: Value
    const filepath: Value
    var data: Value
    var fileId: Option<Value>

    /** The object as `__init__` leaves it, given what `__init__` computed. */
    constructor (id: Value, name: Value, filetype: Value, filepath: Value)
      ensures this.id == id && this.name == name && this.filetype == filetype && this.filepath == filepath
      ensures data == Text("") && fileId == None
    {
      this.id := id;
      this.name := name;
      this.filetype := filetype;
      this.filepath := filepath;
      data := Text("");
      fileId := None;
    }
  }

  /**
   * An element of a transaction's attachment list: an `Attachment` object, or
   * the `(name, filepath)` tuple that functions.py builds for an attachment.
   */
  datatype AttachmentEntry = AttachmentObject(obj: Attachment) | AttachmentTuple(name: Value, filepath: Value)

  /** `attachment.name` and `attachment.filepath`; a tuple has no such attributes. */
  function NameAndFilepath(entry: AttachmentEntry): (attributes: Option<(Value, Value)>)
    ensures attributes.Some? <==> entry.AttachmentObject?
    ensures entry.AttachmentObject? ==> attributes.value == (entry.obj.name, entry.obj.filepath)
  {
    match entry
    case AttachmentObject(a) => Some((a.name, a.filepath))
    case AttachmentTuple(_, _) => None
  }

  function AttributeFields(entries: seq<AttachmentEntry>): (fields: seq<Option<(Value, Value)>>)
    ensures |fields| == |entries|
    ensures forall k :: 0 <= k < |entries| ==> fields[k] == NameAndFilepath(entries[k])
  {
    seq(|entries|, k requires 0 <= k < |entries| => NameAndFilepath(entries[k]))
  }

  /** A credit card transaction. */
  class Transaction {
    var id: Value
    var name: Value
    var amount: Value
    var date: Value
    var attachments: seq<AttachmentEntry>
    var notes: Value

    /** `Transaction()`: no id, empty texts, amount 0, no attachments. */
    constructor ()
      ensures id == Null && name == Text("") && amount == Integer(0) && date == Text("")
      ensures attachments == [] && notes == Text("")
    {
      id := Null;
      name := Text("");
      amount := Integer(0);
      date := Text("");
      attachments := [];
      notes := Text("");
    }

    /** The four values the persistence code writes to a `transactions` row. */
    function Cols(): TransactionCols
      reads this
    {
      TransactionCols(name, amount, date, notes)
    }

    /** This object holds the row's five columns and an empty attachment list. */
    predicate Mirrors(row: Row<TransactionCols>)
      reads this
    {
      id == Integer(row.rowid) && Cols() == row.cols && attachments == []
    }
  }

  /** `path.split(sep)`: the pieces between occurrences of `sep`, at least one. */
  function Split(path: string, sep: char): (pieces: seq<string>)
    ensures |pieces| >= 1
    ensures |pieces| == 1 <==> sep !in path
  {
    if path == [] then
      [""]
    else
      var rest := Split(path[1..], sep);
      assert sep in path <==> path[0] == sep || sep in path[1..];
      if path[0] == sep then [""] + rest else [[path[0]] + rest[0]] + rest[1..]
  }

  /** No piece of `path.split(sep)` contains `sep`. */
  lemma {:induction false} SplitPiecesWithoutSeparator(path: string, sep: char)
    ensures forall k :: 0 <= k < |Split(path, sep)| ==> sep !in Split(path, sep)[k]
  {
    if path != [] {
      var rest := Split(path[1..], sep);
      SplitPiecesWithoutSeparator(path[1..], sep);
      if path[0] == sep {
        assert Split(path, sep) == [""] + rest;
      } else {
        var pieces := [[path[0]] + rest[0]] + rest[1..];
        assert Split(path, sep) == pieces;
        assert forall k :: 1 <= k < |pieces| ==> pieces[k] == rest[k];
      }
    }
  }

  /** `sep.join(pieces)`: the pieces with one `sep` between neighbours. */
  function Join(pieces: seq<string>, sep: char): string
    requires |pieces| >= 1
  {
    if |pieces| == 1 then pieces[0] else pieces[0] + [sep] + Join(pieces[1..], sep)
  }

  /** Putting a character in front of the first piece puts it in front of the joined text. */
  lemma JoinPrependToFirst(c: char, pieces: seq<string>, sep: char)
    requires |pieces| >= 1
    ensures Join([[c] + pieces[0]] + pieces[1..], sep) == [c] + Join(pieces, sep)
  {
    var front := [[c] + pieces[0]] + pieces[1..];
    if |pieces| > 1 {
      assert front[1..] == pieces[1..];
    }
  }

  /** Round trip: joining the pieces of `path.split(sep)` with `sep` gives back `path`. */
  lemma {:induction false} SplitJoin(path: string, sep: char)
    ensures Join(Split(path, sep), sep) == path
  {
    if path != [] {
      var rest := Split(path[1..], sep);
      SplitJoin(path[1..], sep);
      if path[0] == sep {
        assert ([""] + rest)[1..] == rest;
      } else {
        JoinPrependToFirst(path[0], rest, sep);
      }
      assert path == [path[0]] + path[1..];
    }
  }

  /**
   * The part of `path` after the last `sep`: a suffix of `path` without `sep`
   * that is either all of `path` or preceded by a `sep`.
   */
  function LastSegment(path: string, sep: char): (r: string)
    ensures sep !in r
    ensures |r| <= |path| && r == path[|path| - |r|..]
    ensures |r| < |path| ==> path[|path| - |r| - 1] == sep
    ensures sep !in path ==> r == path
  {
    if path == [] then
      []
    else if path[|path| - 1] == sep then
      []
    else
      var front := path[..|path| - 1];
      var r := LastSegment(front, sep) + [path[|path| - 1]];
      assert path == front + [path[|path| - 1]];
      r
  }

  /** The conditions on LastSegment's result determine it. */
  lemma LastSegmentUnique(path: string, sep: char, r: string)
    requires sep !in r
    requires |r| <= |path| && r == path[|path| - |r|..]
    requires |r| < |path| ==> path[|path| - |r| - 1] == sep
    ensures r == LastSegment(path, sep)
  {
  }

  /** A first character that is a separator, or is followed by one, does not reach the last segment. */
  lemma LastSegmentOfTail(path: string, sep: char)
    requires path != [] && (path[0] == sep || sep in path[1..])
    ensures LastSegment(path, sep) == LastSegment(path[1..], sep)
  {
    var tail := path[1..];
    var l := LastSegment(tail, sep);
    assert path[|path| - |l|..] == tail[|tail| - |l|..];
    assert |l| < |tail| ==> path[|path| - |l| - 1] == tail[|tail| - |l| - 1];
    LastSegmentUnique(path, sep, l);
  }

  /** A path without the separator splits into itself alone. */
  lemma {:induction false} SplitWithoutSeparator(path: string, sep: char)
    requires sep !in path
    ensures Split(path, sep) == [path]
  {
    if path != [] {
      assert sep !in path[1..];
      SplitWithoutSeparator(path[1..], sep);
      assert [path[0]] + path[1..] == path;
    }
  }

  /** When the separator occurs at or after the first character, the last piece comes from the tail. */
  lemma SplitLastPieceOfTail(path: string, sep: char)
    requires path != [] && (path[0] == sep || sep in path[1..])
    ensures var pieces, rest := Split(path, sep), Split(path[1..], sep);
      pieces[|pieces| - 1] == rest[|rest| - 1]
  {
    if path[0] == sep {
      LastPieceAfterSeparator(path, sep);
    } else {
      LastPieceAfterOtherChar(path, sep);
    }
  }

  /** SplitLastPieceOfTail when the path starts with `sep`. */
  lemma LastPieceAfterSeparator(path: string, sep: char)
    requires path != [] && path[0] == sep
    ensures var pieces, rest := Split(path, sep), Split(path[1..], sep);
      pieces[|pieces| - 1] == rest[|rest| - 1]
  {
    SplitAtSeparator(path, sep);
    LastAfterPrepending("", Split(path[1..], sep));
  }

  /** SplitLastPieceOfTail when the path starts with another character and its tail holds `sep`. */
  lemma LastPieceAfterOtherChar(path: string, sep: char)
    requires path != [] && path[0] != sep && sep in path[1..]
    ensures var pieces, rest := Split(path, sep), Split(path[1..], sep);
      pieces[|pieces| - 1] == rest[|rest| - 1]
  {
    MoreThanOnePiece(path[1..], sep);
    SplitAtOtherChar(path, sep);
    LastAfterMergingFirst(path[0], Split(path[1..], sep));
  }

  /** A path holding `sep` splits into at least two pieces. */
  lemma MoreThanOnePiece(path: string, sep: char)
    requires sep in path
    ensures |Split(path, sep)| >= 2
  {
  }

  /** Prepending a piece leaves the last piece alone. */
  lemma LastAfterPrepending(first: string, rest: seq<string>)
    requires |rest| >= 1
    ensures var pieces := [first] + rest; pieces[|pieces| - 1] == rest[|rest| - 1]
  {
  }

  /** `path.split(sep)` for a path that starts with `sep`: an empty first piece. */
  lemma SplitAtSeparator(path: string, sep: char)
    requires path != [] && path[0] == sep
    ensures Split(path, sep) == [""] + Split(path[1..], sep)
  {
  }

  /** Merging a character into the first of two or more pieces leaves the last piece alone. */
  lemma LastAfterMergingFirst(c: char, rest: seq<string>)
    requires |rest| >= 2
    ensures var pieces := [[c] + rest[0]] + rest[1..]; pieces[|pieces| - 1] == rest[|rest| - 1]
  {
    var pieces := [[c] + rest[0]] + rest[1..];
    assert pieces[|pieces| - 1] == rest[1..][|rest| - 2];
  }

  /** `path.split(sep)` for a path that does not start with `sep`: the first character joins the first piece. */
  lemma SplitAtOtherChar(path: string, sep: char)
    requires path != [] && path[0] != sep
    ensures var rest := Split(path[1..], sep);
      Split(path, sep) == [[path[0]] + rest[0]] + rest[1..]
  {
  }

  /** The inductive step of LastSegmentIsLastPiece, for a path whose tail holds the last segment. */
  lemma LastPieceOfTail(path: string, sep: char)
    requires path != [] && (path[0] == sep || sep in path[1..])
    requires var rest := Split(path[1..], sep); rest[|rest| - 1] == LastSegment(path[1..], sep)
    ensures var pieces := Split(path, sep); pieces[|pieces| - 1] == LastSegment(path, sep)
  {
    SplitLastPieceOfTail(path, sep);
    LastSegmentOfTail(path, sep);
  }

  /** LastSegment is the last piece of Python's `split`. */
  lemma {:induction false} LastSegmentIsLastPiece(path: string, sep: char)
    ensures var pieces := Split(path, sep); pieces[|pieces| - 1] == LastSegment(path, sep)
  {
    if path != [] && (path[0] == sep || sep in path[1..]) {
      LastSegmentIsLastPiece(path[1..], sep);
      LastPieceOfTail(path, sep);
    } else {
      assert sep !in path by {
        if path != [] {
          assert path == [path[0]] + path[1..];
        }
      }
      SplitWithoutSeparator(path, sep);
    }
  }

  /** `Attachment.get_file_type`: the text after the last '.', as `split('.')[-1]` gives it. */
  function GetFileType(path: string): (r: string)
    ensures var pieces := Split(path, '.'); r == pieces[|pieces| - 1]
    ensures '.' !in r && |r| <= |path| && r == path[|path| - |r|..]
  {
    LastSegmentIsLastPiece(path, '.');
    LastSegment(path, '.')
  }

  /** `Attachment.get_file_name`: the text after the last '/', as `split('/')[-1]` gives it. */
  function GetFileName(path: string): (r: string)
    ensures var pieces := Split(path, '/'); r == pieces[|pieces| - 1]
    ensures '/' !in r && |r| <= |path| && r == path[|path| - |r|..]
  {
    LastSegmentIsLastPiece(path, '/');
    LastSegment(path, '/')
  }

  /** `Database.prepare_tables`: create the three tables if they are absent. */
  method PrepareTables(db: DatabaseFile)
    requires db.Valid()
    modifies db
    ensures db.Valid()
    ensures db.tables == Some(PrepareTablesEffect(old(db.tables)))
  {
    if db.tables.None? {
      db.tables := Some(NoRows);
    }
  }

  /** `Database.add_transaction`. */
  method AddTransaction(db: DatabaseFile, transaction: Transaction) returns (r: Outcome)
    requires db.Valid()
    modifies db
    ensures db.Valid()
    ensures old(db.tables).None? ==> r == Fail(OperationalError) && db.tables == None
    ensures old(db.tables).Some? ==>
      var effect := AddTransactionEffect(old(db.tables).value, transaction.Cols(), AttributeFields(transaction.attachments));
      db.tables == Some(effect.0) && r == if effect.1 then Pass else Fail(AttributeError)
  {
    if db.tables.None? {
      return Fail(OperationalError);
    }
    var before := db.tables.value;
    var cols := TransactionCols(transaction.name, transaction.amount, transaction.date, transaction.notes);
    db.tables := Some(before.(transactions := InsertRow(before.transactions, cols)));
    var transactionId := NextRowid(before.transactions);
    ghost var fields := AttributeFields(transaction.attachments);
    var i := 0;
    while i < |transaction.attachments|
      invariant 0 <= i <= |transaction.attachments|
      invariant db.tables.Some? && WellKeyed(db.tables.value)
      invariant db.tables.value.transactions == InsertRow(before.transactions, cols)
      invariant db.tables.value.filedata == before.filedata
      invariant InsertAttachmentRows(before.attachments, Integer(transactionId), fields)
        == InsertAttachmentRows(db.tables.value.attachments, Integer(transactionId), fields[i..])
    {
      var attributes := NameAndFilepath(transaction.attachments[i]);
      if attributes.None? {
        return Fail(AttributeError);
      }
      var t := db.tables.value;
      db.tables := Some(t.(attachments := InsertRow(t.attachments,
        AttachmentCols(Integer(transactionId), attributes.value.0, attributes.value.1))));
      i := i + 1;
    }
    return Pass;
  }

  /**
   * `Database.get_all_transactions`: one new Transaction per row, in table
   * order, with the row's columns and no attachments.
   */
  method GetAllTransactions(db: DatabaseFile) returns (r: Result<seq<Transaction>>)
    ensures db.tables.None? ==> r == Err(OperationalError)
    ensures db.tables.Some? ==> r.Ok? && |r.value| == |db.tables.value.transactions|
    ensures r.Ok? ==> forall i :: 0 <= i < |r.value| ==>
      fresh(r.value[i]) && r.value[i].Mirrors(db.tables.value.transactions[i])
    ensures r.Ok? ==> forall i, j :: 0 <= i < j < |r.value| ==> r.value[i] != r.value[j]
  {
    if db.tables.None? {
      return Err(OperationalError);
    }
    var rows := db.tables.value.transactions;
    var transactions: seq<Transaction> := [];
    for i := 0 to |rows|
      invariant |transactions| == i
      invariant forall k :: 0 <= k < i ==> fresh(transactions[k]) && transactions[k].Mirrors(rows[k])
      invariant forall k, l :: 0 <= k < l < i ==> transactions[k] != transactions[l]
    {
      var transaction := new Transaction();
      transaction.id := Integer(rows[i].rowid);
      transaction.name := rows[i].cols.name;
      transaction.amount := rows[i].cols.amount;
      transaction.date := rows[i].cols.date;
      transaction.notes := rows[i].cols.notes;
      transactions := transactions + [transaction];
    }
    return Ok(transactions);
  }

  /**
   * `Database.get_attachments_for_transaction` as written: the loop calls
   * `Attachment(row[2], row[3])`, but `__init__` takes only `filepath`, so the
   * first selected row raises TypeError; only a transaction without
   * attachment rows gets its (empty) list.
   */
  method GetAttachmentsForTransaction(db: DatabaseFile, transactionId: Value) returns (r: Result<seq<Attachment>>)
    ensures db.tables.None? ==> r == Err(OperationalError)
    ensures db.tables.Some? ==>
      (r.Ok? <==> forall x :: x in db.tables.value.attachments ==> !SqlEquals(x.cols.transactionId, transactionId))
    ensures db.tables.Some? && r.Err? ==> r.error == TypeError
    ensures r.Ok? ==> r.value == []
  {
    if db.tables.None? {
      return Err(OperationalError);
    }
    var selected := SelectWhere(db.tables.value.attachments, OfTransaction(transactionId));
    if selected != [] {
      assert selected[0] in selected;
      return Err(TypeError);
    }
    return Ok([]);
  }

  /** `Database.add_attachments_to_transaction`: append each attachment, in order. */
  method AddAttachmentsToTransaction(transaction: Transaction, attachments: seq<AttachmentEntry>)
    modifies transaction`attachments
    ensures transaction.attachments == old(transaction.attachments) + attachments
  {
    for i := 0 to |attachments|
      invariant transaction.attachments == old(transaction.attachments) + attachments[..i]
    {
      transaction.attachments := transaction.attachments + [attachments[i]];
    }
  }

  /** `Database.delete_transaction`: the transaction row, then its attachment rows. */
  method DeleteTransaction(db: DatabaseFile, transactionId: Value) returns (r: Outcome)
    requires db.Valid()
    modifies db
    ensures db.Valid()
    ensures old(db.tables).None? ==> r == Fail(OperationalError) && db.tables == None
    ensures old(db.tables).Some? ==> r == Pass && db.tables == Some(DeleteTransactionEffect(old(db.tables).value, transactionId))
  {
    if db.tables.None? {
      return Fail(OperationalError);
    }
    var t := db.tables.value;
    db.tables := Some(t.(transactions := DeleteWhere(t.transactions, IdIs(transactionId))));
    t := db.tables.value;
    db.tables := Some(t.(attachments := DeleteWhere(t.attachments, OfTransaction(transactionId))));
    return Pass;
  }

  /**
   * `Database.modify_transaction`: update the row with the transaction's id,
   * then insert one attachment row per attachment under that id.
   */
  method ModifyTransaction(db: DatabaseFile, transaction: Transaction) returns (r: Outcome)
    requires db.Valid()
    modifies db
    ensures db.Valid()
    ensures old(db.tables).None? ==> r == Fail(OperationalError) && db.tables == None
    ensures old(db.tables).Some? ==>
      var effect := ModifyTransactionEffect(old(db.tables).value, transaction.id, transaction.Cols(),
                                            AttributeFields(transaction.attachments));
      db.tables == Some(effect.0) && r == if effect.1 then Pass else Fail(AttributeError)
  {
    if db.tables.None? {
      return Fail(OperationalError);
    }
    var before := db.tables.value;
    var cols := TransactionCols(transaction.name, transaction.amount, transaction.date, transaction.notes);
    db.tables := Some(before.(transactions := UpdateWhere(before.transactions, IdIs(transaction.id), cols)));
    ghost var fields := AttributeFields(transaction.attachments);
    var i := 0;
    while i < |transaction.attachments|
      invariant 0 <= i <= |transaction.attachments|
      invariant db.tables.Some? && WellKeyed(db.tables.value)
      invariant db.tables.value.transactions == UpdateWhere(before.transactions, IdIs(transaction.id), cols)
      invariant db.tables.value.filedata == before.filedata
      invariant InsertAttachmentRows(before.attachments, transaction.id, fields)
        == InsertAttachmentRows(db.tables.value.attachments, transaction.id, fields[i..])
    {
      var attributes := NameAndFilepath(transaction.attachments[i]);
      if attributes.None? {
        return Fail(AttributeError);
      }
      var t := db.tables.value;
      db.tables := Some(t.(attachments := InsertRow(t.attachments,
        AttachmentCols(transaction.id, attributes.value.0, attributes.value.1))));
      i := i + 1;
    }
    return Pass;
  }

  /**
   * `Database.add_attachment_to_db`: store the attachment's data under its
   * `fileID`; reading the missing attribute raises before any statement runs.
   */
  method AddAttachmentToDb(db: DatabaseFile, attachment: Attachment) returns (r: Outcome)
    requires db.Valid()
    modifies db
    ensures db.Valid()
    ensures attachment.fileId.None? ==> r == Fail(AttributeError) && db.tables == old(db.tables)
    ensures attachment.fileId.Some? && old(db.tables).None? ==> r == Fail(OperationalError) && db.tables == None
    ensures attachment.fileId.Some? && old(db.tables).Some? ==>
      r == Pass && db.tables == Some(StoreFileDataEffect(old(db.tables).value, attachment.fileId.value, attachment.data))
  {
    if attachment.fileId.None? {
      return Fail(AttributeError);
    }
    if db.tables.None? {
      return Fail(OperationalError);
    }
    var t := db.tables.value;
    db.tables := Some(t.(filedata := InsertRow(t.filedata, FileDataCols(attachment.fileId.value, attachment.data))));
    return Pass;
  }

  /**
   * `Database.get_attachment_from_db`: assign the data of every `filedata` row
   * with the attachment's `fileID` to `attachment.data`, in table order.
   */
  method GetAttachmentFromDb(db: DatabaseFile, attachment: Attachment) returns (r: Outcome)
    modifies attachment`data
    ensures attachment.fileId.None? ==> r == Fail(AttributeError) && attachment.data == old(attachment.data)
    ensures attachment.fileId.Some? && db.tables.None? ==>
      r == Fail(OperationalError) && attachment.data == old(attachment.data)
    ensures attachment.fileId.Some? && db.tables.Some? ==>
      r == Pass && attachment.data == FetchedData(db.tables.value.filedata, attachment.fileId.value, old(attachment.data))
  {
    if attachment.fileId.None? {
      return Fail(AttributeError);
    }
    if db.tables.None? {
      return Fail(OperationalError);
    }
    var selected := SelectWhere(db.tables.value.filedata, OfFile(attachment.fileId.value));
    for i := 0 to |selected|
      invariant attachment.data == if i == 0 then old(attachment.data) else selected[i - 1].cols.data
    {
      attachment.data := selected[i].cols.data;
    }
    return Pass;
  }

  /**
   * `Database.get_next_transaction_id`: 1 for an empty table; otherwise the
   * second `fetchone()` raises TypeError instead of returning MAX(id) + 1.
   */
  method GetNextTransactionId(db: DatabaseFile) returns (r: Result<int>)
    ensures db.tables.None? ==> r == Err(OperationalError)
    ensures db.tables.Some? ==> r == NextIdAsWritten(db.tables.value.transactions)
    ensures r.Ok? ==> db.tables.Some? && db.tables.value.transactions == [] && r.value == 1
  {
    if db.tables.None? {
      return Err(OperationalError);
    }
    var rows := db.tables.value.transactions;
    if rows == [] {
      return Ok(1);
    }
    return Err(TypeError);
  }

  /** `Database.get_next_attachment_id`: the same, on the `attachments` table. */
  method GetNextAttachmentId(db: DatabaseFile) returns (r: Result<int>)
    ensures db.tables.None? ==> r == Err(OperationalError)
    ensures db.tables.Some? ==> r == NextIdAsWritten(db.tables.value.attachments)
    ensures r.Ok? ==> db.tables.Some? && db.tables.value.attachments == [] && r.value == 1
  {
    if db.tables.None? {
      return Err(OperationalError);
    }
    var rows := db.tables.value.attachments;
    if rows == [] {
      return Ok(1);
    }
    return Err(TypeError);
  }
}
