/**
 * The older free-function copy of the persistence operations (functions.py).
 * Each function takes the database path explicitly, modelled here as the
 * database file it names. An attachment here is the `(name, filepath)` tuple
 * the module-level `Attachment` lambda builds; a tuple has none of the
 * attributes (`name`, `filepath`, `fileID`, `data`) the functions read or set.
 */
module Functions {
  import opened Sqlite
  import opened Schema
  import opened Classes

  /** The `Attachment` lambda: a `(name, filepath)` tuple, without attachment attributes. */
  function TupleAttachment(name: Value, filepath: Value): (entry: AttachmentEntry)
    ensures entry.AttachmentTuple? && entry.name == name && entry.filepath == filepath
    ensures NameAndFilepath(entry) == None
  {
    AttachmentTuple(name, filepath)
  }

  /**
   * A transaction whose list holds a tuple attachment cannot be stored whole:
   * its row goes in, the attachment rows stop at the first tuple, and
   * AttributeError is raised.
   */
  lemma TupleAttachmentStopsAddTransaction(t: Tables, cols: TransactionCols, entries: seq<AttachmentEntry>, k: nat)
    requires k < |entries| && entries[k].AttachmentTuple?
    ensures !AddTransactionEffect(t, cols, AttributeFields(entries)).1
    ensures |AddTransactionEffect(t, cols, AttributeFields(entries)).0.attachments| <= |t.attachments| + k
  {
    var fields := AttributeFields(entries);
    var transactionId := Integer(NextRowid(t.transactions));
    InsertAttachmentRowsCount(t.attachments, transactionId, fields);
    assert fields[k].None?;
  }

  /** `prepare_tables(db_path)`: create the three tables if they are absent. */
  method PrepareTables(db: DatabaseFile)
    requires db.Valid()
    modifies db
    ensures db.Valid()
    ensures db.tables == Some(PrepareTablesEffect(old(db.tables)))
  {
    if db.tables.None? {
      db.tables := Some(NoRows);
    }
  }

  /** `add_transaction(db_path, transaction)`. */
  method AddTransaction(db: DatabaseFile, transaction: Transaction) returns (r: Outcome)
    requires db.Valid()
    modifies db
    ensures db.Valid()
    ensures old(db.tables).None? ==> r == Fail(OperationalError) && db.tables == None
    ensures old(db.tables).Some? ==>
      var effect := AddTransactionEffect(old(db.tables).value, transaction.Cols(), AttributeFields(transaction.attachments));
      db.tables == Some(effect.0) && r == if effect.1 then Pass else Fail(AttributeError)
  {
    if db.tables.None? {
      return Fail(OperationalError);
    }
    var before := db.tables.value;
    var cols := TransactionCols(transaction.name, transaction.amount, transaction.date, transaction.notes);
    db.tables := Some(before.(transactions := InsertRow(before.transactions, cols)));
    var transactionId := NextRowid(before.transactions);
    ghost var fields := AttributeFields(transaction.attachments);
    for i := 0 to |transaction.attachments|
      invariant db.tables.Some? && WellKeyed(db.tables.value)
      invariant db.tables.value.transactions == InsertRow(before.transactions, cols)
      invariant db.tables.value.filedata == before.filedata
      invariant InsertAttachmentRows(before.attachments, Integer(transactionId), fields)
        == InsertAttachmentRows(db.tables.value.attachments, Integer(transactionId), fields[i..])
    {
      var attributes := NameAndFilepath(transaction.attachments[i]);
      if attributes.None? {
        return Fail(AttributeError);
      }
      var t := db.tables.value;
      db.tables := Some(t.(attachments := InsertRow(t.attachments,
        AttachmentCols(Integer(transactionId), attributes.value.0, attributes.value.1))));
    }
    return Pass;
  }

  /**
   * `get_all_transactions(db_path)`: one new Transaction per row, in table
   * order, with the row's columns and no attachments.
   */
  method GetAllTransactions(db: DatabaseFile) returns (r: Result<seq<Transaction>>)
    ensures db.tables.None? ==> r == Err(OperationalError)
    ensures db.tables.Some? ==> r.Ok? && |r.value| == |db.tables.value.transactions|
    ensures r.Ok? ==> forall i :: 0 <= i < |r.value| ==>
      fresh(r.value[i]) && r.value[i].Mirrors(db.tables.value.transactions[i])
    ensures r.Ok? ==> forall i, j :: 0 <= i < j < |r.value| ==> r.value[i] != r.value[j]
  {
    if db.tables.None? {
      return Err(OperationalError);
    }
    var rows := db.tables.value.transactions;
    var transactions: seq<Transaction> := [];
    for i := 0 to |rows|
      invariant |transactions| == i
      invariant forall k :: 0 <= k < i ==> fresh(transactions[k]) && transactions[k].Mirrors(rows[k])
      invariant forall k, l :: 0 <= k < l < i ==> transactions[k] != transactions[l]
    {
      var transaction := new Transaction();
      transaction.id := Integer(rows[i].rowid);
      transaction.name := rows[i].cols.name;
      transaction.amount := rows[i].cols.amount;
      transaction.date := rows[i].cols.date;
      transaction.notes := rows[i].cols.notes;
      transactions := transactions + [transaction];
    }
    return Ok(transactions);
  }

  /**
   * `get_attachments_for_transaction(db_path, transaction_id)`: one
   * `(name, filepath)` tuple per attachment row of the transaction, in table
   * order, and none for any other row.
   */
  method GetAttachmentsForTransaction(db: DatabaseFile, transactionId: Value) returns (r: Result<seq<AttachmentEntry>>)
    ensures db.tables.None? ==> r == Err(OperationalError)
    ensures db.tables.Some? ==> r.Ok?
    ensures r.Ok? ==>
      var selected := SelectWhere(db.tables.value.attachments, OfTransaction(transactionId));
      |r.value| == |selected| &&
      forall k :: 0 <= k < |selected| ==>
        r.value[k] == TupleAttachment(selected[k].cols.name, selected[k].cols.filepath)
  {
    if db.tables.None? {
      return Err(OperationalError);
    }
    var selected := SelectWhere(db.tables.value.attachments, OfTransaction(transactionId));
    var attachments: seq<AttachmentEntry> := [];
    for i := 0 to |selected|
      invariant |attachments| == i
      invariant forall k :: 0 <= k < i ==>
        attachments[k] == TupleAttachment(selected[k].cols.name, selected[k].cols.filepath)
    {
      var attachment := TupleAttachment(selected[i].cols.name, selected[i].cols.filepath);
      attachments := attachments + [attachment];
    }
    return Ok(attachments);
  }

  /** `add_attachments_to_transaction(transaction, attachments)`: append each, in order. */
  method AddAttachmentsToTransaction(transaction: Transaction, attachments: seq<AttachmentEntry>)
    modifies transaction`attachments
    ensures transaction.attachments == old(transaction.attachments) + attachments
  {
    for i := 0 to |attachments|
      invariant transaction.attachments == old(transaction.attachments) + attachments[..i]
    {
      transaction.attachments := transaction.attachments + [attachments[i]];
    }
  }

  /** `delete_transaction(db_path, transaction_id)`: the row, then its attachment rows. */
  method DeleteTransaction(db: DatabaseFile, transactionId: Value) returns (r: Outcome)
    requires db.Valid()
    modifies db
    ensures db.Valid()
    ensures old(db.tables).None? ==> r == Fail(OperationalError) && db.tables == None
    ensures old(db.tables).Some? ==> r == Pass && db.tables == Some(DeleteTransactionEffect(old(db.tables).value, transactionId))
  {
    if db.tables.None? {
      return Fail(OperationalError);
    }
    var t := db.tables.value;
    db.tables := Some(t.(transactions := DeleteWhere(t.transactions, IdIs(transactionId))));
    t := db.tables.value;
    db.tables := Some(t.(attachments := DeleteWhere(t.attachments, OfTransaction(transactionId))));
    return Pass;
  }

  /** `modify_transaction(db_path, transaction)`: update the row, then insert its attachment rows. */
  method ModifyTransaction(db: DatabaseFile, transaction: Transaction) returns (r: Outcome)
    requires db.Valid()
    modifies db
    ensures db.Valid()
    ensures old(db.tables).None? ==> r == Fail(OperationalError) && db.tables == None
    ensures old(db.tables).Some? ==>
      var effect := ModifyTransactionEffect(old(db.tables).value, transaction.id, transaction.Cols(),
                                            AttributeFields(transaction.attachments));
      db.tables == Some(effect.0) && r == if effect.1 then Pass else Fail(AttributeError)
  {
    if db.tables.None? {
      return Fail(OperationalError);
    }
    var before := db.tables.value;
    var cols := TransactionCols(transaction.name, transaction.amount, transaction.date, transaction.notes);
    db.tables := Some(before.(transactions := UpdateWhere(before.transactions, IdIs(transaction.id), cols)));
    ghost var fields := AttributeFields(transaction.attachments);
    for i := 0 to |transaction.attachments|
      invariant db.tables.Some? && WellKeyed(db.tables.value)
      invariant db.tables.value.transactions == UpdateWhere(before.transactions, IdIs(transaction.id), cols)
      invariant db.tables.value.filedata == before.filedata
      invariant InsertAttachmentRows(before.attachments, transaction.id, fields)
        == InsertAttachmentRows(db.tables.value.attachments, transaction.id, fields[i..])
    {
      var attributes := NameAndFilepath(transaction.attachments[i]);
      if attributes.None? {
        return Fail(AttributeError);
      }
      var t := db.tables.value;
      db.tables := Some(t.(attachments := InsertRow(t.attachments,
        AttachmentCols(transaction.id, attributes.value.0, attributes.value.1))));
    }
    return Pass;
  }

  /**
   * `add_attachment_to_db(db_path, attachment)`: store the attachment's data
   * under its `fileID`. A tuple, or an object without `fileID`, raises
   * AttributeError before any statement runs.
   */
  method AddAttachmentToDb(db: DatabaseFile, attachment: AttachmentEntry) returns (r: Outcome)
    requires db.Valid()
    modifies db
    ensures db.Valid()
    ensures (attachment.AttachmentTuple? || attachment.obj.fileId.None?) ==>
      r == Fail(AttributeError) && db.tables == old(db.tables)
    ensures attachment.AttachmentObject? && attachment.obj.fileId.Some? && old(db.tables).None? ==>
      r == Fail(OperationalError) && db.tables == None
    ensures attachment.AttachmentObject? && attachment.obj.fileId.Some? && old(db.tables).Some? ==>
      r == Pass &&
      db.tables == Some(StoreFileDataEffect(old(db.tables).value, attachment.obj.fileId.value, attachment.obj.data))
  {
    if attachment.AttachmentTuple? || attachment.obj.fileId.None? {
      return Fail(AttributeError);
    }
    if db.tables.None? {
      return Fail(OperationalError);
    }
    var t := db.tables.value;
    var stored := FileDataCols(attachment.obj.fileId.value, attachment.obj.data);
    db.tables := Some(t.(filedata := InsertRow(t.filedata, stored)));
    return Pass;
  }

  /**
   * `get_attachment_from_db(db_path, attachment)`: assign the data of every
   * `filedata` row with the attachment's `fileID` to `attachment.data`, in
   * table order. A tuple, or an object without `fileID`, raises AttributeError.
   */
  method GetAttachmentFromDb(db: DatabaseFile, attachment: AttachmentEntry) returns (r: Outcome)
    modifies if attachment.AttachmentObject? then {attachment.obj} else {}
    ensures attachment.AttachmentTuple? ==> r == Fail(AttributeError)
    ensures attachment.AttachmentObject? ==> attachment.obj.fileId == old(attachment.obj.fileId)
    ensures attachment.AttachmentObject? && attachment.obj.fileId.None? ==>
      r == Fail(AttributeError) && attachment.obj.data == old(attachment.obj.data)
    ensures attachment.AttachmentObject? && attachment.obj.fileId.Some? && db.tables.None? ==>
      r == Fail(OperationalError) && attachment.obj.data == old(attachment.obj.data)
    ensures attachment.AttachmentObject? && attachment.obj.fileId.Some? && db.tables.Some? ==>
      r == Pass &&
      attachment.obj.data == FetchedData(db.tables.value.filedata, attachment.obj.fileId.value, old(attachment.obj.data))
  {
    if attachment.AttachmentTuple? || attachment.obj.fileId.None? {
      return Fail(AttributeError);
    }
    if db.tables.None? {
      return Fail(OperationalError);
    }
    var target := attachment.obj;
    var selected := SelectWhere(db.tables.value.filedata, OfFile(target.fileId.value));
    for i := 0 to |selected|
      invariant target.fileId == old(target.fileId)
      invariant target.data == if i == 0 then old(target.data) else selected[i - 1].cols.data
    {
      target.data := selected[i].cols.data;
    }
    return Pass;
  }
}
