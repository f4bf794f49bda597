# Expense tracker persistence layer, in Dafny

This project models the persistence layer of a single-user desktop expense
tracker. The layer stores transactions, their attachment records and attachment
file contents in three SQLite tables:

- `transactions (id, name, amount, date, notes)`
- `attachments (id, transaction_id, name, filepath)`
- `filedata (id, fileID, data)`

Each table's `id` is an `INTEGER PRIMARY KEY`, so it aliases the rowid. The
layer exists twice: as static methods of the `Database` class in
`src/classes.py`, and as an older copy of free functions in `src/functions.py`
that takes the database path explicitly. The model also covers the
`Transaction` and `Attachment` data classes and the two path helpers on
`Attachment`.

Files:

- `sqlite.dfy` (module `Sqlite`) is an in-memory stand-in for the SQLite behaviour the code relies on:
  - cell values in SQLite's five storage classes;
  - `WHERE a = ?` semantics, where NULL matches nothing;
  - a table as the sequence of its rows in rowid order;
  - one function per statement shape: `INSERT`, `SELECT … WHERE`, `DELETE … WHERE`, `UPDATE … WHERE`.
  - A new row gets one more than the largest rowid (1 in an empty table). The model relies on that id being above every id in use, not only on it being unused: keys stay ascending, a new row is the last one a `SELECT` scans, and a table whose one row has id 1 gets id 2 next.
- `schema.dfy` (module `Schema`) holds:
  - the three tables;
  - the database file: its tables are absent until `prepare_tables` creates them, and a statement on an absent table raises `OperationalError`;
  - the effect of each operation on the tables, stated once and used by both copies, with the lemmas about those effects.
- `classes.dfy` (module `Classes`) holds:
  - `Attachment` and `Transaction` as classes;
  - an element of a transaction's attachment list, which is either an `Attachment` object or a `(name, filepath)` tuple;
  - the path helpers;
  - every `Database` static method, as a method on the database file.
- `functions.dfy` (module `Functions`) holds the free functions and the tuple-building `Attachment` lambda.

Python exceptions are results: `Err`/`Fail` with `OperationalError`,
`TypeError` or `AttributeError`. The `Sql` context manager commits on exit even
when the body raises. So a statement that ran before the exception keeps its
effect, and the model keeps it too. For example, `add_transaction` with a tuple
in the attachment list stores the transaction row and the attachment rows
before the tuple, then raises `AttributeError`.

Defects of the source are modelled as the code behaves:

- `get_attachments_for_transaction` in `classes.py` calls `Attachment(row[2], row[3])`, but the constructor takes one argument. Any matching row therefore raises `TypeError`.
- `get_next_transaction_id` and `get_next_attachment_id` call `fetchone()` a second time. They return 1 on an empty table and raise `TypeError` otherwise (`None[0]`).
- `add_attachment_to_db` and `get_attachment_from_db` read `attachment.fileID`, which no code sets. The attribute is an optional field: it starts absent, and reading it while absent raises `AttributeError`.
- `functions.py` reads `.name`, `.filepath`, `.fileID` and `.data` on its own tuples. Each of those reads raises `AttributeError`.

## Model

| member | source | states |
|---|---|---|
| `Sqlite.MaxRowid` | src/classes.py:247-249 | `SELECT MAX(id)` (also src/classes.py:258-260) on a non-empty table: no row has a larger id, and some row has it; `lastrowid` (src/classes.py:131) is one more |
| `Sqlite.NextRowid` | src/classes.py:127-131 | the id an insert assigns (`cursor.lastrowid`) is above every id in the table, so it is not in use; 1 for an empty table |
| `Sqlite.SqlEquals` | src/classes.py:203 | `WHERE col = ?`: NULL equals nothing, not even NULL; a non-NULL value equals exactly itself |
| `Sqlite.InsertRow` | src/classes.py:127-130 | an `INSERT` appends exactly one row with the given columns under an id larger than every id in use; the old rows are untouched and keys stay ascending (unique) |
| `Sqlite.SelectWhere` | src/classes.py:183-186 | a `SELECT … WHERE` result holds exactly the rows that satisfy the condition, no others, in key order |
| `Sqlite.DeleteWhere` | src/classes.py:201-207 | after a `DELETE … WHERE` no row satisfies the condition, every row that did not is still there, and no row is added |
| `Sqlite.UpdateWhere` | src/classes.py:213-217 | an `UPDATE … WHERE` gives the new columns to exactly the matching rows, keeps every id, and leaves every other row unchanged |
| `Sqlite.SelectWhereIdempotent` | src/classes.py:183-186 | selecting again with the same condition gives the same rows |
| `Sqlite.SelectWhereAll` | src/classes.py:183-186 | when every row matches, the selection is the whole table |
| `Sqlite.SelectWhereAppend` | src/classes.py:238-241 | a row inserted last is selected last, after the earlier matches |
| `Sqlite.DeleteWhereIdempotent` | src/classes.py:201-207 | a second identical `DELETE` changes nothing |
| `Sqlite.DeleteWhereNoMatch` | src/classes.py:201-207 | a `DELETE` that matches no row leaves the table as it was |
| `Sqlite.UpdateWhereNoMatch` | src/classes.py:213-217 | an `UPDATE` that matches no row leaves the table as it was |
| `Schema.DatabaseFile.constructor` | src/classes.py:46 | a newly created database file has none of the three tables |
| `Schema.PrepareTablesEffect` | src/classes.py:74-99 | `CREATE TABLE IF NOT EXISTS`: absent tables are created empty, existing tables keep all their rows |
| `Schema.PrepareTablesIdempotent` | src/functions.py:18-43 | preparing the tables a second time changes nothing |
| `Schema.IdIs` | src/classes.py:203 | `WHERE id = ?` on `transactions`; its meaning is `Schema.IdIsMatches` |
| `Schema.IdIsMatches` | src/classes.py:203 | a `transactions` row matches exactly when the key is the integer equal to its id |
| `Schema.OfTransaction` | src/classes.py:207 | `WHERE transaction_id = ?` on `attachments`; its meaning is `Schema.OfTransactionMatches` |
| `Schema.OfTransactionMatches` | src/classes.py:207 | a NULL key matches no attachment row; a non-NULL key matches exactly the rows whose `transaction_id` equals it |
| `Schema.OfFile` | src/classes.py:239 | `WHERE fileID = ?` on `filedata`; its meaning is `Schema.OfFileMatches` |
| `Schema.OfFileMatches` | src/classes.py:239 | a NULL key matches no `filedata` row; a non-NULL key matches exactly the rows whose `fileID` equals it |
| `Schema.InsertAttachmentRows` | src/classes.py:132-136 | the attachment loop of `add_transaction` (and of `modify_transaction`, src/classes.py:218-222; src/functions.py:66-70 and 147-151), one `INSERT` per element until one lacks `name`/`filepath`; what it does is proved by `InsertAttachmentRowsKeepsRows` (old rows kept, fresh ascending ids), `InsertAttachmentRowsCount` (how many rows, and when it fails) and `InsertAttachmentRowsContents` (what each new row holds) |
| `Schema.InsertAttachmentRowsKeepsRows` | src/classes.py:132-136 | inserting a transaction's attachment rows keeps the old rows in front, gives every new row an unused id, and keeps keys ascending |
| `Schema.LeadingSome` | src/classes.py:132-136 | the attachments before the first list element that lacks `name`/`filepath` are exactly those that have them |
| `Schema.InsertAttachmentRowsCount` | src/classes.py:132-136 | one new attachment row per list element up to the first one without attributes; success exactly when there is none |
| `Schema.InsertAttachmentRowsContents` | src/classes.py:132-136 | the k-th new row carries the given transaction id and the k-th attachment's name and filepath (list order) |
| `Schema.AddTransactionEffect` | src/classes.py:126-136 | `add_transaction` adds one `transactions` row with the four fields under a fresh id (ignoring `transaction.id`), then the attachment rows referencing that new id; `filedata` unchanged |
| `Schema.DeleteTransactionEffect` | src/classes.py:199-208 | `delete_transaction` afterwards: no transaction row with the id, no attachment row referencing it, every other row present, `filedata` unchanged |
| `Schema.DeleteTransactionIdempotent` | src/classes.py:199-208 | deleting the same transaction twice is the same as once |
| `Schema.ModifyTransactionEffect` | src/classes.py:211-222 | `modify_transaction` overwrites the four fields on exactly the row with the id, keeps all other rows, then inserts the attachment rows with that id |
| `Schema.ModifyTransactionNoMatch` | src/classes.py:213-217 | with no row for the id, the `transactions` table is unchanged (the attachment rows are still inserted) |
| `Schema.ModifyTransactionTwiceGrows` | src/classes.py:218-222 | two identical modifications insert the attachment rows twice: no removal, no deduplication |
| `Schema.StoreFileDataEffect` | src/classes.py:226-231 | `add_attachment_to_db` appends one `filedata` row with the file id and data and touches no other table |
| `Schema.FetchedData` | src/classes.py:239-242 | the `data` the fetch loop leaves (also src/functions.py:165-169): by `Schema.FetchedDataIsLastMatch`, the data of the last `filedata` row with the file id, or the old value when no row has it |
| `Schema.LastMatch` | src/classes.py:237-242 | the index of the last `filedata` row with the file id: it matches and no later row does; -1 when none does |
| `Schema.FetchedDataIsLastMatch` | src/classes.py:235-242 | after `get_attachment_from_db` the data is that of the last matching row, or unchanged when no row matches |
| `Schema.StoreThenFetch` | src/classes.py:226-242 | round trip: data stored under a non-NULL file id is what a later fetch of that id yields |
| `Schema.NextIdAsWritten` | src/classes.py:245-264 | the next-id queries as written succeed exactly on an empty table, then with 1 (= the fresh id); otherwise `TypeError` |
| `Schema.NextIdAsWrittenFailsOnOneRow` | src/classes.py:253 | with a single row of id 1 the code raises, although the intended next id is 2 |
| `Classes.Attachment.constructor` | src/classes.py:360-364 | an attachment starts with empty data and without a `fileID` attribute |
| `Classes.NameAndFilepath` | src/classes.py:136 | an `Attachment` object yields its `name` and `filepath`; a tuple yields nothing (the attribute read raises) |
| `Classes.AttributeFields` | src/classes.py:136 | per list element, its `name` and `filepath`, or nothing for a tuple |
| `Classes.Transaction.constructor` | src/classes.py:304-310 | `Transaction()` defaults: no id, empty name/date/notes, amount 0, no attachments |
| `Classes.Split` | src/classes.py:388 | `str.split(sep)` yields at least one piece, and exactly one iff the separator does not occur |
| `Classes.SplitPiecesWithoutSeparator` | src/classes.py:388 | no piece of `str.split(sep)` contains the separator |
| `Classes.Join` | src/classes.py:388 | `sep.join(pieces)`, the inverse of `str.split(sep)`, stated by `Classes.SplitJoin` |
| `Classes.SplitJoin` | src/classes.py:388 | round trip: joining the pieces of `path.split(sep)` with `sep` gives `path` back |
| `Classes.LastSegment` | src/classes.py:384-394 | the suffix after the last separator: contains no separator, is the whole path when there is none, and is otherwise preceded by one |
| `Classes.LastSegmentUnique` | src/classes.py:384-394 | those conditions determine the suffix uniquely |
| `Classes.LastSegmentIsLastPiece` | src/classes.py:388 | the suffix after the last separator is `split(sep)[-1]` |
| `Classes.GetFileType` | src/classes.py:384-388 | `get_file_type` is `path.split('.')[-1]`: a suffix of the path without '.' |
| `Classes.GetFileName` | src/classes.py:390-394 | `get_file_name` is `path.split('/')[-1]`: a suffix of the path without '/' |
| `Classes.PrepareTables` | src/classes.py:64-108 | the tables become those of `PrepareTablesEffect`; keys stay unique |
| `Classes.AddTransaction` | src/classes.py:111-136 | the tables become `AddTransactionEffect`; `OperationalError` without tables; `AttributeError` on an element without attributes |
| `Classes.GetAllTransactions` | src/classes.py:139-166 | one new, distinct `Transaction` per row in table order, with id/name/amount/date/notes from the row and no attachments |
| `Classes.GetAttachmentsForTransaction` | src/classes.py:169-191 | as written: an empty list iff no attachment row references the id, otherwise `TypeError` from the two-argument constructor call |
| `Classes.AddAttachmentsToTransaction` | src/classes.py:194-196 | the list becomes the old list followed by the given attachments in order |
| `Classes.DeleteTransaction` | src/classes.py:199-208 | the tables become `DeleteTransactionEffect` of the id |
| `Classes.ModifyTransaction` | src/classes.py:211-222 | the tables become `ModifyTransactionEffect` of the transaction's id, fields and attachments |
| `Classes.AddAttachmentToDb` | src/classes.py:225-231 | `AttributeError` while `fileID` is absent (nothing stored); otherwise the tables become `StoreFileDataEffect` |
| `Classes.GetAttachmentFromDb` | src/classes.py:234-242 | `AttributeError` without `fileID`; otherwise `data` becomes `FetchedData`, the last matching row's data or the old value |
| `Classes.GetNextTransactionId` | src/classes.py:245-253 | 1 on an empty table, `TypeError` on a non-empty one (`NextIdAsWritten`), `OperationalError` without tables |
| `Classes.GetNextAttachmentId` | src/classes.py:256-264 | the same on the `attachments` table |
| `Functions.TupleAttachment` | src/functions.py:3 | the lambda builds a `(name, filepath)` tuple, which has no `name`/`filepath` attributes |
| `Functions.TupleAttachmentStopsAddTransaction` | src/functions.py:60-70 | a tuple in the attachment list makes `add_transaction` fail, after inserting the transaction row and at most the rows before the tuple |
| `Functions.PrepareTables` | src/functions.py:8-43 | the tables become those of `PrepareTablesEffect` |
| `Functions.AddTransaction` | src/functions.py:46-70 | the tables become `AddTransactionEffect` |
| `Functions.GetAllTransactions` | src/functions.py:72-99 | one new, distinct `Transaction` per row, columns 0-4 copied, no attachments |
| `Functions.GetAttachmentsForTransaction` | src/functions.py:101-123 | exactly one `(name, filepath)` tuple per attachment row referencing the id, in table order |
| `Functions.AddAttachmentsToTransaction` | src/functions.py:125-127 | the list becomes the old list followed by the given attachments in order |
| `Functions.DeleteTransaction` | src/functions.py:129-138 | the tables become `DeleteTransactionEffect` of the id |
| `Functions.ModifyTransaction` | src/functions.py:140-151 | the tables become `ModifyTransactionEffect` |
| `Functions.AddAttachmentToDb` | src/functions.py:154-159 | `AttributeError` for a tuple or a missing `fileID`; otherwise `StoreFileDataEffect` |
| `Functions.GetAttachmentFromDb` | src/functions.py:162-169 | `AttributeError` for a tuple or a missing `fileID`; otherwise `data` becomes `FetchedData` |

## Findings

| source | as written | input that shows it | evidently intended | confidence | as-written member | corrected member |
|---|---|---|---|---|---|---|
| src/classes.py:253 | `return cursor.fetchone()[0] + 1` after the one row of `SELECT MAX(id)` was already consumed by the test on line 251: `fetchone()` returns None, and `None[0]` raises TypeError (line 264 is the same for attachments) | a `transactions` table holding one row with id 1 | return MAX(id) + 1, here 2, an id not in use | high; not executed | `Schema.NextIdAsWrittenFailsOnOneRow` | `Sqlite.NextRowid` |

## Left out

- Connections, commits and printing in the `Sql` context manager (src/classes.py:33-54) are I/O. Each operation is one atomic update of the file's tables, and a failure to open the file is not modelled.
- The schema query and print at the end of `prepare_tables` (src/classes.py:100-108) have no effect on the tables, so they are not modelled.
- SQLite column affinity and comparisons across storage classes are not modelled. For example, `5 = 5.0` and a text `'5'` stored in an INTEGER column.
- Rowid allocation is max+1. The random rowid SQLite picks once the largest rowid is 2^63-1 is not modelled.
- A file holding only some of the three tables, or tables with another schema, is not modelled: the tables are all present or all absent.
- `Attachment.__init__` (src/classes.py:360-365) is not modelled: it calls `get_next_attachment_id` and `os.path.splitext`. The constructor takes the values `__init__` computes. Because `get_next_attachment_id` raises on a non-empty `attachments` table, no attachment can be created once one row exists; the model does not show this at construction.
- The file helpers `file_to_blob` and `blob_to_file` do file I/O and are not modelled (src/classes.py:370-382).
- `get_raw_data` calls an undefined name and always raises `NameError` (src/classes.py:396-401). It is not modelled.
- `Transaction.__str__` and `Attachment.__str__` are formatting only and are not modelled. The numeric meaning of `amount` is not modelled either: amounts, dates and notes are stored as opaque values.
- The PySimpleGUI windows in src/classes.py:412-625 and all of src/main.py are user interface code and are not modelled.
- `Classes.AddAttachmentsToTransaction` and `Functions.AddAttachmentsToTransaction` model the attachment list as a value that the field is reassigned to. The in-place `append` on a Python list shared by other references is not captured: another holder of the same list does not see the new elements, and `add_attachments_to_transaction(t, t.attachments)`, which never terminates in Python because the loop walks the list it extends, yields the old list twice in the model.
- The path helpers split on a single character. That is how the source calls them (`'.'` and `'/'`); `str.split` with a longer or empty separator is not modelled.
