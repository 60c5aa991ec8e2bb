# PotatoDB: verified model

This project models the parts of PotatoDB that its own code decides rather than DataFusion or the
object store: the buffered write path with its Arrow write-ahead log, transactions and savepoints,
the uniqueness cache, the rewrite of scalar subqueries, the SQL text readers, and the statements that
must keep relations between tables. Parquet tables are sequences of rows in files whose identities
are never reused; the object store and the WAL directory are maps. `dafny verify dfyconfig.toml`
checks everything.

Code that changes fields step by step is a class whose methods are tied to a function on the state
(`ArrowWal`, `InsertPath.Engine`, `TransactionEngine.Engine`, `ForeignKeys.Engine`, `Upsert.Engine`,
`Sequences.CatalogState`, `Indexes.Catalog`, `Migrations.Engine`); the theorems are about every run of
those functions. The text readers are methods with loops, proved against a specification that reads
the text by its structure. Every lemma carries `{:induction false}`: inductions are written out. Rows of the model table that
begin with "step" say what one statement does; they serve the theorems that use them.

| file | what it is about |
|---|---|
| `Values.dfy`, `Text.dfy` | values, rows and batches; decimal text |
| `FileNames.dfy`, `ArrowWal.dfy` | WAL file names and their sort order; append, recover, checkpoint, reopen |
| `CrashProtocol.dfy`, `ConstrainedRecovery.dfy` | INSERT, flush, CHECKPOINT, crash and recovery as micro-steps; the same for tables with PRIMARY KEY and UNIQUE, whose WAL rows are validated when they are replayed |
| `KeyEncoding.dfy`, `Uniqueness.dfy`, `InsertPath.dfy` | key strings; PRIMARY KEY and UNIQUE; the engine's insert path with its cache, and start-up |
| `Transactions.dfy`, `TransactionTheorems.dfy`, `RollbackTheorems.dfy`, `SavepointRows.dfy`, `CommitTheorems.dfy`, `CatalogRuns.dfy`, `TransactionEngine.dfy` | transactions: state and statements, savepoints as copies, ROLLBACK, ROLLBACK TO with rewrites and drops, COMMIT, the catalog over whole runs, the class |
| `BufferedTransactions.dfy` | transactions together with the write buffer and the selective flush before each statement |
| `SplitSubqueries.dfy` | the optimizer rule `SplitScalarSubqueries` |
| `SqlLexer.dfy`, `ArgLists.dfy`, `Placeholders.dfy`, `Binders.dfy`, `Sequences.dfy` | statement splitter and comment stripper; argument lists; the engine's parameter binder, the server's and where they agree; sequences and `nextval` |
| `ForeignKeys.dfy`, `Upsert.dfy`, `Indexes.dfy`, `Migrations.dfy` | DELETE with foreign keys; ON CONFLICT; the index catalogue; migrations |

## What the code does not keep

These are consequences of the code as it is; each is a theorem here, with the exact condition where
there is one.

- The WAL is replayed in file-name order. Below one million appends that is append order; the file
  numbered 1000000 sorts before 999999 (`FileNames.NameOrderExact`, `ArrowWalLog.RecoveryOrderExact`).
- A crash between the Parquet write and the removal of the WAL files duplicates exactly the flushed
  rows of a table without keys. If one of those rows has a key -- any row, under PRIMARY KEY -- start-up
  rejects them and the process never comes up again; in every other crash it does
  (`ConstrainedRecovery.CrashExact`, `ConstrainedRecovery.StuckForever`).
- The selective flush before CHECKPOINT looks for table names as substrings of the statement. A
  buffered table called `t` is found in `CHECKPOINT`, so only it is flushed and the WAL rows of the
  others are dropped (`CrashProtocol.CheckpointStatementExact`, `CrashProtocol.CheckpointLosesOrders`).
  A rejected INSERT leaves a buffer entry without rows, and that is enough: INSERT into `orders`, a
  rejected INSERT into `t`, CHECKPOINT, and the rows of `orders` are in memory only
  (`CrashProtocol.RejectionLoses`, `InsertPath.RejectedInsertThenCheckpoint`).
- INSERT fills the write buffer inside a transaction too, and the flush before ROLLBACK is as
  selective: rows of tables it passes over survive the ROLLBACK
  (`BufferedTransactions.RollbackUndoesInserts`), and a rejected INSERT into another table can be the
  reason (`BufferedTransactions.RejectionKeepsRowsOfX`). Rows answered before BEGIN that are first
  flushed inside the transaction are undone with it: with an entry for `b` in the buffer, even one
  without rows, BEGIN and ROLLBACK lose the buffered rows of `a`
  (`BufferedTransactions.BeginThenRollbackExact`, `BufferedTransactions.BeginRollbackLosesRows`).
- The same between SAVEPOINT and ROLLBACK TO: rows inserted before the savepoint that are first flushed
  after it are deleted by ROLLBACK TO, and rows inserted after it that are still buffered survive
  (`BufferedTransactions.SavepointToRollbackTo`, `BufferedTransactions.SavepointLosesRows`).
- ROLLBACK TO gives a table rewritten earlier in the transaction the rows from before that rewrite,
  even with nothing in between; a table rewritten since the savepoint comes back empty
  (`SavepointRows.RollbackToExact`, `SavepointRows.DeleteThenSavepoint`,
  `SavepointRows.SavepointThenDelete`). A table dropped and brought back loses its files at COMMIT
  (`SavepointRows.CommitKeepsFiles`, `SavepointRows.DropThenRollbackTo`).
- ROLLBACK TO makes what it restored the base of the transaction, so a later ROLLBACK undoes nothing of
  what came before the savepoint (`SavepointRows.RollbackAfterRollbackTo`).
- After ROLLBACK of a rewrite the rows are those of the first rewrite, not of BEGIN, and the
  catalog's file lists differ from the snapshot (`RollbackTheorems.FullRollback`,
  `RollbackTheorems.RollbackCatalog`).
- DROP TABLE and CREATE TABLE of one name inside a transaction give the new table the files of the old
  one, and COMMIT deletes them (`CatalogRuns.RecreatedInside`). The catalog's file lists are right after
  any statements but two: COMMIT after such a DROP, and a ROLLBACK TO that loses a table's files
  (`CatalogRuns.CommitListsExactly`, `CatalogRuns.RollbackToListsExactly`).
- Two UNIQUE constraints of one name share a cache entry: a row whose key is on disk can pass, and one
  whose key is not can be rejected (`Uniqueness.SharedEntryCompares`, `Uniqueness.SharedEntryMisleads`).
- UPDATE looks at the keys only after it has replaced the rows, and a violation does not bring the old
  rows back; the keys of a table stay in order if and only if those of the new rows are
  (`InsertPath.Engine.RewriteTable`).
- DELETE also removes rows whose condition is unknown, without acting on their children, and CASCADE
  removes children without a key (`ForeignKeys.DeleteKeepsKeyExactly`,
  `ForeignKeys.CascadeDropsKeylessChildren`). CASCADE goes one level deep: rows that refer to a removed
  child stay (`ForeignKeys.CascadeKeepsGrandchildExactly`, `ForeignKeys.CascadeOrphans`).
- The server's binder scans inserted text again and mistakes `$19` for `$1` followed by `9` when there
  are fewer than 19 parameters; the engine's binder reads `$01` as `$1`
  (`Binders.TemplateSafeExactly`, `Binders.TemplateSafeForAllValues`, `Binders.DollarInValue`).
- A sequence never answers its maximum, and with the largest maximum it answers that number for ever
  (`Sequences.AscendingAnswers`, `Sequences.UnboundedAnswers`).
- A migration registered at or below the current schema version never runs; version 0 never runs
  (`Migrations.LateVersionNeverRuns`). A MIGRATE that fails returns before it saves the catalogue, so a
  reopen can run the versions before the failing one again (`Migrations.ReopenRepeatsExactly`,
  `Migrations.FirstIsLost`).

## Model

| member | source | states |
|---|---|---|
| FileNames.FileNameRoundTrip | crates/wal/src/arrow_wal.rs:271-288 | a directory scan reads back exactly the number a WAL file was created under, so numbering continues after a reopen |
| FileNames.NameOrderExact | crates/wal/src/arrow_wal.rs:189-235 | two WAL files sort in numeric order if and only if the smaller number, padded on the right, does not exceed the larger |
| FileNames.SixDigitOrder | crates/wal/src/arrow_wal.rs:112-179 | below one million, sorting by zero-padded name is sorting by number |
| FileNames.MillionthFileSortsFirst | crates/wal/src/arrow_wal.rs:112-179 | the name of file 1000000 precedes that of 999999 |
| ArrowWalLog.RecoveryOrderExact | crates/wal/src/arrow_wal.rs:189-235 | the files of a table are read in append order if and only if each adjacent pair of numbers is in name order |
| ArrowWalLog.RecoverHistory | crates/wal/src/arrow_wal.rs:189-235 | in that case recovery yields the appended batches in append order |
| ArrowWalLog.RecoverHistoryMultiset | crates/wal/src/arrow_wal.rs:189-235 | whatever the numbers, recovery yields every appended batch, each as often as it was appended |
| ArrowWalLog.WalRefinement | crates/wal/src/arrow_wal.rs:89-288 | after any sequence of append, per-table and full checkpoint and reopen, no append has failed and recovery finds exactly the batches appended to a table since its last checkpoint, in order up to counter 999999 |
| ArrowWalLog.AppendAfterRun | crates/wal/src/arrow_wal.rs:112-179 | after any such sequence an append creates a file that did not exist, in a directory that does, and changes no other file |
| ArrowWalLog.ArrowWal.Open | crates/wal/src/arrow_wal.rs:89-104 | opening continues with the largest number found on disk and knows no directory |
| ArrowWalLog.ArrowWal.Append | crates/wal/src/arrow_wal.rs:112-179 | the new state and success of an append, empty appends and missing directories included |
| ArrowWalLog.ArrowWal.CheckpointTable | crates/wal/src/arrow_wal.rs:242-249 | removes one table's directory and forgets it |
| ArrowWalLog.ArrowWal.CheckpointAll | crates/wal/src/arrow_wal.rs:256-267 | removes every table's directory and keeps the counter |
| ArrowWalLog.Recover | crates/wal/src/arrow_wal.rs:189-235 | the loop over directories returns what the specification recovers, per table in name order |
| ArrowWalLog.MaxExistingSeq | crates/wal/src/arrow_wal.rs:271-288 | the scan returns the largest number in the tree, or nothing if there is none |
| CrashProtocol.StepDurable | crates/engine/src/lib.rs:1303-1494 | of all micro-steps only the WAL append and a crash between Parquet write and WAL removal change what would survive |
| CrashProtocol.CrashSafety | crates/engine/src/lib.rs:1303-1494 | in every run, with crashes anywhere, a table at rest holds exactly the rows it must hold, in insertion order, and nothing of it is left in the WAL |
| CrashProtocol.NoAnswerLost | crates/engine/src/lib.rs:1303-1411 | the rows of answered INSERTs are among the rows the table must hold, in order |
| CrashProtocol.ExactlyOnce | crates/engine/src/lib.rs:973-986 | without a crash in the flush window each logged row counts once, and without a crash between logging and answer the logged rows are the answered ones |
| CrashProtocol.DuplicatesAreTheWalRows | crates/engine/src/lib.rs:1436-1494 | a crash in the flush window duplicates exactly the rows of that flush; any other crash duplicates nothing |
| CrashProtocol.RecoveryCompletes | crates/engine/src/lib.rs:973-986 | for tables without PRIMARY KEY and UNIQUE, after any crash start-up can bring every table to rest |
| CrashProtocol.CrashThenRestart | crates/engine/src/lib.rs:973-986 | for tables without PRIMARY KEY and UNIQUE, crash at any micro-step and restart: every table ends with the expected rows, the answered ones among them in order |
| CrashProtocol.CheckpointExact | crates/engine/src/lib.rs:1280-1295 | dropping the whole WAL is crash safe if and only if no row is buffered |
| CrashProtocol.FollowFlushes | crates/engine/src/lib.rs:1547-1568 | flushing some buffered tables one after the other moves exactly their rows to disk and out of the WAL, in whatever order |
| CrashProtocol.UpperExact | crates/engine/src/lib.rs:1551-1559 | small letters a to z become their capitals before names are looked for, and nothing else changes |
| CrashProtocol.ContainsExact | crates/engine/src/lib.rs:1551-1559 | a name is found if and only if it stands somewhere in the text |
| CrashProtocol.CheckpointStatementExact | crates/engine/src/lib.rs:1547-1568 | the CHECKPOINT statement with its selective flush is crash safe if and only if its text mentions none of the buffer entries, those that rejected INSERTs left without rows included, or every table with buffered rows |
| CrashProtocol.CheckpointLosesOrders | crates/engine/src/lib.rs:1547-1568 | INSERT into `orders` and `t`, CHECKPOINT, crash and restart: both INSERTs were answered and `orders` is empty |
| CrashProtocol.RejectionLoses | crates/engine/src/lib.rs:1374-1390 | one answered INSERT, one rejected INSERT into a table that the text of CHECKPOINT mentions, CHECKPOINT, crash and restart: the answered rows are gone |
| CrashProtocol.ArrowWalServesProtocol | crates/engine/src/lib.rs:973-986 | the Arrow WAL recovers, after the log operations of any run, exactly the rows the protocol has in its log |
| ConstrainedRecovery.CrashExact | crates/engine/src/lib.rs:973-986 | for tables with any keys: after a crash while statements are served the process comes up again if and only if no flush was cut off between Parquet write and WAL removal with a row in it that has a key; it then holds the expected rows, the answered ones in order |
| ConstrainedRecovery.RecoveryExact | crates/engine/src/lib.rs:973-986 | from any crash the process can be brought up if and only if no table is stuck, and then start-up alone does it |
| ConstrainedRecovery.StuckForever | crates/engine/src/lib.rs:973-986 | once a table is stuck the process is never up again, whatever happens |
| ConstrainedRecovery.ReplayableExactly | crates/engine/src/lib.rs:6384-6524 | over all runs in which validation accepted every INSERT and replay, the WAL rows of a table are accepted on top of its rows on disk if and only if the table is not stuck |
| ConstrainedRecovery.StartUpExact | crates/engine/src/lib.rs:973-986 | the condition under which the replay loop succeeds holds exactly if no table is stuck |
| KeyEncoding.KeyStringInjective | crates/engine/src/lib.rs:7843-7879 | joining rendered values with the unit separator is injective, even for strings with quotes and separators |
| KeyEncoding.LiteralUnique | crates/engine/src/lib.rs:7843-7879 | a rendered value followed by the rest of a key can be read in one way only |
| KeyEncoding.NullTestExact | crates/engine/src/lib.rs:6427-6449 | a rendered value is the text `NULL` if and only if it is null |
| Uniqueness.AcceptedKeepsKeys | crates/engine/src/lib.rs:6384-6524 | accepted rows leave the keys of a table in order -- no NULL in a primary key, no key twice -- exactly if they were before |
| Uniqueness.ClashProjects | crates/engine/src/lib.rs:6427-6449 | two rows agree in every key column, without a null, if and only if the projected keys the scan renders are equal and without nulls |
| Uniqueness.NullKeyProjects | crates/engine/src/lib.rs:6427-6449 | the projected key has a null if and only if a cell of the key is null or missing |
| Uniqueness.EveryColumnCounts | crates/engine/src/lib.rs:6423-6509 | under a primary key of two columns a row may join another if and only if both its cells are set and one of them differs |
| Uniqueness.KeysDiffer | crates/engine/src/lib.rs:6384-6524 | in a table that keeps its constraints any two rows differ in a key column or have a null there, and no primary key column is null |
| Uniqueness.ReplayAfterWindow | crates/engine/src/lib.rs:973-986 | replaying rows that are already on disk is rejected: always under PRIMARY KEY, under UNIQUE if and only if one of them has a key without nulls |
| Uniqueness.ReplayedTwice | crates/engine/src/lib.rs:973-986 | accepted rows are accepted a second time if and only if each has a NULL in every key of the table |
| Uniqueness.SharedEntryCompares | crates/engine/src/lib.rs:6300-6382 | if two UNIQUE constraints have one name, the lookup for one compares its columns with the other's on disk |
| Uniqueness.SharedEntryMisleads | crates/engine/src/lib.rs:6300-6382 | so a key that is on disk can pass and one that is not can be rejected |
| Uniqueness.MergeAgrees | crates/engine/src/lib.rs:6350-6358 | adding the written tuples to a cached key set gives the key set of the longer table |
| Uniqueness.LookupIsClashTest | crates/engine/src/lib.rs:6360-6382 | looking tuples up in the cached strings decides whether a new row clashes with one on disk |
| Uniqueness.CollectTuples | crates/engine/src/lib.rs:6423-6509 | the scan of the batches fails exactly on a null in a primary key or a key that occurs twice, and returns the tuples to look up |
| Uniqueness.ScanRow | crates/engine/src/lib.rs:6423-6509 | one row of that scan: it fails only if the whole insert must fail |
| InsertPath.ApplyMergesAt | crates/engine/src/lib.rs:6350-6358 | the merges of a table add to each constraint's entry the tuples of that constraint and no others |
| InsertPath.WriteKeepsAgreement | crates/engine/src/lib.rs:1436-1483 | writing accepted rows and merging their tuples keeps every cached set equal to the key strings on disk |
| InsertPath.WrittenRows | crates/engine/src/lib.rs:1436-1483 | the write of a flush keeps cache and buffers in agreement with the disk and the keys of every table in order |
| InsertPath.ReplacedRows | crates/engine/src/lib.rs:1902-1983 | new rows for a table keep cache and buffers in agreement, and the keys of the tables in order if and only if those of the new rows are |
| InsertPath.Engine.AllKeysHold | crates/engine/src/lib.rs:1324-1390 | in every state the methods leave behind, the rows of a table on disk and in the buffer together have no key twice and no NULL in a primary key |
| InsertPath.Engine.EnsureUniquenessLoaded | crates/engine/src/lib.rs:6316-6348 | a set is loaded once, from the rows on disk |
| InsertPath.Engine.MergeUniquenessKeys | crates/engine/src/lib.rs:6350-6358 | the loop over tuples is the merge of the specification, which makes an absent entry |
| InsertPath.Engine.CheckAgainstTableCached | crates/engine/src/lib.rs:6360-6382 | the lookup succeeds exactly if no tuple is among the keys on disk, and the cache agrees with the disk afterwards |
| InsertPath.Engine.ValidateConstraint | crates/engine/src/lib.rs:6384-6524 | accepts exactly the rows that may join the table under this constraint, whatever the cache holds |
| InsertPath.Engine.ValidateConstraintsBatch | crates/engine/src/lib.rs:6384-6524 | accepts exactly the rows that may join the table under all its constraints, and returns the merges for them |
| InsertPath.Engine.FlushTable | crates/engine/src/lib.rs:1413-1494 | writes exactly the buffered rows and drops their WAL; the second validation cannot fail for rows accepted before |
| InsertPath.Engine.StageBatches | crates/engine/src/lib.rs:1324-1390 | a rejected insert leaves the entry's batches, row count and byte count as they were, and an entry without rows if there was none |
| InsertPath.Engine.BufferInsertBatches | crates/engine/src/lib.rs:1303-1411 | accepts exactly admissible rows, keeps the keys on disk and in the buffer in order, flushes at a threshold, and performs exactly the micro-steps of the crash protocol; on rejection rows, WAL and cache agreement stay, and the table has an entry in the buffer, perhaps without rows |
| InsertPath.Engine.FlushBufferedForSql | crates/engine/src/lib.rs:1547-1568 | flushes the buffer entries the text mentions, empty ones counting as well, or all if it mentions none: their rows are on disk behind the older ones, their WAL is gone, nothing else has changed, and the change is a run of the crash protocol |
| InsertPath.Engine.Checkpoint | crates/engine/src/lib.rs:1280-1295 | the same flush, then an empty WAL, as a run of the crash protocol; all buffered rows are on disk if and only if the text mentions none of the buffer entries, or all that have rows |
| InsertPath.RejectedInsertThenCheckpoint | crates/engine/src/lib.rs:1374-1390 | on the engine: INSERT into `orders` is answered, INSERT of a NULL key into `t` is rejected, and after CHECKPOINT the rows of `orders` are neither on disk nor in the WAL |
| InsertPath.Engine.ReplayTable | crates/engine/src/lib.rs:1303-1411 | recovered rows are not logged again, and are on disk if and only if validation accepts them |
| InsertPath.Engine.ReplayWal | crates/engine/src/lib.rs:973-986 | start-up succeeds if and only if validation accepts the WAL rows of each table; they are then on disk behind the others, by the steps of the crash protocol, and if it fails the next start-up fails too |
| InsertPath.Engine.RewriteTable | crates/engine/src/lib.rs:1902-1983 | replaces the rows and invalidates the table's cache entries; the keys of the table are in order afterwards if and only if those of the new rows are |
| InsertPath.Engine.TruncateTable | crates/engine/src/lib.rs:4472-4494 | empties the table and keeps the cache in agreement |
| InsertPath.Engine.DropTable | crates/engine/src/lib.rs:4273-4312 | removes the table and keeps the cache in agreement, also for a later table of that name |
| TransactionTheorems.SavepointTheorem | crates/engine/src/lib.rs:2154-2263 | after any nesting of appends, CREATE TABLE, SAVEPOINT, RELEASE and ROLLBACK TO, ROLLBACK TO restores exactly the catalog and files of the latest surviving savepoint of that name, keeps it and older ones and drops newer ones in the engine's stack, and can be repeated |
| TransactionTheorems.ReleaseTheorem | crates/engine/src/lib.rs:2266-2281 | RELEASE forgets the latest savepoint of that name and the newer ones, keeps the older ones, changes neither catalog nor files, and does not change what ROLLBACK goes back to |
| TransactionTheorems.RollbackAfterAppends | crates/engine/src/lib.rs:2099-2151 | a ROLLBACK after appends goes back to BEGIN or to the last ROLLBACK TO, and stores the restored catalog |
| TransactionTheorems.RevertToCopy | crates/engine/src/lib.rs:2107-2127 | deleting the files and tables an older copy does not know gives exactly that copy |
| RollbackTheorems.FullRollback | crates/engine/src/lib.rs:2099-2151 | ROLLBACK without ROLLBACK TO: a table only appended to or dropped has its BEGIN files again, a rewritten one the rows of its first rewrite, which are the BEGIN rows if and only if nothing was appended before; rows still in the write buffer are the matter of `BufferedTransactions` |
| RollbackTheorems.RollbackCatalog | crates/engine/src/lib.rs:2129-2151 | the catalog after ROLLBACK is the BEGIN catalog but for the file lists of rewritten tables, and it is stored |
| RollbackTheorems.StoredCatalog | crates/catalog/src/lib.rs:398-432 | from BEGIN on the stored catalog stays that of BEGIN, whatever the statements, until COMMIT stores the one in memory |
| RollbackTheorems.SyncedStep | crates/engine/src/lib.rs:2516-2541 | step: outside transactions every statement ends with its catalog stored (SAVEPOINT, ROLLBACK TO and RELEASE fail there and change nothing); inside, only COMMIT and ROLLBACK store it |
| RollbackTheorems.BackupEffect | crates/engine/src/lib.rs:2024-2038 | step: a backup is taken at the first rewrite of a table in a transaction and never again |
| RollbackTheorems.StorageEffect | crates/engine/src/lib.rs:1902-1983 | step: what each statement does to one table's files, and that it leaves the other tables alone |
| RollbackTheorems.CommitFiles | crates/engine/src/lib.rs:2070-2095 | step: COMMIT deletes the files of the tables on the deferred list, whatever the catalog says of them |
| SavepointRows.RollbackToExact | crates/engine/src/lib.rs:2188-2263 | for every run inside a transaction, earlier ROLLBACK TOs, rewrites and drops included, ROLLBACK TO gives a table the rows its files had at the savepoint if and only if either it had a backup there that equals those rows, or it had none and was neither rewritten nor discarded since (or was empty); the rest of the catalog is that of the savepoint; buffered rows are the matter of `BufferedTransactions` |
| SavepointRows.BackedSinceBegin | crates/engine/src/lib.rs:2024-2038 | before any ROLLBACK TO that backup is the rows of BEGIN and those appended before the first rewrite |
| SavepointRows.RollbackToStore | crates/engine/src/lib.rs:2188-2263 | step: the files of one table after ROLLBACK TO, in every state |
| SavepointRows.RollbackToCatalog | crates/engine/src/lib.rs:2188-2263 | step: the catalog after ROLLBACK TO, in every state |
| SavepointRows.DeleteThenSavepoint | crates/engine/src/lib.rs:2203-2243 | DELETE, SAVEPOINT and ROLLBACK TO with nothing in between bring the deleted rows back |
| SavepointRows.SavepointThenDelete | crates/engine/src/lib.rs:2203-2243 | SAVEPOINT, DELETE and ROLLBACK TO leave the table empty |
| SavepointRows.RollbackAfterRollbackTo | crates/engine/src/lib.rs:2245-2258 | a ROLLBACK after a ROLLBACK TO, with any statements before and after it, undoes only what came after the ROLLBACK TO |
| SavepointRows.CommitKeepsFiles | crates/engine/src/lib.rs:2070-2095 | COMMIT keeps a table's files if and only if no statement of the transaction dropped a table of that name, or there are none |
| SavepointRows.DropThenRollbackTo | crates/engine/src/lib.rs:2070-2095 | SAVEPOINT, DROP TABLE, ROLLBACK TO and COMMIT leave the table in the catalog without its files |
| SavepointRows.RunWritesRows | crates/engine/src/lib.rs:1902-1983 | no statement of a transaction writes a file without rows, so a table without rows has no files |
| CommitTheorems.CommitEnds | crates/engine/src/lib.rs:2070-2095 | COMMIT ends the transaction, whatever was done in it: the catalogue in memory is stored, BEGIN works again, and COMMIT, ROLLBACK, SAVEPOINT, ROLLBACK TO and RELEASE fail and change nothing |
| CommitTheorems.NoNestedBegin | crates/engine/src/lib.rs:2043-2046 | at any point of a transaction BEGIN fails and changes nothing |
| CommitTheorems.StoresExactly | crates/engine/src/lib.rs:2505-2541 | step: which statements store the catalogue, in every state |
| CommitTheorems.RollbackAfterCommit | crates/engine/src/lib.rs:2070-2151 | a transaction after a COMMIT that ends with ROLLBACK goes back to what COMMIT left, and not to the BEGIN before it |
| CatalogRuns.CatalogOfRun | crates/catalog/src/lib.rs:498-545 | through any statements but ROLLBACK and ROLLBACK TO, a table is in the catalog with the columns of the CREATE TABLE that made it until a DROP TABLE, an index goes with its table and not otherwise, and other entries have the value last set |
| CatalogRuns.RollbackLists | crates/engine/src/lib.rs:2099-2151 | after ROLLBACK the catalog lists exactly the files of each table, rewritten tables included |
| CatalogRuns.CommitListsExactly | crates/engine/src/lib.rs:2070-2095 | after COMMIT it does if and only if the transaction did not drop a table of that name, or there is none now, or it has no files |
| CatalogRuns.RollbackToListsExactly | crates/engine/src/lib.rs:2188-2263 | after ROLLBACK TO it does if and only if the table comes back with the files of the savepoint, or had a backup there |
| CatalogRuns.RecreatedOutside | crates/engine/src/lib.rs:4273-4312 | DROP TABLE and CREATE TABLE outside a transaction leave an empty table |
| CatalogRuns.RecreatedInside | crates/engine/src/lib.rs:4300-4312 | inside one the new table has the files of the old one until COMMIT deletes them |
| BufferedTransactions.RollbackUndoesInserts | crates/engine/src/lib.rs:1547-1568 | ROLLBACK undoes the INSERTs of a transaction that rewrites nothing if and only if its text mentions none of the buffer entries, those of rejected INSERTs included, or every table of BEGIN that has buffered rows |
| BufferedTransactions.RejectionKeepsRowsOfX | crates/engine/src/lib.rs:1374-1390 | with rows buffered for `x`, ROLLBACK undoes them; after a rejected INSERT into `a` it keeps them |
| BufferedTransactions.RollbackAndBuffer | crates/engine/src/lib.rs:2099-2151 | a table of BEGIN will hold, once everything is flushed, its rows of BEGIN, those appended before its first rewrite, and the buffered rows that the flush before ROLLBACK passed over |
| BufferedTransactions.BeginThenRollbackExact | crates/engine/src/lib.rs:2412-2424 | BEGIN and ROLLBACK with nothing in between keep the rows of a table answered before if and only if BEGIN left none of them buffered or ROLLBACK passed its entry over, empty entries deciding with the others what each of the two flushes takes |
| BufferedTransactions.BeginRollbackLosesRows | crates/engine/src/lib.rs:1547-1568 | with rows buffered for `a` and an entry for `b`, perhaps without rows, BEGIN and ROLLBACK lose the rows of `a` |
| BufferedTransactions.BufferedTablesExist | crates/engine/src/lib.rs:1413-1416 | inside a transaction without ROLLBACK TO the buffer holds rows of existing tables only, so no flush fails for want of its table |
| BufferedTransactions.SessionIsRun | crates/engine/src/lib.rs:2412-2424 | buffered INSERTs, accepted or rejected, and selective flushes, up to the first that fails, are a run of the transaction model |
| BufferedTransactions.RollbackToAndBuffer | crates/engine/src/lib.rs:2188-2263 | a table of the savepoint will hold, once everything is flushed, what ROLLBACK TO leaves in its files and the buffered rows that the flush before it passed over, from before the savepoint and after |
| BufferedTransactions.SavepointToRollbackTo | crates/engine/src/lib.rs:2188-2263 | SAVEPOINT, any requests, ROLLBACK TO: a table that was not rewritten will hold what it was to hold at the savepoint if and only if its rows left in the buffer are those that SAVEPOINT left there |
| BufferedTransactions.SavepointThenRollbackToExact | crates/engine/src/lib.rs:2516-2530 | with nothing in between: if and only if SAVEPOINT left none of its rows buffered, or ROLLBACK TO passes its entry over |
| BufferedTransactions.SavepointLosesRows | crates/engine/src/lib.rs:2516-2530 | INSERT into `x` and into `t`, SAVEPOINT S, ROLLBACK TO S: the rows of `x` from before the savepoint are lost |
| BufferedTransactions.CommitKeepsRows | crates/engine/src/lib.rs:2070-2095 | COMMIT leaves nothing buffered, whatever its text mentions, and every row answered before BEGIN or in the transaction is in the files of its table, unless a statement dropped that |
| TransactionEngine.Engine.BeginTransaction | crates/engine/src/lib.rs:2043-2067 | the step-by-step handler has the effect of the specified statement, errors included |
| TransactionEngine.Engine.CommitTransaction | crates/engine/src/lib.rs:2070-2095 | the loop over deferred deletes and the store write have the effect of the specified statement |
| TransactionEngine.Engine.RollbackTransaction | crates/engine/src/lib.rs:2099-2151 | file deletion, catalog restore and writing back of backups, in this order, have the effect of the specified statement |
| TransactionEngine.Engine.AddSavepoint | crates/engine/src/lib.rs:2154-2185 | pushes a savepoint of the catalog, the files and the backups as they are |
| TransactionEngine.Engine.RollbackToSavepoint | crates/engine/src/lib.rs:2188-2263 | the handler has the effect of the specified statement, the re-basing of the transaction included |
| TransactionEngine.Engine.ReleaseSavepoint | crates/engine/src/lib.rs:2266-2281 | truncates the stack at the latest savepoint of that name |
| TransactionEngine.Engine.UpdateOrDelete | crates/engine/src/lib.rs:1902-2038 | backup before the first rewrite, then the rewrite |
| TransactionEngine.Engine.Drop | crates/engine/src/lib.rs:4273-4312 | inside a transaction the files stay until COMMIT |
| TransactionEngine.Engine.Execute | crates/engine/src/lib.rs:2516-2541 | one statement on the fields has exactly the effect the theorems are about: the handler, then a store of a changed catalog, after a failure too, except after SAVEPOINT, ROLLBACK TO and RELEASE |
| SplitSubqueries.SplitPreserves | crates/engine/src/lib.rs:304-371 | one application yields a valid plan with the same value at every position of every row |
| SplitSubqueries.RewriteSucceedsExactly | crates/engine/src/lib.rs:304-371 | the rule fails if and only if the input has a column of the name it makes up, or another output has the name that the split one goes by afterwards, its relation dropped |
| SplitSubqueries.HasSubqueryExact | crates/engine/src/lib.rs:313-326 | the search finds an expression if and only if a path through aliases and arguments leads to a scalar subquery in it |
| SplitSubqueries.CountExact | crates/engine/src/lib.rs:313-334 | the rule counts at most one if and only if no two expressions bear a subquery, and the one it splits is the first that does |
| SplitSubqueries.RewriteLeavesExactly | crates/engine/src/lib.rs:328-330 | a projection is left alone if and only if at most one of its expressions bears a subquery |
| SplitSubqueries.SplitNames | crates/engine/src/lib.rs:350-371 | step: the split output keeps its alias without the relation, or takes the made-up name; the other outputs are as they were |
| SplitSubqueries.OuterCount | crates/engine/src/lib.rs:308-371 | each application leaves one subquery-bearing expression fewer |
| SplitSubqueries.SplitAllPreserves | crates/engine/src/lib.rs:284-371 | repeated application terminates, without a clash if and only if each position to be split finds its names free in its turn; it then preserves every row, leaves at most one subquery-bearing expression in each projection, and keeps the output names but for split ones without an alias |
| SplitSubqueries.PairKeepsValues | crates/engine/src/lib.rs:308-371 | two subqueries over one row, one of them under an operator: the plan is split, and its row holds their values, each from its own columns in their order |
| SqlLexer.SplitSqlStatements | crates/engine/src/lib.rs:8086-8177 | the loop splits a text as its lexical structure says |
| SqlLexer.StripSqlComments | crates/tui/src/lib.rs:2134-2204 | the loop returns the text with comments replaced, as the same lexical structure says |
| SqlLexer.ScriptExact | crates/engine/src/lib.rs:8086-8177 | the concatenation of some statements splits back into them if and only if they are trimmed, comment-free and terminated, the last perhaps not |
| SqlLexer.SplitGivesScript | crates/engine/src/lib.rs:8086-8177 | every text splits into such statements |
| SqlLexer.SplitFixpoint | crates/engine/src/lib.rs:8086-8177 | splitting the concatenated output gives the same list |
| SqlLexer.EmittedStatement | crates/engine/src/lib.rs:8086-8177 | an emitted statement has no comment outside quotes and no terminator but its last character |
| SqlLexer.StripThenSplit | crates/tui/src/lib.rs:2134-2204 | stripping comments first does not change the statements, and stripping twice is stripping once |
| SqlLexer.LexIsWellLexed | crates/engine/src/lib.rs:8086-8177 | replacing comments creates no new comment and no new literal |
| SqlLexer.NestedComment | crates/engine/src/lib.rs:8086-8177 | a block comment reads as one space, however deeply comments nest in it |
| SqlLexer.LineComment | crates/engine/src/lib.rs:8115-8124 | a line comment reads as one space and ends at its newline, or at the end of the text, where it reads as nothing |
| SqlLexer.SplitsOff | crates/engine/src/lib.rs:8086-8177 | complete statements are split off unchanged, whatever text follows them |
| SqlLexer.CommentsBetween | crates/engine/src/lib.rs:8115-8150 | a line comment or a block comment between complete statements does not change what is split |
| SqlLexer.LiteralIsVerbatim | crates/engine/src/lib.rs:8086-8177 | any string printed as a literal is read verbatim, whatever quotes, semicolons and comment marks it holds |
| ArgLists.SplitTopLevelCsv | crates/engine/src/lib.rs:7220-7267 | the loop, which reads `''` as an escape, splits as toggling at every quote would |
| ArgLists.FindMatchingParen | crates/engine/src/lib.rs:7269-7293 | the loop returns the parenthesis that brings the depth to zero, or nothing |
| ArgLists.CsvExact | crates/engine/src/lib.rs:7220-7267 | splitting the comma join of some texts returns them if and only if they are trimmed, not empty, without a top-level comma, and all but the last close what they open |
| ArgLists.CsvTrims | crates/engine/src/lib.rs:7220-7267 | the items are the texts between the top-level commas, without the spaces around them; empty ones are left out |
| ArgLists.MatchingParenExact | crates/engine/src/lib.rs:7269-7293 | the partner found for an opening parenthesis is the one behind the body if and only if the body is balanced with its literals closed |
| ArgLists.CallRoundTrip | crates/engine/src/lib.rs:7220-7293 | matcher and splitter together read back the arguments of any call |
| ArgLists.LiteralIsArgument | crates/engine/src/lib.rs:7220-7293 | any string printed as a literal is one argument, whatever commas, quotes and parentheses it holds |
| ArgLists.NestedArgument | crates/engine/src/lib.rs:7220-7293 | a text of characters, groups in parentheses and printed strings is one argument if and only if no comma stands outside the groups and strings; the matcher finds its end |
| ArgLists.EscapeIsToggle | crates/engine/src/lib.rs:7220-7293 | the two ways of reading a quoted literal agree |
| Placeholders.SubstituteParameters | crates/engine/src/lib.rs:6896-6927 | the loop replaces each placeholder in range once; inserted text is never looked at again |
| Placeholders.PiecesReadTemplate | crates/engine/src/lib.rs:6896-6927 | the placeholders are read from the template alone, digits taken maximally, and nothing is lost |
| Binders.BindPortalSql | crates/server/src/lib.rs:264-285 | the reverse loop of replacements is the specified sequence of replacements |
| Binders.ServerByPieces | crates/server/src/lib.rs:264-285 | if no placeholder directly behind a `$` can turn into digits, repeated replacement treats each placeholder alone and takes its longest prefix in range |
| Binders.BindersAgree | crates/engine/src/lib.rs:6896-6927 | then, with numbers that neither hide behind a zero nor show a smaller parameter, both binders give the same text for the values at hand, empty ones and digits included, if no value inserted before the last replacement has a `$` |
| Binders.BindersAgreeExactly | crates/server/src/lib.rs:264-285 | for values that are not empty that condition on the numbers is exact |
| Binders.TemplateSafeExactly | crates/server/src/lib.rs:264-285 | both binders agree on a template for all values without `$` if and only if its numbers are unambiguous and no placeholder directly behind a `$` is replaced while digits could still continue that `$` |
| Binders.TemplateSafeForAllValues | crates/server/src/lib.rs:264-285 | they agree for all values, those with `$` included, if and only if in addition the template asks for no parameter but `$1` |
| Binders.PlainTemplatesAgree | crates/server/src/lib.rs:264-285 | so they agree on every template whose placeholders are in range, without leading zero and not followed by `$` |
| Binders.MeetingDiffers | crates/server/src/lib.rs:264-285 | a template in which a placeholder meets a `$` too early, with values that make the binders differ |
| Binders.DollarInValue | crates/server/src/lib.rs:264-285 | a value with a `$` makes them differ |
| Binders.DigitsBehindDollar | crates/server/src/lib.rs:264-285 | digits inserted behind a `$` make them differ |
| Sequences.AscendingAnswers | crates/catalog/src/lib.rs:661-682 | an ascending sequence answers start + k·step for k below the rounded-down quotient of range and step (none if the first step misses the minimum), then fails for ever without changing |
| Sequences.AnswersIncrease | crates/catalog/src/lib.rs:661-682 | no answer is given twice |
| Sequences.UnboundedAnswers | crates/catalog/src/lib.rs:661-682 | without a maximum, or with the largest one, it never fails and repeats the largest number |
| Sequences.DrawsLeftToRight | crates/engine/src/lib.rs:1595-1621 | the i-th call gets the answer numbered by the calls of that sequence on its left |
| Sequences.DrawLeaves | crates/engine/src/lib.rs:1595-1621 | each sequence has moved by one answer per call that names it |
| Sequences.PiecesReadText | crates/engine/src/lib.rs:1595-1621 | the calls are read from the text before any value is drawn, and nothing is lost |
| Sequences.OpensExact | crates/engine/src/lib.rs:1595-1606 | a call begins where the text reads `nextval(` and a quote, in whatever case, and a quote and a closing parenthesis follow |
| Sequences.CallIsRead | crates/engine/src/lib.rs:1595-1606 | it is read up to the first quote with a closing parenthesis behind it, with the text between as its name, and reading goes on behind it |
| Sequences.CatalogState.NextSequenceValue | crates/catalog/src/lib.rs:661-682 | one draw: its answer and the new state, unchanged on failure |
| Sequences.CatalogState.ExpandNextvalCalls | crates/engine/src/lib.rs:1595-1621 | the search-and-replace loop gives each call its own draw, leaves the other text as it is, and on a failure keeps the draws before it |
| ForeignKeys.Engine.HandleDelete | crates/engine/src/lib.rs:4527-4681 | the handler acts on the foreign keys in turn, stops at the first refusal with the earlier rewrites in place, and otherwise removes the parent rows |
| ForeignKeys.Engine.RunAction | crates/engine/src/lib.rs:4559-4633 | what one foreign key does, and that it does nothing when no child refers to a deleted key |
| ForeignKeys.ActEffect | crates/engine/src/lib.rs:4559-4633 | whichever action runs, the deleted keys leave the child column and no key appears anywhere |
| ForeignKeys.ActRefusesExactly | crates/engine/src/lib.rs:4559-4633 | a foreign key refuses if and only if it restricts and a row to be deleted has a child; where no such row has one, no action changes anything |
| ForeignKeys.SetNullExact | crates/engine/src/lib.rs:4598-4625 | SET NULL changes the key cell of the children of deleted keys and no other cell of any row |
| ForeignKeys.WhereCounts | crates/engine/src/lib.rs:4588-4597 | the keep-queries keep a row as often as it was there, or drop all its copies |
| ForeignKeys.DeletedRows | crates/engine/src/lib.rs:4649-4681 | a parent row stays if and only if its condition is false |
| ForeignKeys.DeleteKeepsKeyExactly | crates/engine/src/lib.rs:4527-4681 | a completed DELETE keeps a foreign key intact if and only if no child left refers to a key that only rows of unknown condition held |
| ForeignKeys.DeleteKeepsKeyCheckable | crates/engine/src/lib.rs:4527-4681 | the same in terms of the state before, for a child with one foreign key to the parent |
| ForeignKeys.DeleteKeepsIntegrity | crates/engine/src/lib.rs:4527-4681 | with a condition that is never unknown and children nobody refers to, every foreign key stays intact for any mix of actions, also when RESTRICT stops midway |
| ForeignKeys.DeleteRefusedExactly | crates/engine/src/lib.rs:4559-4648 | a DELETE is refused if and only if one of the foreign keys, with the tables as the ones before it left them, restricts and a row to be deleted has a child |
| ForeignKeys.DeleteRefusedCheckable | crates/engine/src/lib.rs:4559-4648 | the same on the state before the statement, if no child under RESTRICT is rewritten by another foreign key |
| ForeignKeys.RestrictKeepsChild | crates/engine/src/lib.rs:4626-4631 | a child whose foreign keys to the table all restrict has exactly its rows of before, whether the DELETE completes or not |
| ForeignKeys.AllRestrict | crates/engine/src/lib.rs:4626-4631 | if all foreign keys to the table restrict, a DELETE is refused if and only if a row to be deleted has a child, and then changes nothing |
| ForeignKeys.CascadeDropsKeylessChildren | crates/engine/src/lib.rs:4588-4597 | a child survives a CASCADE that acts if and only if it has a key and the key is not deleted |
| ForeignKeys.CascadeKeepsGrandchildExactly | crates/engine/src/lib.rs:4588-4597 | a foreign key to a child that CASCADE shortens stays intact if and only if no row left in its own table refers to a key that only dropped rows of the child held |
| ForeignKeys.CascadeOrphans | crates/engine/src/lib.rs:4588-4597 | parent, child and grandchild with one row each: the grandchild is orphaned |
| ForeignKeys.UnknownOrphans | crates/engine/src/lib.rs:4649-4681 | a DELETE with an unknown condition that leaves a child without its parent |
| Upsert.Engine.HandleUpsert | crates/engine/src/lib.rs:5578-5815 | the handler's rows and counts are those of the specification; a validation that fails after the write makes it return an error and leaves the rows written; without source rows nothing is validated |
| Upsert.SplitByKey | crates/engine/src/lib.rs:5697-5705 | the loop separates source rows whose key the table holds from the others, in order |
| Upsert.CountsAddUp | crates/engine/src/lib.rs:5697-5815 | inserted, updated and skipped add up to the source rows, and the table grows by the inserted ones |
| Upsert.ExistingExact | crates/engine/src/lib.rs:5655-5695 | comparing key strings finds a conflict if and only if the table has the row's key |
| Upsert.InsertedUntouched | crates/engine/src/lib.rs:5711-5815 | DO UPDATE, which runs over the whole table, never changes a row just inserted |
| Upsert.UpdatedRow | crates/engine/src/lib.rs:5733-5806 | an old row gets, cell by cell, the values assigned from the source row that has its key and meets the WHERE, keeps its other cells, and is unchanged without such a row |
| Upsert.NullKeyIsInserted | crates/engine/src/lib.rs:5655-5705 | a source row with a NULL in its key conflicts with no row and is inserted |
| Upsert.DoNothingKeepsRows | crates/engine/src/lib.rs:5730-5732 | step: DO NOTHING leaves every old row in its place |
| Upsert.KeysAfter | crates/engine/src/lib.rs:5655-5815 | the keys afterwards are the old keys and the source's |
| Upsert.UniquenessExact | crates/engine/src/lib.rs:5655-5815 | unique keys stay unique if and only if no new key is given twice |
| Indexes.Catalog.HandleCreateIndex | crates/engine/src/lib.rs:4144-4230 | the new index is its table's primary and the others are demoted; errors change nothing |
| Indexes.Catalog.HandleDropIndex | crates/engine/src/lib.rs:4315-4357 | promotes one of the remaining indexes exactly when the table lost its primary |
| Indexes.RunConsistent | crates/engine/src/lib.rs:4217-4357 | in every run of index and table statements and renames, in transactions with any nesting of savepoints, every index names a table, each indexed table has exactly one primary, and only that one is not logical |
| Indexes.RunLast | crates/engine/src/lib.rs:4144-4357 | step: a run takes its statements one after the other |
| Indexes.OneDeclaredOrder | crates/engine/src/lib.rs:1775-1790 | so an indexed table is always registered with exactly one sort order |
| Indexes.PrimaryStays | crates/engine/src/lib.rs:4217-4357 | which index is primary after a statement that restores nothing: a new one at once in place of the old, the old one while it is there, and when it is dropped one of the others of its table |
| Indexes.DefinitionsStay | crates/engine/src/lib.rs:4217-4357 | step: a restore brings back the definitions of its snapshot; no other statement changes the columns of an index, and only a rename moves it, with its table |
| Indexes.IndexesStay | crates/catalog/src/lib.rs:456-545 | step: after a restore the indexes are those of the snapshot; otherwise one disappears exactly by DROP INDEX or with its table and comes by CREATE INDEX only |
| Indexes.NewIndex | crates/engine/src/lib.rs:4144-4230 | step: a new index is on the table and columns of its statement and declares the order |
| Indexes.TablesAfter | crates/catalog/src/lib.rs:498-545 | step: which tables there are after a statement, with which columns |
| Indexes.TransactionEnds | crates/engine/src/lib.rs:2070-2151 | ROLLBACK brings the catalogue of BEGIN back and COMMIT keeps the one of then; after either a ROLLBACK changes nothing |
| Indexes.SavepointReturns | crates/engine/src/lib.rs:2188-2263 | ROLLBACK TO brings the catalogue of its SAVEPOINT back, and a ROLLBACK after it goes no further back |
| Indexes.OutOfPlace | crates/engine/src/lib.rs:2154-2281 | step: outside a transaction SAVEPOINT, ROLLBACK TO and ROLLBACK change nothing, inside one BEGIN does, and RELEASE shortens the stack and changes nothing else |
| Migrations.Engine.HandleCreateMigration | crates/engine/src/lib.rs:3772-3814 | registers a new version or refuses a known one without change |
| Migrations.Engine.HandleMigrate | crates/engine/src/lib.rs:3816-3870 | the loop applies the pending migrations in order and stops at the first body that fails, the earlier ones applied |
| Migrations.CreateSorts | crates/engine/src/lib.rs:3799-3810 | a new version is sorted into its place and nothing else changes |
| Migrations.RunValid | crates/engine/src/lib.rs:3799-3863 | in every run of one process versions stay sorted and distinct, the schema version does not go down, and each version succeeds at most once, in ascending order |
| Migrations.RunLast | crates/engine/src/lib.rs:3772-3870 | step: a run takes its statements one after the other |
| Migrations.MigrateComplete | crates/engine/src/lib.rs:3831-3863 | a MIGRATE that succeeds runs exactly the pending versions up to its target and leaves none |
| Migrations.LateVersionNeverRuns | crates/engine/src/lib.rs:3831-3863 | a version at or below the schema version that has not run never will |
| Migrations.ReopenRepeatsExactly | crates/engine/src/lib.rs:3831-3870 | over all events, a version that has succeeded is run again after a reopen if and only if its own MIGRATE failed at a later version and nothing has stored the catalogue since |
| Migrations.OnceAcrossReopens | crates/engine/src/lib.rs:3831-3870 | over every run with reopens that find the catalogue stored, each version succeeds at most once, in ascending order |
| Migrations.LostRunsTwice | crates/engine/src/lib.rs:3831-3870 | after a reopen that loses a success, a MIGRATE whose bodies all run makes that version succeed a second time |
| Migrations.FirstIsLost | crates/engine/src/lib.rs:3831-3870 | two migrations of which the second fails: the success of the first is not stored |

## Left out

- DataFusion, Parquet, Arrow IPC, S3 and the file system are maps and row sequences; there are no I/O errors but an explicit crash.
- The statement WAL (`Wal`) is not part of this model.
- fsync policy: a WAL append or Parquet write is durable when the call returns. Writing a WAL file and removing a WAL directory are single steps; a torn WAL file, which makes `recover` return an error, does not occur.
- CrashProtocol.RecoveryCompletes: covers tables without PRIMARY KEY and UNIQUE; with keys, ConstrainedRecovery.RecoveryExact says exactly when start-up succeeds.
- CrashProtocol.CrashThenRestart: covers tables without PRIMARY KEY and UNIQUE; with keys, ConstrainedRecovery.CrashExact does.
- The WAL counter is unbounded; the overflow of the 64-bit number is not modelled.
- ArrowWalLog.WalRefinement: table names are directory names. A name with a path separator nests directories, of which `recover` reads the first level only.
- Auto-compaction, which deletes a table's files before it writes them back, is outside every run; so are the file deletions of VACUUM.
- Inserts with a column list, RETURNING, NOT NULL, CHECK and foreign-key checks of inserted rows.
- InsertPath.Engine.ValidateConstraintsBatch: requires that constraints sharing a cache entry are equal, because otherwise its answer is wrong (Uniqueness.SharedEntryMisleads), and that names hold no unit separator, because the source's cache key is a text joined by it.
- InsertPath.Engine.RewriteTable: is the replacement of the rows alone; the validation that UPDATE runs afterwards reports a violation and leaves the rows.
- CrashProtocol.CheckpointStatementExact: compares names after mapping ASCII letters to upper case; other letters are compared as they are.
- Floats, decimals, UUIDs, dates and binary values in keys; only NULL, integers, booleans and strings are modelled.
- Uniqueness-cache bypasses: upserts and MERGE write without merging into the cache; an immediate insert merges, but is not modelled while rows of its table are buffered.
- Transactions: TRUNCATE, MERGE, upsert, RENAME and the child rewrites of foreign keys take no backup and are not statements of the transaction model.
- RollbackTheorems.FullRollback: assumes that nothing is buffered; BufferedTransactions.RollbackAndBuffer says what the buffer adds.
- SavepointRows.RollbackToExact: assumes that nothing is buffered at SAVEPOINT and at ROLLBACK TO; BufferedTransactions.RollbackToAndBuffer says what the buffer adds.
- RollbackTheorems.SyncedStep: an INSERT and the flush of a buffer entry are statements of their own here, each of which stores the catalog. The source stores it once, at the end of the statement that caused the flush, and after SAVEPOINT, ROLLBACK TO and RELEASE outside a transaction only at the end of the next one.
- BufferedTransactions.RollbackUndoesInserts: covers transactions without ROLLBACK TO and rewrites; with rewrites, BufferedTransactions.RollbackAndBuffer gives the rows.
- TransactionTheorems.SavepointTheorem: restores files and not only rows, and so covers runs without rewrites and drops; SavepointRows.RollbackToExact says for all runs which rows come back. Both are about flushed rows.
- BufferedTransactions.SavepointToRollbackTo: is about tables without a backup at the savepoint that were neither rewritten nor discarded since; for the others BufferedTransactions.RollbackToAndBuffer gives the rows.
- SplitSubqueries.SplitAllPreserves: applies the rule as often as there is something to split; the source stops when the optimizer has made its number of passes.
- SplitSubqueries: correlated subqueries see the values of their outer references; their plans are opaque, and only Projection nodes over an arbitrary source are modelled.
- SqlLexer.SplitSqlStatements: the comment depth is unbounded where the source has 32 bits; the three scanners of a turn are methods of their own where the source repeats them inline.
- Positions are character positions; the source's byte positions are the same for ASCII text, and `Placeholders`, `Binders` and `Sequences` are about ASCII text.
- Binders.BindersAgreeExactly: for one given list of values with empty ones or a `$` among them, only agreement is proved; Binders.TemplateSafeExactly and Binders.TemplateSafeForAllValues are exact over all values. `format_portal_param` is not modelled; both binders are given the same printed values.
- Sequences.AscendingAnswers: states the case of a positive increment; a negative one mirrors it.
- Foreign keys of several columns, which DELETE ignores; triggers, CDC events, RETURNING and the statement log of DELETE.
- ForeignKeys.Engine.HandleDelete: conditions depend on the row alone; a condition with a subquery over a child table, which the source evaluates again after that child's rewrite, is not modelled.
- ForeignKeys.DeleteKeepsIntegrity: excludes tables that refer to themselves and children that are referred to, because CASCADE goes one level deep; ForeignKeys.CascadeKeepsGrandchildExactly says what becomes of a key that refers to the child of a CASCADE.
- Upsert: the textual replacement of `EXCLUDED.column` in expressions, and column defaults; the three validations after the write are opaque tests on the data.
- Indexes.Catalog.HandleDropIndex: does not model the physical order of the rows, which a promoted index claims although nothing was sorted.
- Migration bodies are opaque and hold no transaction; the time stamp of a migration is a mark. ROLLBACK, which restores the migrations of BEGIN, is not a statement of that model.
- UDF bodies, full-text rewriting, DO blocks, LISTEN/NOTIFY, roles, the query log, plan cache, statistics, the REPL, pgwire and FFI: plumbing or raw text replacement without a law to prove.
