# SeaORM: nested transactions, link reconciliation and Arrow conversion

A Dafny model of the parts of SeaORM whose correctness rests on state or on arithmetic:

* **Nested transactions over one SQLite connection.** A flat counter and savepoints named `sp1`, `sp2`, … stand for a
  stack of transactions. `ROLLBACK TO` leaves its savepoint on the engine's stack, so the stack and the counter drift
  apart; the invariant that still makes every call right is `SavepointRefinement.Blocks`. `Sqlite` is the engine,
  `Driver` the loaned connection, `Transaction` the handles and the callback form, `ConnectionLoan` all interleavings
  of callers.
* **The mock database** that records statements and hands out canned results (`MockDatabase`, `MockDriver`), and its
  relation to the real driver (`MockLog`) and to what a callback means (`CallbackLog`).
* **Many-to-many links** (`EstablishLinks`): a junction table brought in line with a requested list.
* **Arrow conversion**: 256-bit two's complement on bytes (`Decimal256`), decimal rescaling in 128 bits
  (`DecimalScale`), times of day (`TimeOfDay`), timestamps (`Timestamp`), what one cell stores and reads back
  (`ArrowCell`), rows to columns and back (`ArrowBatch`). The build is the one with both date libraries and both
  decimal libraries, where `from_arrow` retries date and time columns and a decimal cell is read as one of two types.
* **Keys and pages**: primary keys and updates from JSON (`ActiveModelKeys`), the loader's paginator (`Paginator`).

Contents of a database are the list of write statements in effect, so an equality of contents holds under every
interpretation of the statements. `fault` and `faults` parameters are statements the database refuses on its own
account.

Integer overflow panics in a Rust build with overflow checks and wraps in one without. `DecimalScale` describes the
first, as the `Overflow` of an extracted decimal. In `Driver` the only overflow is a commit or rollback at depth 0:
with checks it panics before anything is sent, without it names a savepoint that does not exist; the connection is
unchanged in both, and the model has the error of the second.

The values of the two date libraries are bounded by the seconds each can represent, which are parameters. Assumed of
them is that chrono's range contains that of the time crate, that both contain every instant with 64 bits of
nanoseconds, and that the microseconds of chrono's fit 64 bits. A field is set from a value of its own variant only,
and from a null only if it is an `Option`, as sea-query's conversions do.

## Where the code does not do what one would expect

Each of these is a lemma with the exact condition.

* A nested `begin` that fails rolls back a level of its parent, because the handle is dropped while marked open. It is
  harmless exactly at depth 0 (`Transaction.FailedBegin`, `Transaction.FailedBeginLosesParentWrites`). So an outermost
  transaction is all or nothing exactly if no begin it reaches fails and nothing panics
  (`Transaction.AllOrNothing`, `Transaction.LevelsKept`); what a callback writes after a swallowed failure can be
  committed although the caller sees an error (`Transaction.FailedBeginCommitsLaterWrites`). An Ok of the outermost
  transaction is still always true (`Transaction.RunOutermost`).
* A drop whose rollback is refused panics and leaves its level. The counter equals the number of open handles exactly
  when no nested begin takes a level of its parent and no drop is refused when a handle ends
  (`ConnectionLoan.DepthCountsHandles`). If it was the last handle, unwinding puts the connection back inside the open
  transaction (`ConnectionLoan.LastHandle`, `ConnectionLoan.HandedBackClean`, `ConnectionLoan.RefusedDropStrands`),
  where every later begin is refused and nothing is committed any more (`ConnectionLoan.StrandedForever`).
* A schema field of another type than its column's loses values silently: they are stored as nulls, and an optional
  field takes the nulls back, marked Set (`ArrowCell.WrongArrayLosesValue`, `ArrowCell.SevenUnderInt64`).
* A rust_decimal field does not survive its own default schema: under Decimal128(38, 10) every stored value is read as
  a big decimal, which the field refuses (`ArrowCell.DefaultDecimalsAreRefused`). A big decimal fails in every array
  whose cells rust_decimal can hold, and an optional one at every null (`ArrowCell.BigDecimalsAreRefused`). A
  date-time with an offset of its own is stored as null and then refused (`ArrowCell.OffsetsAreRefused`).
  `ArrowCell.ComesBack` has the exact condition for every field type and array type, `ArrowBatch.ThereAndBack` for a
  whole batch.
* Extracting a decimal overflows 128 bits exactly if the scales are more than 38 apart or the rescaled number does not
  fit, so the same number as a big decimal is extracted differently exactly there (`DecimalScale.RescaleIsWithScale`,
  `DecimalScale.ExtractedAlike`). The smallest decimal of scale 28 overflows under scale -11, where the result is 0
  (`DecimalScale.DecimalsOutOfReach`).
* `bigint_to_i256` rejects only magnitudes of 2^256 and more; from 2^255 on it wraps around
  (`Decimal256.EncodeIsTheResidue`, `Decimal256.WrapsAtHalf`).
* Time64 values 2^32 seconds off are accepted by the chrono path and values 256 hours off by the time-crate path
  (`TimeOfDay.ChronoAccepts`, `TimeOfDay.TimeAccepts`, `TimeOfDay.WrappedTimes`). A leap second of the last second of
  the day is stored in milliseconds as a value that is then refused (`TimeOfDay.ReadBackChrono`).
* The two libraries store different milliseconds and microseconds for instants before 1970 that are not whole units.
  In nanoseconds, beyond an i64, chrono stores 0 and the time crate the low 64 bits, so that an instant of April 2262
  becomes the epoch in one and an instant of 1677 in the other (`Timestamp.LibrariesAgree`,
  `Timestamp.LibrariesDisagree`).
* `set_from_json` is documented not to alter the primary key. When the JSON is no object, or does not parse over the
  defaults, it returns with all key columns not set (`ActiveModelKeys.KeysSurviveSuccess`,
  `ActiveModelKeys.NonObjectLosesKey`).
* With a surrogate junction key, a key requested twice is linked twice (`EstablishLinks.SurrogateLinkCount`,
  `EstablishLinks.RepeatedRequest`). With a key of both foreign keys and a generated column, appending the same links
  again inserts them again (`EstablishLinks.Idempotent`, `EstablishLinks.AppendsPileUp`,
  `EstablishLinks.AppendedTwice`), and without RETURNING the call fails after the first insert
  (`EstablishLinks.StopsAfterOne`, `EstablishLinks.UnpackStopsEarly`). With a key that identifies neither the pair nor
  the row, links are silently dropped (`EstablishLinks.OtherKeysLoseLinks`).
* With page size 0 every page is the whole list, so a loop until None only ends on an empty one, and computing the
  number of pages divides by zero (`Paginator.NonemptyPages`, `Paginator.EndlessPages`,
  `Paginator.EntityLoaderPaginator.ComputePagesNumber`).

## Model

| member | source | states |
|---|---|---|
| Driver.Acquire | src/driver/rusqlite.rs:291-312 | the first try that sees anything but a busy lock or a loaned connection decides between the connection and ConnectionClosed; no such try is a timeout |
| Driver.SharedConnection.Loan | src/driver/rusqlite.rs:314-324 | an idle connection moves out of the cell into a fresh loan at depth 0; otherwise an error and no change |
| Driver.SharedConnection.CloseByRef | src/driver/rusqlite.rs:488-492 | an idle connection is discarded for good, any other state stays |
| Driver.RusqliteInnerConnection.ExecuteUnprepared | src/driver/rusqlite.rs:519-531 | the statement takes effect, or the connection is unchanged on an error |
| Driver.RusqliteInnerConnection.Begin | src/driver/rusqlite.rs:611-627 | the step of the specification that SavepointRefinement.StepRefines shows to be a push; depth only moves on success |
| Driver.RusqliteInnerConnection.Commit | src/driver/rusqlite.rs:630-641 | likewise a pop that keeps the data; the u32 wraps at depth 0 |
| Driver.RusqliteInnerConnection.Rollback | src/driver/rusqlite.rs:644-652 | likewise a pop that restores the snapshot |
| Driver.RusqliteInnerConnection.StartRollback | src/driver/rusqlite.rs:655-660 | a rollback if a level is open, nothing otherwise; a refused one is reported and changes nothing |
| Driver.RusqliteInnerConnection.Return | src/driver/rusqlite.rs:663-668 | dropping the loan puts the connection back into the shared cell |
| SavepointRefinement.InnermostIsLive | src/driver/rusqlite.rs:630-652 | RELEASE and ROLLBACK TO of the innermost name hit the live savepoint and never a residual copy, and leave the invariant for the outer levels |
| SavepointRefinement.StepRefines | src/driver/rusqlite.rs:611-660 | one call on a connection that stands for a stack of snapshots never raises an SQL error of its own, changes nothing on a fault, and otherwise makes the stack's step |
| SavepointRefinement.RunRefines | src/driver/rusqlite.rs:611-660 | the same over every run of begins, writes, commits, rollbacks and faults |
| SavepointRefinement.DriverRefinesStack | src/driver/rusqlite.rs:611-660 | from an idle connection: working and committed contents and depth are those of the ideal stack, and back at depth 0 the engine is in autocommit with no savepoint left |
| SavepointRefinement.RollbackUndoesLevel | src/driver/rusqlite.rs:644-652 | rolling back undoes everything since the begin, inner commits included, at any depth |
| SavepointRefinement.ResidualsPileUp | src/driver/rusqlite.rs:644-652 | n rolled back attempts inside a transaction leave exactly n extra savepoints on the engine's stack |
| Transaction.DatabaseTransaction.Begin | src/database/transaction.rs:77-174 | a handle exactly if the driver's begin succeeds; a failed one is dropped open and rolls back, or panics if that is refused |
| Transaction.DatabaseTransaction.Commit | src/database/transaction.rs:238-290 | a failed commit ends as the rollback of the drop, or as a panic if that is refused too |
| Transaction.DatabaseTransaction.Rollback | src/database/transaction.rs:295-347 | the open flag is cleared only on success, so a failed rollback is tried once more by the drop, which panics if it is refused again |
| Transaction.DatabaseTransaction.Drop | src/database/transaction.rs:351-406 | an open handle rolls its level back and panics exactly if that is refused; a closed one does nothing |
| Transaction.DatabaseTransaction.Run | src/database/transaction.rs:179-197 | for any callback tree, failed begins and panics included, the stack of snapshots and the outcome afterwards; a panic drops the handle, which restores the snapshot of its level unless a level is left, and a second panic aborts |
| Transaction.DatabaseTransaction.Callback | src/database/transaction.rs:203-211 | nested transactions inside a callback: kept or undone in the parent, begins that fail and take a level of the parent, errors swallowed or propagated, panics unwinding |
| Transaction.RunOutermost | src/driver/rusqlite.rs:448-461 | loan, begin, run and hand back, for every tree and every failure: the contents are those of the stack; the connection comes back clean unless something panics, and then exactly if no level is left; a panic commits nothing and otherwise leaves the connection as it was, if the begins work; an Ok always means that the surviving statements of an orderly callback are committed |
| Transaction.CallbackUnwinding | src/database/transaction.rs:179-197 | if its begins work a callback, however it ends, keeps every older snapshot; when it unwinds and when it aborts; it leaves a level exactly if it unwinds for a refused drop |
| Transaction.RunUnwinding | src/database/transaction.rs:351-406 | a transaction whose callback panics is undone, its level gone, unless a refused drop leaves a level |
| Transaction.OutermostPanic | src/database/transaction.rs:402-406 | an outermost transaction that panics commits nothing, if the begins work |
| Transaction.PanicUndoes | src/database/transaction.rs:351-406 | a concrete insert followed by a panic is undone |
| Transaction.OutermostLevels | src/database/transaction.rs:402-406 | at most one level is left after a panic and none otherwise; around an orderly callback one is left exactly if closing and drop are both refused |
| Transaction.AllOrNothing | src/database/transaction.rs:42-67 | an outermost transaction keeps all surviving statements or nothing, and tells so, if and only if no begin that is reached fails and nothing panics |
| Transaction.LevelsBounded | src/database/transaction.rs:179-197 | a callback that returns leaves no more levels than it found, one that panics at most one more |
| Transaction.FlatIsMeaning | src/database/transaction.rs:179-197 | if no reached begin fails and nothing panics a callback leaves the levels as they were and the meaning of its tree as contents |
| Transaction.RunIsMeaning | src/database/transaction.rs:42-67 | likewise a whole transaction: kept if it succeeds and closes, undone otherwise, with the right error kind; left open with everything in it if closing and drop are refused |
| Transaction.LevelsKept | src/database/transaction.rs:86-92 | inside a transaction a callback returns with as many levels as it found if and only if no begin that it reaches fails and nothing panics |
| Transaction.FailedBeginCommitsLaterWrites | src/database/transaction.rs:402-406 | a concrete callback that swallows a failed begin: the first insert is lost, the second committed, and the caller sees an error |
| Transaction.CloseRefines | src/database/transaction.rs:238-406 | a handle that is closed takes exactly the innermost level away, kept or undone; with no level left it is an error; if closing and drop are refused nothing changes and it panics |
| Transaction.MeaningIsKept | src/database/transaction.rs:42-67 | the meaning of a tree is the old data followed by exactly the statements all of whose enclosing transactions are kept, in program order, independent of the data |
| Transaction.FailedBegin | src/database/transaction.rs:86-92 | a failed begin returns and changes nothing if and only if depth is 0; above it rolls back the parent's level, or panics if that is refused |
| Transaction.FailedBeginLosesParentWrites | src/database/transaction.rs:402-406 | a concrete run in which a failed nested begin loses the parent's insert |
| ConnectionLoan.LoanInvariant | src/driver/rusqlite.rs:291-324 | over all interleavings, failed begins, refused drops and out-of-order closing included, the connection is in exactly one place and every loan with handles behaves as a stack of snapshots; once closed it stays closed |
| ConnectionLoan.EndData | src/database/transaction.rs:238-347 | a handle that ends keeps the data of its level by an unrefused commit, and undoes it by a rollback or by the drop after a refused closing; everything stays if the drop is refused too |
| ConnectionLoan.DropData | src/database/transaction.rs:351-406 | a dropped handle undoes its level, or leaves everything if that is refused |
| ConnectionLoan.NestedBeginData | src/database/transaction.rs:77-174 | a nested begin puts a snapshot on the stack; a failed one takes a level of its parent, unless its drop is refused |
| ConnectionLoan.RunData | src/driver/rusqlite.rs:519-531 | a statement on a handle is appended, unless it is refused |
| ConnectionLoan.LoanedData | src/driver/rusqlite.rs:291-324 | while the connection is loaned nobody else gets it, and steps on handles that do not exist do nothing |
| ConnectionLoan.IdleData | src/driver/rusqlite.rs:291-324 | on an idle connection a direct statement commits by itself, a stream or an outermost begin takes it, and closing is for good; a stranded one commits nothing and refuses begins |
| ConnectionLoan.TransactionCommits | src/database/transaction.rs:238-290 | one handle, any statements and its commit, from an idle connection: they are committed in order and the connection is idle again |
| ConnectionLoan.HandedBackClean | src/driver/rusqlite.rs:663-668 | all along a run the connection is handed back in autocommit with nothing uncommitted if and only if no last handle of a loan goes and leaves a level |
| ConnectionLoan.CleanWithoutRefusals | src/database/transaction.rs:351-406 | as long as no drop of an ending handle is refused the connection is always handed back clean, whatever else fails |
| ConnectionLoan.LastHandle | src/database/transaction.rs:402-406 | with an exact counter the last handle hands the connection back clean if and only if its drop is not refused |
| ConnectionLoan.StrandedForever | src/driver/rusqlite.rs:611-627 | on a connection handed back inside a transaction no begin ever succeeds and nothing is ever committed until it is closed |
| ConnectionLoan.RefusedDropStrands | src/database/transaction.rs:402-406 | a concrete run: one handle, one insert, a refused drop, and every later begin refused |
| ConnectionLoan.DepthCountsHandles | src/database/transaction.rs:77-174 | the counter equals the number of open handles all along a run, and is 0 when handed back, if and only if no nested begin fails and takes a level of its parent and no drop is refused when a handle ends |
| ConnectionLoan.EndingNeverRefused | src/database/transaction.rs:238-347 | while the counter is exact, committing or rolling back any open handle, in any order, is accepted by the engine |
| MockDatabase.OpenTransaction.BeginNested | src/database/mock.rs:391-397 | the counter goes up before the savepoint is named |
| MockDatabase.OpenTransaction.Commit | src/database/mock.rs:399-411 | COMMIT and done at depth 0, RELEASE of the current savepoint otherwise |
| MockDatabase.OpenTransaction.Rollback | src/database/mock.rs:413-425 | the same with ROLLBACK and ROLLBACK TO |
| MockDatabase.OpenTransaction.IntoTransaction | src/database/mock.rs:431-436 | only called at depth 0, so its panic is unreachable |
| MockDatabase.Mock.Execute | src/database/mock.rs:132-151 | the statement is recorded, the slot of the ticket is delivered and marked consumed |
| MockDatabase.Mock.Query | src/database/mock.rs:154-176 | the same for queries |
| MockDatabase.Mock.Begin | src/database/mock.rs:179-184 | opens a transaction or nests one |
| MockDatabase.Mock.Commit | src/database/mock.rs:187-198 | closes a level; the outermost one moves the transaction to the log |
| MockDatabase.Mock.Rollback | src/database/mock.rs:201-212 | the same with a rollback |
| MockDatabase.Mock.DrainTransactionLog | src/database/mock.rs:214-216 | hands out the log and empties it |
| MockLog.Parse | src/database/mock.rs:383-429 | a recorded word that returns to its level is the word of a tree of nested transactions |
| MockLog.LogShape | src/database/mock.rs:132-216 | after any calls every logged transaction is BEGIN, the word of a tree, and COMMIT or ROLLBACK, or one lone statement; drained log, pending log and open transaction hold every statement once, in order |
| MockLog.Bisimulation | src/database/mock.rs:179-212 | the mock accepts the same runs as the driver, sends the same statements, and its depth is one less |
| MockLog.ReplayedLogIsTheDatabase | src/driver/rusqlite.rs:611-652 | replaying what the mock recorded on an idle engine succeeds and reaches the state the real driver reaches |
| CallbackLog.CallbackRecords | src/database/mock.rs:383-429 | a callback tree inside an open transaction appends the word of its tree, every nested transaction closed as it ended, and leaves the level as it was |
| CallbackLog.OneTransactionLogged | src/database/mock.rs:179-212 | a callback in an outermost transaction logs exactly one transaction: BEGIN, the word of its tree, COMMIT if it succeeds and ROLLBACK if not |
| CallbackLog.TransactionMoves | src/database/transaction.rs:179-197 | the calls of a fault-free callback, on the ideal stack, keep its surviving statements if it succeeds and nothing otherwise |
| CallbackLog.LoggedCallbackReplays | src/database/transaction.rs:42-67 | replaying the logged transaction on an idle engine succeeds and commits exactly the statements that survive in the callback tree |
| CallbackLog.LoggedExample | src/database/mock.rs:179-212 | the log of a concrete callback with a swallowed nested rollback, statement by statement, and what its replay commits |
| MockDriver.MockDatabaseConnection.Execute | src/driver/mock.rs:148-155 | draws the next ticket and claims its result |
| MockDriver.MockDatabaseConnection.QueryAll | src/driver/mock.rs:172-179 | the same for queries, with their own counter |
| MockDriver.DrawAndServe | src/driver/mock.rs:148-155 | a caller without a ticket draws the next one, and one with a ticket is served for it |
| MockDriver.ServedInTurn | src/driver/mock.rs:148-179 | a single caller gets the canned results in order and the empty-buffer error from then on |
| MockDriver.ResultsAreUsedOnce | src/driver/mock.rs:148-179 | under every interleaving ticket k gets entry k, no entry is handed out twice, "consumed already" never occurs, and no ticket is lost |
| EstablishLinks.EstablishLinks | src/entity/active_model.rs:1221-1365 | when it succeeds the final table is Reconcile of the old one in every branch, RETURNING or not; it succeeds without a refused statement if there is RETURNING, or all key columns are given, or the key is the one generated column, or on MySQL if nothing is generated; a generated column beside others fails exactly if something is missing; an unset key is an error and nothing is written; a refused statement leaves what the ones before it did |
| EstablishLinks.BuildVia | src/entity/active_model.rs:1271-1286 | the rows to insert are the requested keys not among the leftover, in order; an unset key is an error |
| EstablishLinks.DeleteLeftover | src/entity/active_model.rs:1288-1327 | deletes exactly the model's rows whose right key is not requested, or nothing if it is refused |
| EstablishLinks.SameKey | src/entity/active_model.rs:1289-1301 | two rows have one primary key if and only if they agree on its columns |
| EstablishLinks.InsertJunctions | src/entity/active_model.rs:1337-1361 | one statement for all rows; or one per row, stopping at the first inserted row whose key cannot be unpacked or at a refused statement; the same table if it gets through |
| EstablishLinks.SinglyIsEach | src/executor/insert.rs:461-484 | row by row inserting gets through if and only if the key can be unpacked or every row conflicts |
| EstablishLinks.SinglyWorks | src/executor/insert.rs:461-484 | the same by the columns of the key: which keys always get through, which stop at the first row, and which at the first row that is inserted |
| EstablishLinks.StopsAfterOne | src/executor/insert.rs:471-483 | with a generated column beside others in the key exactly one row is inserted before the error |
| EstablishLinks.UnpackStopsEarly | src/entity/active_model.rs:1352-1360 | every append of two or more links under such a key inserts fewer rows without RETURNING than with it |
| EstablishLinks.ManyIsEach | src/entity/active_model.rs:1338-1360 | a multi-row ON CONFLICT DO NOTHING, first proposal wins and existing row before it, equals the row by row inserts, repeated keys included |
| EstablishLinks.Reconciled | src/entity/active_model.rs:1237-1362 | the right keys afterwards are the requested ones, or old and requested when appending; every other row is untouched, kept rows keep key and columns, new rows link the model to a requested key |
| EstablishLinks.OtherKeysLoseLinks | src/entity/active_model.rs:1244-1252 | for every primary key that neither contains both foreign keys nor is generated, some call links less than requested |
| EstablishLinks.SurrogateLinkCount | src/entity/active_model.rs:1274-1286 | with a surrogate key a linked pair keeps its rows and an unlinked one gets one row per occurrence in the request |
| EstablishLinks.RepeatedRequest | src/entity/active_model.rs:1274-1286 | a concrete request of one key twice that makes two rows for the pair |
| EstablishLinks.Idempotent | src/entity/active_model.rs:1245-1262 | a second identical call changes nothing if and only if it is not an append under a key of both foreign keys and a generated column |
| EstablishLinks.AppendsPileUp | src/entity/active_model.rs:1244-1252 | in that case each of two appends adds a row per requested occurrence |
| EstablishLinks.AppendedTwice | src/entity/active_model.rs:1244-1252 | a concrete pair that is linked twice after two appends |
| Decimal256.Negate | sea-orm-arrow/src/lib.rs:357-371 | the invert-and-carry loop computes 2^256 minus the value |
| Decimal256.FirstNonzero | sea-orm-arrow/src/lib.rs:377-378 | dropping the leading zeros keeps the value |
| Decimal256.Decimal256ToValue | sea-orm-arrow/src/lib.rs:347-384 | every 32 bytes, zero and -2^255 included, decode to the integer they denote |
| Decimal256.SignedRange | sea-orm-arrow/src/lib.rs:355-357 | the sign is the top bit and the values fill [-2^255, 2^255) |
| Decimal256.BigintToI256 | sea-orm-arrow/src/lib.rs:1533-1550 | padding, reading and wrapping negation give ToI256, for every integer |
| Decimal256.EncodeIsTheResidue | sea-orm-arrow/src/lib.rs:1533-1550 | None from 2^256 on, otherwise the unique i256 congruent to the input modulo 2^256, and the input itself if and only if it is in [-2^255, 2^255) |
| Decimal256.DecodeEncode | sea-orm-arrow/src/lib.rs:347-384 | decoding then encoding is the identity on byte strings |
| Decimal256.WrapsAtHalf | sea-orm-arrow/src/lib.rs:1545-1549 | 2^255 encodes to -2^255 without an error |
| DecimalScale.UpscaleBound | sea-orm-arrow/src/lib.rs:1465-1483 | scaling up by k digits overflows i128 for no 96-bit mantissa if and only if k is at most 9 |
| DecimalScale.RescaleIsWithScale | sea-orm-arrow/src/lib.rs:1428-1447 | for every decimal and every column scale the 128-bit form overflows if and only if the scales are more than 38 apart or the rescaled number does not fit, and is the unbounded rescaling otherwise |
| DecimalScale.ExtractedAlike | sea-orm-arrow/src/lib.rs:1465-1518 | a decimal and the equal big decimal are extracted alike at 64, 128 and 256 bits if and only if the decimal does not overflow |
| DecimalScale.DecimalsOutOfReach | sea-orm-arrow/src/lib.rs:1465-1476 | concrete decimals that overflow scaling down, with result 0, and scaling up |
| DecimalScale.UpscaleIsExact | sea-orm-arrow/src/lib.rs:1434-1436 | scaling up keeps the rational value, at negative scales too |
| DecimalScale.DownscaleTruncates | sea-orm-arrow/src/lib.rs:1436-1438 | scaling down keeps the sign and loses less than a unit, toward zero |
| DecimalScale.NarrowTwice | sea-orm-arrow/src/lib.rs:1465-1494 | narrowing in two hops is narrowing once |
| DecimalScale.WidenThenNarrow | sea-orm-arrow/src/lib.rs:1465-1494 | widening then narrowing is the identity; narrowing then widening exactly for whole units |
| DecimalScale.OneNumber | sea-orm-arrow/src/lib.rs:1465-1494 | a cell at the column's scale equals the value as a number if and only if the value is a whole number of units there and the cell is the rescaled number |
| DecimalScale.Decimal128RoundTrip | sea-orm-arrow/src/lib.rs:309-345 | every cell within its precision decodes within rust_decimal's bounds or to a big decimal, and extracts to itself |
| DecimalScale.Decimal64RoundTrip | sea-orm-arrow/src/lib.rs:270-306 | the same for 64-bit cells |
| DecimalScale.Decimal256RoundTrip | sea-orm-arrow/src/lib.rs:1501-1530 | a decoded 256-bit cell extracts to the number its bytes denote |
| TimeOfDay.ChronoAccepts | sea-orm-arrow/src/lib.rs:419-455 | Time32 is accepted if and only if it is in the day, negatives rejected despite the casts; the exact set for Time64 |
| TimeOfDay.TimeAccepts | sea-orm-arrow/src/lib.rs:527-584 | the exact set of values the time-crate decoder accepts |
| TimeOfDay.SecondsAccepted | sea-orm-arrow/src/lib.rs:530-534 | what the casts to u8 of hour, minute and second let through |
| TimeOfDay.DayDecodes | sea-orm-arrow/src/lib.rs:419-455 | whole seconds and nanoseconds of every valid value, in both libraries |
| TimeOfDay.DayRoundTrip | sea-orm-arrow/src/lib.rs:1294-1358 | every valid value of the four units decodes to the same nanosecond in both libraries and extracts to itself |
| TimeOfDay.ExtractRoundsDown | sea-orm-arrow/src/lib.rs:1294-1358 | any valid time is stored rounded down to the unit, the same in both libraries |
| TimeOfDay.ReadBackChrono | sea-orm-arrow/src/lib.rs:1294-1358 | storing any chrono time, leap seconds included, and reading it back: refused exactly for a leap second of the last second of the day in milliseconds, equal exactly for whole units that are no leap second |
| TimeOfDay.ReadBackTime | sea-orm-arrow/src/lib.rs:527-584 | any time of the time crate is accepted again by both libraries and equal exactly for whole units |
| TimeOfDay.WrappedTimes | sea-orm-arrow/src/lib.rs:436-443 | concrete values outside the day that decode to midnight |
| Timestamp.StoredRoundTrip | sea-orm-arrow/src/lib.rs:458-486 | every i64 at every unit, before 1970 included, is accepted by each library exactly if its seconds are in that library's range, denotes the same instant in both and extracts to itself |
| Timestamp.ChronoRoundsDown | sea-orm-arrow/src/lib.rs:1368-1391 | chrono stores the floor, a leap second in seconds as the second it belongs to, or 0 for nanoseconds beyond an i64 |
| Timestamp.LibrariesAgree | sea-orm-arrow/src/lib.rs:1407-1418 | both libraries store the same number if and only if the instant is not before 1970, a whole number of units, or stored in seconds; for nanoseconds beyond an i64, if and only if the low 64 bits are 0 |
| Timestamp.LibrariesDisagree | sea-orm-arrow/src/lib.rs:1414-1416 | an instant before 1970 and one of April 2262 that the two libraries store differently |
| Timestamp.ReadBack | sea-orm-arrow/src/lib.rs:458-486 | chrono: storing and reading any instant rounds it down to the unit, with the nanosecond exception |
| Timestamp.ReadBackTime | sea-orm-arrow/src/lib.rs:587-616 | time crate: rounded toward zero, in seconds down, and in nanoseconds cut to 64 bits |
| Timestamp.ChronoReturns | sea-orm-arrow/src/lib.rs:1368-1391 | chrono, leap seconds included: refused exactly for a leap second that rounds out of the range, equal exactly for whole units that are no leap second and fit |
| Timestamp.TimeReturns | sea-orm-arrow/src/lib.rs:1407-1418 | time crate: always accepted by both libraries, equal exactly for whole units that fit |
| ArrowCell.ReadsWhatIsStored | sea-orm-arrow/src/lib.rs:49-176 | a column type is read from exactly the array types that store its field, but for Date64, which is only read, and offset date-times, which are stored in none |
| ArrowCell.Widths | sea-orm-arrow/src/lib.rs:977-1185 | a whole number is stored at its own width and sign only, and a time of day in the narrower width that holds a day of the unit |
| ArrowCell.EncodedShape | sea-orm-arrow/src/lib.rs:977-1148 | every stored cell is of its array's kind; only wrong byte lengths are errors and only decimals panic |
| ArrowCell.EncodeOutcome | sea-orm-arrow/src/lib.rs:977-1148 | storing a value is an error exactly for bytes of a wrong length, panics exactly for a decimal out of reach, and gives null exactly for a null, a value of another variant and a number too wide |
| ArrowCell.WhatIsBuilt | sea-orm-arrow/src/lib.rs:1137-1262 | an array is built exactly if it stores any variant, with precision and scale within Arrow's bounds |
| ArrowCell.StoredFits | sea-orm-arrow/src/lib.rs:1154-1550 | every stored cell fits the bits of its array: no cast on the way loses any, except the ones for nanoseconds and 256-bit decimals named elsewhere |
| ArrowCell.MismatchReadBack | sea-orm-arrow/src/lib.rs:49-56 | in an array the column is not read from, or a column declared with another type than its field's, only nulls are accepted, and a value the array does not store is one |
| ArrowCell.ComesBack | src/entity/active_model.rs:582-610 | for every field, column type, value and array that can be built: when from_arrow with its retry accepts what to_arrow stored, when it panics, and when the value is equal |
| ArrowCell.DateCells | sea-orm-arrow/src/lib.rs:397-415 | every cell of a Date32 or Date64 array is read as its day, counted toward 1970, exactly if the library of the field has that day; only the smallest 64-bit number of milliseconds panics |
| ArrowCell.WrongArrayLosesValue | sea-orm-arrow/src/lib.rs:1015-1023 | under an array its column is not read from every value is stored as null, which an optional field takes back without an error |
| ArrowCell.SevenUnderInt64 | sea-orm-arrow/src/lib.rs:54-56 | the value 7 of an optional 32-bit field under a 64-bit array comes back as null |
| ArrowCell.DefaultDecimalsAreRefused | sea-orm-arrow/src/lib.rs:309-320 | the default array of a rust_decimal field stores every value it can and reads none back |
| ArrowCell.BigDecimalsAreRefused | sea-orm-arrow/src/lib.rs:270-333 | a big decimal in an array that is read as rust_decimal's, and its null in any decimal array, are refused |
| ArrowCell.OffsetsAreRefused | sea-orm-arrow/src/lib.rs:1368-1402 | a date-time with an offset of its own is stored as null and refused |
| ArrowBatch.BuildArray | sea-orm-arrow/src/lib.rs:977-1148 | one cell per model, null for a missing value or one of another kind; an error exactly for a wrong byte length or a type it cannot build, a panic exactly for a decimal that overflows |
| ArrowBatch.ToArrow | src/entity/active_model.rs:634-672 | row r of column f is the cell of model r under field f; fails exactly if an array cannot be built, a null is in a non-null field, or there is no field, and panics exactly if the first field that fails does |
| ArrowBatch.WhenStorable | src/entity/active_model.rs:634-672 | to_arrow succeeds exactly if there is a field and every field takes all models, by the values, array types and nullability |
| ArrowBatch.FieldBuilds | src/entity/active_model.rs:634-672 | one field can be built exactly if it takes all models, and building it panics exactly for a decimal out of reach |
| ArrowBatch.FromArrow | src/entity/active_model.rs:569-619 | the rows in order, each column read by name, up to the first cell that fails |
| ArrowBatch.RowRead | src/entity/active_model.rs:577-617 | a row is read if and only if each of its columns is, and then holds what was read for each |
| ArrowBatch.RowsRead | src/entity/active_model.rs:569-619 | all rows are read if and only if each is, one model per row, in order |
| ArrowBatch.FirstFailure | src/entity/active_model.rs:577-617 | if a batch is not read, the first cell that is not, row by row, decides between error and panic |
| ArrowBatch.CellComesBack | src/entity/active_model.rs:569-672 | every cell of a batch in its place: accepted, and equal, exactly as ArrowCell.ComesBack says; a missing value comes back as null, a column without a field as NotSet |
| ArrowBatch.ThereAndBack | src/entity/active_model.rs:569-672 | models to a batch and back: succeeds if and only if the batch can be built and every value returns; then one model per row, in order, with exactly the surviving values equal |
| ArrowBatch.FullModelsComeBack | src/entity/active_model.rs:569-672 | fully set models come back in place, equal and marked Set, if and only if every value survives, whatever other fields the schema has |
| ArrowBatch.UnknownFieldIsNull | src/entity/active_model.rs:662-667 | a field unknown to the entity is a column of nulls |
| ActiveModelKeys.ActiveModel.IsUpdate | src/entity/active_model.rs:393-403 | true exactly if no key column is NotSet, so Unchanged counts |
| ActiveModelKeys.ActiveModel.GetPrimaryKeyValue | src/entity/active_model.rs:85-117 | for every arity, Some exactly if that many key columns exist and none is NotSet, with their values in order and the right shape |
| ActiveModelKeys.UpdateIffKeyValue | src/entity/active_model.rs:85-117 | the two agree on all models if and only if the arity is the number of key columns |
| ActiveModelKeys.FromJson | src/entity/active_model.rs:495-552 | the object over the defaults is parsed; a column is Set exactly if the JSON has its key and the parsed model a value |
| ActiveModelKeys.JsonOverDefaults | src/entity/active_model.rs:511-532 | the parsed object has the JSON's own entries, and the default of each other column that has one |
| ActiveModelKeys.ActiveModel.SetFromJson | src/entity/active_model.rs:464-491 | keys taken out, model replaced, keys put back; returns early on a parse error |
| ActiveModelKeys.KeysSurviveSuccess | src/entity/active_model.rs:460-491 | key values are unchanged if and only if the JSON is an object that parses over the defaults or no key was set; a key comes back as Set; other columns are those of the JSON, or unchanged on failure |
| ActiveModelKeys.NonObjectLosesKey | src/entity/active_model.rs:464-491 | a JSON that is no object loses a set key, whatever the entity |
| Paginator.EntityLoaderPaginator.FetchAndNext | src/entity/compound.rs:180-185 | the current page, None if it is empty, and the page counter one up |
| Paginator.EntityLoaderPaginator.ComputePagesNumber | src/entity/compound.rs:163-167 | the least number of pages that holds all items; a division by zero exactly for page size 0 |
| Paginator.EntityLoaderPaginator.FetchAll | src/entity/compound.rs:128-185 | fetching until None takes one fetch more than there are pages and yields all items in order, with every offset below the items plus one page |
| Paginator.OffsetBound | src/entity/compound.rs:128-133 | the offset of every page up to the first empty one is at most items plus page size minus one |
| Paginator.EndlessPages | src/entity/compound.rs:128-133 | with page size 0 every page of a one-item list is that item |
| Paginator.NumPagesIsCeiling | src/entity/compound.rs:165-167 | the number of pages is the least one that holds all items, and not above the number of items |
| Paginator.NonemptyPages | src/entity/compound.rs:128-133 | a page is non-empty if and only if its number is below the number of pages; with page size 0 every page is the whole list |
| Paginator.PagesCover | src/entity/compound.rs:128-167 | the pages one after the other are the whole list |

## Left out

- Paginator.EntityLoaderPaginator.FetchAll: numbers are unbounded; all offsets fit 64 bits if the items plus a page
  do.
- EstablishLinks.EstablishLinks: a primary key of one column that is neither a foreign key nor generated, whose insert
  id is looked up as a key.
- ArrowBatch.ToArrow: arrays of nulls, for fields unknown to the entity, of types Arrow itself cannot build.
- Catching panics, and SQL of the caller that begins or ends transactions.
- Savepoint names are numbers and `transaction_depth` grows without bound; the wrap below zero is modelled.
- Waiting in `acquire` is the list of what its tries observe; clocks are not modelled.
- SQLite errors that abort a whole transaction by themselves; transaction modes, isolation levels and access modes.
- Lifecycle hooks of active models, which by default do nothing; relations with composite foreign keys.
- Arrow conversion in builds without one of the four value libraries; char and enum fields; the contents of floats,
  strings and bytes.
- `values_to_arrow_array`, which repeats `option_values_to_arrow_array` without missing values.
- The MySQL, Postgres and sqlx SQLite drivers, the proxy driver, pools, streams' contents, tracing and metrics.
- SQL text, derive macros, migrations, access control and the command line tools.
- The synchronous crate, which repeats the asynchronous one.
