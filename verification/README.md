# dbic++ in Dafny

dbic++ is a C++ client library for PostgreSQL, MySQL and SQLite.  This project models four pieces of
its own logic against small explicit environments and proves what they promise:

* **Nested transactions.**  The drivers turn named `begin`/`commit`/`rollback` into flat
  `BEGIN`/`SAVEPOINT`/`RELEASE`/`ROLLBACK TO`/`COMMIT`/`ROLLBACK` with one counter; the facade keeps a list
  of names beside it.  `SavepointServer` is the server (sections 16.4 to 16.7 of ISO/IEC 9075-2:1999, with
  the treatment of a reused savepoint name as a parameter), `TransactionHandle` the driver handle and the
  facade, `NestedTransactions` the simulation and the meaning of nested blocks, `SavepointNames` the exact
  limits on reusing names.
* **MySQL results.**  `WireFormat` and `RowCodec` are the decoder of binary result rows with the
  protocol's encoder as its partner, `PacketBytes` what they come to byte by byte, `TextLayout` how the
  temporal texts read back, `FloatText` the floating point numbers in them and printf's `%f`,
  `BinaryResult` the result class with its copied packet list, column buffers and cursor, `TextResult` the
  text result, `RowCache` the one-row cache both of them keep.
* **Placeholders.**  `Placeholders` is the "replace the leftmost match until there is none" loop of all
  three drivers, `Interpolation` MySQL's writing of bind values and the agreement between the drivers.
* **Bulk load and SQLite results.**  `StringBuffer` is `StringIO`, `BulkLoad` the loader that cuts its lines
  into fields, `SqliteResult` the materialised result.  `Pieces` holds the way of cutting text that the line,
  field and bind-value loops share; `Decimal` holds printf's integers.

Code that updates objects in place is a class whose methods are proved against functions on values; the
promises are lemmas about those functions.  The two forms meet in the methods' `ensures`.

`dafny verify dfyconfig.toml` checks everything.

## What turns out false, and exactly when

* Names of nested blocks cannot be reused freely.  Where a new savepoint replaces its namesake (MySQL, the
  standard) no name may be open twice; where it shadows it (PostgreSQL, SQLite) a block and its parent must
  differ, unless the parent closes the transaction.  `NamesReusedExactly` proves this both ways for every
  forest of blocks.
* A named call that throws puts the facade's names out of step with the driver's counter.
  `ThrownCallOutOfStepExactly`.
* After a public `seek(n)` the row before n is taken for buffered.  `CellComesFromItsRowExactly`.
* Not every value of a binary row reaches the reader as it is.  `INT24` and `YEAR` never do; a `TINY` does if
  it is not negative; a wider integer if it is in the signed range; a `FLOAT` or `DOUBLE` if six decimal
  places hold it and its whole part has at most 24 or 56 digits, one less with a sign, because `snprintf`
  cuts off the rest; a `DATETIME` or `TIME` if it has no fraction of a second; a `TIME` only if it has no
  minus sign either.  `FieldRoundTripsExactly`, `RowRoundTripsExactly`, `SignDropped`.
* A write loses its first byte when the unterminated last line before it has been read by `readline` and no
  `truncate` came between.  `QueueExactly`, `LossReachable`.
* The SQLite loader turns fields of length one and empty last fields into NULL.  `TableRoundTripsExactly`.
* PostgreSQL leaves a question mark next to a quote alone, MySQL and SQLite do not.  Then the drivers disagree
  on the number of parameters and on where values go, and only then.  `ParametersAgreeExactly`,
  `DriversAgreeExactly`.

Where code and documentation differ the code is modelled: `inc/dbic++/abstract_handle.h` says that an unnamed
`begin` rolls back an open transaction and that a close without a name takes the most recent savepoint, but
the drivers just send `BEGIN`, and a close without a name closes everything.

## Model

| member | source | states |
|---|---|---|
| SavepointServer.WithoutKeepsTopmost | src/drivers/mysql/handle.cc:187-195 | where SAVEPOINT destroys its namesake, the youngest savepoint of any other name stays the same savepoint, above the same older ones |
| TransactionHandle.FacadeStaysInStep | src/handle.cc:67-100 | over every failure-free run, with any names, the counter is the number of open names plus one for an unnamed begin, and is positive exactly while the server is in a transaction |
| TransactionHandle.ThrowsExactly | src/drivers/pg/handle.cc:149-265 | whatever the state, when a call throws; and then counter, committed database, working copy and savepoints stay as they were |
| TransactionHandle.NamesMove | src/handle.cc:67-100 | thrown or not, the name list gains the name, loses its last name whatever name is given, becomes empty, or stays |
| TransactionHandle.CounterMoves | src/drivers/pg/handle.cc:223-265 | what each call that goes through does to the counter, and whether a transaction is then open |
| TransactionHandle.DatabasesMove | src/drivers/mysql/handle.cc:169-211 | what it does to the committed database and the working copy |
| TransactionHandle.SavepointsMove | src/drivers/sqlite3/handle.cc:136-160 | what it does to the stack of savepoints |
| TransactionHandle.ThrownCallOutOfStepExactly | src/handle.cc:84-100 | a call that throws puts names and counter out of step exactly if it is a named one |
| TransactionHandle.Driver.SendStatement | src/drivers/sqlite3/handle.cc:107-116 | a rejected statement changes nothing and is reported |
| TransactionHandle.Driver.ExecuteWrite | src/drivers/pg/handle.cc:149-157 | a write goes to the working copy inside a transaction and is committed at once outside; one the server rejects changes nothing and is reported |
| TransactionHandle.Driver.BeginWork | src/drivers/pg/handle.cc:223-227 | whole new state and outcome of an unnamed begin, failing statement included |
| TransactionHandle.Driver.CommitWork | src/drivers/pg/handle.cc:229-233 | whole new state and outcome of an unnamed commit |
| TransactionHandle.Driver.RollbackWork | src/drivers/pg/handle.cc:235-239 | whole new state and outcome of an unnamed rollback |
| TransactionHandle.Driver.BeginNamed | src/drivers/pg/handle.cc:241-249 | whole new state and outcome, also when the first or the second statement fails |
| TransactionHandle.Driver.CommitNamed | src/drivers/sqlite3/handle.cc:146-152 | release, and commit when the counter reaches zero |
| TransactionHandle.Driver.RollbackNamed | src/drivers/mysql/handle.cc:205-211 | roll back to the savepoint, and everything when the counter reaches zero |
| TransactionHandle.Handle.BeginWork | src/handle.cc:67-70 | an unnamed begin adds no name |
| TransactionHandle.Handle.CommitWork | src/handle.cc:72-76 | an unnamed commit forgets all names before the driver is called |
| TransactionHandle.Handle.RollbackWork | src/handle.cc:78-82 | an unnamed rollback forgets all names before the driver is called |
| TransactionHandle.Handle.BeginNamed | src/handle.cc:84-88 | the name is added before the driver is called, so it stays when the driver fails |
| TransactionHandle.Handle.CommitNamed | src/handle.cc:90-94 | the last name is dropped, whatever name is given |
| TransactionHandle.Handle.RollbackNamed | src/handle.cc:96-100 | the last name is dropped, whatever name is given |
| NestedTransactions.OpenBlocksOnStack | src/drivers/sqlite3/handle.cc:136-160 | the open blocks are a subsequence of the server's savepoint stack, each standing for the savepoint it created, the innermost one's being the youngest of its name |
| NestedTransactions.OpenKeepsResolving | src/drivers/pg/handle.cc:241-249 | opening a block leaves every open block resolving to its own savepoint, under both same-name rules |
| NestedTransactions.UndoKeepsResolving | src/drivers/pg/handle.cc:259-265 | rolling back leaves a stale savepoint, and the enclosing blocks still resolve to their own |
| NestedTransactions.StepSimulates | src/handle.cc:67-100 | whatever the ideal nested machine allows, the real call fails exactly if the server rejects its write, and then leaves the whole handle as it was; otherwise the states still match |
| NestedTransactions.OnlyTheLastClosePublishes | src/drivers/pg/handle.cc:251-265 | inside a transaction the committed database changes only with the close that ends it |
| NestedTransactions.RunSimulates | src/drivers/pg/handle.cc:223-265 | the same over every run: nothing but a rejected write fails, and committed and working database, names and counter match throughout |
| NestedTransactions.DistinctNamesAreOk | src/drivers/pg/handle.cc:241-249 | names that differ from all enclosing open names meet either rule's discipline; siblings may share names |
| NestedTransactions.CallsMean | src/drivers/pg/handle.cc:241-265 | the ideal machine allows a well-named program anywhere and ends where its recursive meaning says |
| NestedTransactions.MeaningPreserved | src/drivers/pg/handle.cc:223-265 | a well-named program, flattened into statements, fails exactly if one of its writes is rejected and otherwise leaves exactly its recursive meaning committed: committed blocks keep their effect, rolled back blocks undo exactly theirs |
| NestedTransactions.UnnamedMeaningPreserved | src/drivers/mysql/handle.cc:169-211 | the same inside an unnamed begin, closed by an unnamed commit or rollback |
| NestedTransactions.PerformFrom | src/handle.cc:67-100 | a caller making a program's calls on a handle, from any state that stands for nested blocks: the handle then stands for the blocks with the program's meaning, or a write was rejected and nothing of the open transaction is committed |
| NestedTransactions.Perform | src/examples/demo.cc:58-74 | the same outside every transaction: exactly the program's meaning is committed, no transaction is open and no name is left |
| NestedTransactions.PerformAtomically | src/handle.cc:78-88 | a block whose caller answers a rejected write with an unnamed rollback commits all of its meaning or leaves database and handle as they were |
| NestedTransactions.PerformSalvaging | src/handle.cc:84-100 | a caller who catches what is thrown inside a block and rolls it back by its name: wherever the handle stood, it stands there again with what was salvaged |
| NestedTransactions.PerformCatching | src/handle.cc:67-100 | the same outside every transaction: exactly what was salvaged is committed, no transaction is open and no name is left, also after a rejected write |
| NestedTransactions.SalvageMeans | src/drivers/pg/handle.cc:241-265 | what is salvaged is the recursive meaning if no write is rejected |
| SavepointNames.NamesReusedExactly | src/drivers/mysql/handle.cc:187-211 | every program with a given forest of named blocks, whatever its writes and endings, means what it should if and only if each path of names down the forest meets the rule's condition |
| SavepointNames.CommittedForest | src/drivers/mysql/handle.cc:197-203 | where savepoints replace namesakes, a committed forest runs only if it leaves the state as it was and all its names were new, or leaves fewer savepoints than it found |
| SavepointNames.UndoneMisleads | src/drivers/sqlite3/handle.cc:154-160 | where they shadow, the outer of two rolled back namesakes anywhere in a forest finds the inner one's savepoint, and its own write stays |
| Decimal.TextParses | src/drivers/mysql/binary_result.cc:122-138 | rendering an integer with %d loses nothing |
| Decimal.PaddedParses | src/drivers/mysql/binary_result.cc:160-175 | zero filling keeps the number and gives the width asked for, or the number's own |
| Decimal.PaddedNegative | src/drivers/mysql/binary_result.cc:160-175 | the same of a negative number, with its sign in front |
| WireFormat.LengthRoundTrip | src/drivers/mysql/binary_result.cc:12-36 | the canonical encoding of any 64-bit length decodes to its low 32 bits, moving the pointer by exactly 1, 3, 4 or 9 |
| WireFormat.NetFieldLength | src/drivers/mysql/binary_result.cc:12-36 | the decoder's branches compute that decoding |
| PacketBytes.LengthBytes | src/drivers/mysql/binary_result.cc:12-36 | byte by byte what a length is, how far the pointer moves, and when it would leave the packet |
| PacketBytes.IntegerBytes | src/drivers/mysql/binary_result.cc:116-138 | byte by byte the number each integer field shows |
| PacketBytes.RealBytes | src/drivers/mysql/binary_result.cc:140-154 | the pattern a FLOAT or DOUBLE is read from, and that its first 31 or 63 characters are shown |
| PacketBytes.DateBytes | src/drivers/mysql/binary_result.cc:95-114 | byte by byte the text of a date |
| PacketBytes.TimeBytes | src/drivers/mysql/binary_result.cc:38-64 | byte by byte the text of a time, hours signed and modulo 2^32 |
| PacketBytes.DateTimeBytes | src/drivers/mysql/binary_result.cc:66-93 | byte by byte the text of a datetime of any length |
| PacketBytes.ZeroTexts | src/drivers/mysql/binary_result.cc:7-10 | the texts of the zero date and the zero clock |
| PacketBytes.TextBytes | src/drivers/mysql/binary_result.cc:178-192 | each byte of length-prefixed data comes out as one character |
| PacketBytes.NullFlag | src/drivers/mysql/binary_result.cc:243-252 | which bit of which byte is a column's NULL flag |
| PacketBytes.HeaderIsLeast | src/drivers/mysql/binary_result.cc:246-247 | the header is the fewest bytes that hold two reserved bits and one for each column |
| PacketBytes.FieldsFollowHeader | src/drivers/mysql/binary_result.cc:243-249 | the first field is read at byte (columns + 9) / 8, of any packet |
| PacketBytes.TinyRow | src/drivers/mysql/binary_result.cc:243-304 | a packet of TINY columns without NULL is read byte by byte from there |
| PacketBytes.RowWidth | src/drivers/mysql/binary_result.cc:240-307 | decoding a row reads (columns + 9) / 8 bytes and the widths of its fields that are not NULL |
| RowCodec.FieldRoundTripsExactly | src/drivers/mysql/binary_result.cc:252-297 | a field at any place of a packet comes out as the value's own text, sign and every digit included, with decoding stopping right behind it, exactly if the value is one of those listed above |
| RowCodec.FieldShows | src/drivers/mysql/binary_result.cc:116-192 | what comes out of any field of a type the decoder knows, and where decoding stops |
| RowCodec.IntegerRoundTripsExactly | src/drivers/mysql/binary_result.cc:122-138 | a number in an integer column of any width, signed or unsigned, comes out as itself exactly if it is below half the unsigned range |
| FloatText.RealOfFields | src/drivers/mysql/binary_result.cc:140-154 | a pattern put together from sign, exponent and fraction is read as the number the standard gives it, subnormal numbers included |
| FloatText.SingleValue | src/drivers/mysql/binary_result.cc:140-146 | the value of every FLOAT pattern, with bias 127 and 23 fraction bits |
| FloatText.DoubleValue | src/drivers/mysql/binary_result.cc:148-154 | the value of every DOUBLE pattern, with bias 1023 and 52 fraction bits |
| FloatText.FixedReadsBack | src/drivers/mysql/binary_result.cc:140-154 | the digits on both sides of the point give the number back, and a minus sign stands exactly before a negative one |
| FloatText.NearestIsClosest | src/drivers/mysql/binary_result.cc:140-154 | %f rounds to the nearest sixth decimal place, ties to even |
| FloatText.ReducedKeeps | src/drivers/mysql/binary_result.cc:140-154 | the number of a bit pattern is kept when it is brought to lowest terms |
| FloatText.ScaledIsExact | src/drivers/mysql/binary_result.cc:140-154 | the text a number is compared with is its exact decimal expansion |
| FloatText.LimitedExactly | src/drivers/mysql/binary_result.cc:140-154 | %f cut off by snprintf is that expansion exactly if six places hold it and its whole part has room |
| RowCodec.DateTimeParses | src/drivers/mysql/binary_result.cc:66-93 | datetimes in all four lengths, the empty one included |
| RowCodec.TimeParses | src/drivers/mysql/binary_result.cc:38-64 | times in all three lengths: days folded into hours |
| RowCodec.SignDropped | src/drivers/mysql/binary_result.cc:156-161 | any nonzero time and its negative, two different values, come out alike |
| TextLayout.DateReadsBack | src/drivers/mysql/binary_result.cc:163-168 | the digits of a date at their places spell year, month and day, in this order |
| TextLayout.ClockReadsBack | src/drivers/mysql/binary_result.cc:156-161 | the same of hours, minutes and seconds |
| TextLayout.TemporalTexts | src/drivers/mysql/binary_result.cc:156-176 | the three temporal texts put the fields where they belong |
| TextLayout.OwnTemporalTexts | src/drivers/mysql/binary_result.cc:38-114 | the own text of every temporal value the shown one is compared with |
| TextLayout.FractionReadsBack | src/drivers/mysql/binary_result.cc:86-87 | a fraction of a second is a point and six digits |
| RowCodec.BytesRoundTrip | src/drivers/mysql/binary_result.cc:178-192 | length-prefixed data of any length below 2^32 |
| RowCodec.Int24Fails | src/drivers/mysql/binary_result.cc:294-296 | no INT24 value ever decodes to its number and ends where it should |
| RowCodec.YearFails | src/drivers/mysql/binary_result.cc:294-296 | no YEAR value does either |
| RowCodec.BitmapRoundTrip | src/drivers/mysql/binary_result.cc:243-252 | column j's NULL flag is bit (j+2) mod 8 of byte (j+2) div 8 of the header |
| RowCodec.RowRoundTrip | src/drivers/mysql/binary_result.cc:240-307 | decoding an encoded row gives exactly its NULLs and what its values show, and stops at the packet's end |
| RowCodec.RowRoundTripsExactly | src/drivers/mysql/binary_result.cc:240-307 | it gives the row's own values exactly if every one of them survives |
| BinaryResult.IntegerFits | src/drivers/mysql/binary_result.cc:116-138 | no integer text reaches its snprintf limit of 5, 8, 16 or 32 |
| BinaryResult.TemporalFits | src/drivers/mysql/binary_result.cc:156-176 | no temporal text reaches its limit of 128 or holds a NUL |
| BinaryResult.ReadBinaryTime | src/drivers/mysql/binary_result.cc:38-64 | computes the time decoding, hours below 2^32 |
| BinaryResult.ReadBinaryDateTime | src/drivers/mysql/binary_result.cc:66-93 | computes the datetime decoding |
| BinaryResult.ReadBinaryDate | src/drivers/mysql/binary_result.cc:95-114 | computes the date decoding |
| BinaryResult.CopyPackets | src/drivers/mysql/binary_result.cc:419-436 | the copied list has the source's packets in the same order, in fresh nodes, ending in null |
| BinaryResult.MySqlBinaryResult.constructor | src/drivers/mysql/binary_result.cc:402-447 | position 0, nothing buffered, 1024 bytes a column holding whatever the memory held |
| BinaryResult.MySqlBinaryResult.FetchInteger | src/drivers/mysql/binary_result.cc:116-138 | fills one column with the field's text, moves the pointer behind it, touches no other column |
| BinaryResult.MySqlBinaryResult.FetchReal | src/drivers/mysql/binary_result.cc:140-154 | the same for FLOAT and DOUBLE, cut off at 31 and 63 characters |
| BinaryResult.MySqlBinaryResult.FetchTemporal | src/drivers/mysql/binary_result.cc:156-176 | the same for dates and times |
| BinaryResult.MySqlBinaryResult.FetchBin | src/drivers/mysql/binary_result.cc:178-192 | the same for length-prefixed data; the buffer never shrinks and has room for the data and a NUL |
| BinaryResult.MySqlBinaryResult.FetchColumn | src/drivers/mysql/binary_result.cc:250-298 | the NULL byte read lies inside the header; the cell is NULL or the field |
| BinaryResult.MySqlBinaryResult.FillBuffers | src/drivers/mysql/binary_result.cc:240-303 | the shifting bit walks the bitmap, and all columns hold the row's decoding; the pointer ends where the decoding ends |
| BinaryResult.MySqlBinaryResult.FetchRow | src/drivers/mysql/binary_result.cc:240-307 | decodes the packet under the cursor and moves the cursor to the next node, null exactly at the end |
| BinaryResult.MySqlBinaryResult.ReadRow | src/drivers/mysql/binary_result.cc:309-329 | returns the next row's direct decoding, or false exactly at the end |
| BinaryResult.MySqlBinaryResult.ReadHash | src/drivers/mysql/binary_result.cc:331-343 | the same by column name |
| BinaryResult.HashHoldsLastColumn | src/drivers/mysql/binary_result.cc:337-341 | under each name, the last column of that name |
| BinaryResult.HashKeys | src/drivers/mysql/binary_result.cc:336-341 | exactly the columns' names are keys |
| BinaryResult.MySqlBinaryResult.ReadCell | src/drivers/mysql/binary_result.cc:345-361 | the cell of the row the cache serves, null out of range; for the row before the position whatever its buffer held, read or not |
| BinaryResult.MySqlBinaryResult.Seek | src/drivers/mysql/binary_result.cc:387-395 | moves the position and the cursor together, or neither when out of range |
| BinaryResult.MySqlBinaryResult.Rewind | src/drivers/mysql/binary_result.cc:397-400 | back to the first row |
| BinaryResult.ReadRemaining | src/examples/demo.cc:53-56 | reading until false gives exactly the remaining rows in order |
| BinaryResult.ReadBack | src/drivers/mysql/binary_result.cc:240-447 | from the server's rows to the reader's: encoded, listed, copied and read to the end, each row is what its values show, and itself exactly if every one of them survives |
| RowCache.StaysCoherent | src/drivers/mysql/binary_result.cc:309-400 | over every interleaving of reads, seeks and rewinds, the row before the position is the buffered one unless a seek is pending |
| RowCache.ReadingGoesOn | src/drivers/mysql/binary_result.cc:309-400 | after a cell in range the next row read returns the row behind it, after a seek the row sought, after a rewind the first; calls out of range move nothing |
| RowCache.FetchedLast | src/drivers/mysql/result.cc:33-107 | which calls fetch a row, and which row |
| RowCache.CellComesFromItsRowExactly | src/drivers/mysql/binary_result.cc:345-357 | after any run a cell comes from its own row, except exactly for the row before a pending seek's target when another row is buffered |
| RowCache.SeekMisleads | src/drivers/mysql/binary_result.cc:349-356 | the exception occurs: fetch row 0, seek to 2, ask for row 1 |
| RowCache.DrainYieldsTheRest | src/drivers/mysql/result.cc:33-57 | from any position, n row reads return the remaining rows in order and then nothing |
| TextResult.MySqlResult.ReadRow | src/drivers/mysql/result.cc:33-57 | the next row, or false exactly at the end; position and library cursor stay together |
| TextResult.MySqlResult.ReadCell | src/drivers/mysql/result.cc:79-96 | the cell of the row the cache serves, null out of range; a dereference of the unset pointer exactly for the row before the position when no row was ever fetched |
| TextResult.MySqlResult.Seek | src/drivers/mysql/result.cc:104-107 | takes any position, also past the end |
| TextResult.MySqlResult.Rewind | src/drivers/mysql/result.cc:194-197 | back to the first row |
| Placeholders.TokenDecidesCast | src/drivers/pg/common.cc:7-11 | a parameter's cast is int, float, text or none by its token's last character |
| Placeholders.MatchesExactly | src/drivers/pg/common.cc:21 | the regular expression matches exactly where one of its tokens, spelled out, stands with no quote directly before or behind it |
| Placeholders.ReplacedClean | src/drivers/pg/common.cc:21-36 | a replacement holds no match, completes none before it and hides none behind quotes |
| Placeholders.ReplaceLeftmost | src/drivers/pg/common.cc:23-36 | each turn of the loop stays on the way to the one-pass rewrite and leaves exactly one match less |
| Placeholders.LookUpType | src/drivers/pg/common.cc:24-31 | the search finds the first entry for the token, if any |
| Placeholders.PqPreprocessQuery | src/drivers/pg/common.cc:17-37 | the loop ends; its result is one left-to-right pass that numbers the matches 1 to n, has no match left, and is unchanged by a second run |
| Placeholders.PreprocessQuery | src/drivers/mysql/common.cc:13-19 | the same for the rewriting to question marks |
| Placeholders.CleanIsFixed | src/drivers/sqlite3/common.cc:7-12 | text without a match is left alone |
| Placeholders.TokensPutBack | src/drivers/pg/common.cc:23-36 | putting every token back gives the query: nothing but the matches is touched |
| Placeholders.NumbersWithin | src/drivers/pg/common.cc:26-33 | the matches are numbered from 1 to their count |
| Interpolation.SplitQuery | src/drivers/mysql/common.cc:22-29 | the nested loops cut at every question mark; one at the very end starts no part |
| Interpolation.Quote | src/drivers/mysql/common.cc:41-54 | the quoted escape, with every buffer access in bounds although the buffer is reused |
| Interpolation.InterpolateBind | src/drivers/mysql/common.cc:21-60 | for every query and any number of values: character-wise substitution, plus one surplus value at the end of a query that does not end in a question mark |
| Interpolation.InterleavedSubstitutes | src/drivers/mysql/common.cc:22-57 | splitting and interleaving is that substitution |
| Interpolation.InterpolationSubstitutes | src/drivers/mysql/common.cc:21-60 | with one value for each question mark it is substitution and nothing else |
| Interpolation.SentSpelledOut | src/drivers/mysql/common.cc:31-57 | the text sent, in terms of the query up to its first question mark, NULL or the quoted escape, and the rest of both |
| Interpolation.QuestionMarksCounted | src/drivers/sqlite3/common.cc:7-12 | the rewritten text has one question mark for each PostgreSQL parameter and one for each quoted question mark |
| Interpolation.QuestionMarksFreeExactly | src/drivers/pg/common.cc:21 | every question mark is a match exactly if no quote stands directly before or behind one |
| Interpolation.ParametersAgreeExactly | src/drivers/sqlite3/common.cc:7-12 | the rewritten text holds as many question marks as PostgreSQL has parameters exactly if no question mark touches a quote |
| Interpolation.DriversAgreeExactly | src/drivers/mysql/common.cc:13-60 | with one value for each parameter of PostgreSQL, MySQL's text is PostgreSQL's template with value k in place of parameter k exactly if no question mark touches a quote |
| Pieces.CutIsSplit | src/drivers/sqlite3/handle.cc:215-227 | the pieces are the usual split, less a last piece that is empty |
| Pieces.SplitClean | src/drivers/sqlite3/handle.cc:215-227 | no piece of a split holds the separator |
| Pieces.SplitJoins | src/drivers/sqlite3/handle.cc:215-227 | joining what a text splits into gives the text |
| Pieces.JoinSplits | inc/dbic++/string_io.h:32-35 | splitting what pieces without the separator join to gives the pieces |
| StringBuffer.QueueExactly | src/string_io.cc:22-96 | over every run, what was handed out or truncated and what is pending are together exactly what was written, if and only if no call writes text behind a readline that took an unterminated last line, before the next truncate |
| StringBuffer.FirstCarelessWrite | src/string_io.cc:22-30 | such a write loses its first character and nothing else |
| StringBuffer.WholeLinesSafe | src/string_io.cc:22-96 | a caller whose texts all end in a newline loses nothing, however it reads |
| StringBuffer.LossReachable | src/string_io.cc:79-91 | the loss occurs: write "a", read the line, write "b" |
| StringBuffer.StringIO.constructor | src/string_io.cc:4-10 | an empty buffer |
| StringBuffer.StringIO.FromText | src/string_io.cc:12-20 | a buffer holding the given text |
| StringBuffer.StringIO.Reserve | src/string_io.cc:23-27 | room for what is written, what was written is kept, and the allocation stays within 1024 and three times the bytes ever written |
| StringBuffer.StringIO.Write | src/string_io.cc:22-30 | appends, or loses the first byte behind an overrun |
| StringBuffer.StringIO.Read | src/string_io.cc:45-55 | the next chunk of at most 16384 |
| StringBuffer.StringIO.ReadInto | src/string_io.cc:57-67 | the next chunk into the caller's buffer, whose rest is untouched |
| StringBuffer.StringIO.Readline | src/string_io.cc:79-96 | the next line without its newline, or false exactly when nothing is pending |
| StringBuffer.StringIO.Truncate | src/string_io.cc:75-77 | empty again, any overrun forgotten |
| BulkLoad.BindLine | src/drivers/sqlite3/handle.cc:215-229 | for every line, up to its first NUL: the tab-separated fields less a trailing empty one, length one to NULL, surplus fields ignored, missing ones NULL; the loops end |
| BulkLoad.WriteRows | src/drivers/sqlite3/handle.cc:204-244 | every line bound and stepped in order, the row count, and the rows before the failing step if one fails |
| BulkLoad.RowBindsExactly | src/drivers/sqlite3/handle.cc:215-229 | a row of clean fields binds as itself exactly if no field has length one and the last is not empty |
| BulkLoad.RowBinds | src/drivers/sqlite3/handle.cc:215-229 | what each parameter is bound to by a row of clean fields, however many parameters there are |
| BulkLoad.NulEndsLine | src/drivers/sqlite3/handle.cc:216-227 | nothing behind a line's first NUL is looked at |
| BulkLoad.LineByLine | src/drivers/sqlite3/handle.cc:214-240 | an input is taken line by line, and a newline at its end starts no other |
| BulkLoad.TableRoundTripsExactly | src/drivers/sqlite3/handle.cc:214-240 | printing any table and loading it binds exactly its fields if and only if every row is one the format can carry |
| BulkLoad.LoadTable | src/examples/demo.cc:87-95 | a caller that prints a table into a new buffer and writes it gets exactly its rows inserted under the same condition, and the row count |
| SqliteResult.Sqlite3Result.Write | src/drivers/sqlite3/result.cc:68-85 | sets one column of the record being filled, beginning it if needed, and nothing else |
| SqliteResult.Sqlite3Result.Clear | src/drivers/sqlite3/result.cc:15-23 | nothing of an earlier run is left |
| SqliteResult.Sqlite3Result.ReadRow | src/drivers/sqlite3/result.cc:122-128 | the next record, or false exactly past the end |
| SqliteResult.Sqlite3Result.ReadCell | src/drivers/sqlite3/result.cc:140-150 | the cell, null when NULL or out of range |
| SqliteResult.Sqlite3Statement.LoadRow | src/drivers/sqlite3/statement.cc:69-84 | one stepped row is appended as one record |
| SqliteResult.CellNullExactly | src/drivers/sqlite3/statement.cc:70-83 | a cell is null exactly if its storage class is NULL or a number has no text; an empty text or blob is the empty text |
| SqliteResult.Sqlite3Statement.Execute | src/drivers/sqlite3/statement.cc:47-97 | whatever the result held, it then holds exactly the stepped rows, rewound; wrong bind counts leave it alone |
| SqliteResult.ReadRemaining | src/examples/demo.cc:80-83 | reading until false gives exactly the remaining records in order |

## Left out

- Connecting, sockets, asynchronous execution, tracing, driver loading, `reconnect`: I/O and foreign calls.
- The bodies of libpq, libmysqlclient, sqlite3 and pcre: they appear as the savepoint server, the packet list, the stepped rows, an escape function that at most doubles lengths, and a predicate for the one regular expression.
- SavepointServer.Exec: the server is strict, so a statement out of place fails; servers that only warn about `COMMIT` outside a transaction, commit implicitly on a second `BEGIN`, or refuse everything after an error until rollback, are not modelled.
- TransactionHandle.Run: names are plain strings, compared exactly; identifier folding, and MySQL's placeholder rewriting of a name that holds a placeholder, are not modelled.
- RowCodec.OwnText: an infinite or not-a-number FLOAT or DOUBLE is given the text glibc prints; MySQL columns hold none.  A time's fraction is written with six digits or not at all.
- RowCodec.RowRoundTripsExactly: rows in which an INT24 or YEAR is not NULL are excluded; such a field ends in the wrong place, so what the fields behind it show is arbitrary.
- BinaryResult.MySqlBinaryResult.ReadCell: for a row that was never fetched the source reads an uninitialised buffer; its content is a parameter of the constructor, and reading on past its end when it holds no NUL is not modelled.
- BinaryResult.MySqlBinaryResult.constructor: the packets are those a server sends for the column types, and as many as the library counts; on others the source reads outside the packet.
- StringBuffer.StringIO.Reserve: sizes are unbounded; 64-bit overflow and failing allocation are not modelled.
- The `binary` mark of a value, column type tables, SQLite's lazy column types, `lastInsertID`: bookkeeping beside the values.
- PostgreSQL's and MySQL's own bulk loads, `FileIO`, `writef`, `FieldSet`, `PgResult`, the escaping of connection strings, the forwarding in `Query`, `Statement` and `Result`: easy members or plumbing.
- Memory management: `finish` and the destructors.
