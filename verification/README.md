# A verified model of the data generator's engine

The generator reads a configuration of interfaces, tables and columns and writes comma-separated data files.
This project models the engine behind it (which table is built when, where each column sits in a row, which
value each row gets) and proves what that engine keeps over whole runs. Random numbers, row failures and
percentage products are arbitrary inputs, so the theorems hold for every random stream.

| file | part of the program |
|---|---|
| `TableGraph.dfy`, `Scheduler.dfy` | production rounds over an interface's tables |
| `Registration.dfy` | where the dependency graph comes from |
| `RecordLayout.dfy`, `LayoutTheorems.dfy` | offsets and lengths of a table's struct and union tree |
| `ByteText.dfy`, `ExampleCodec.dfy`, `ExampleFile.dfy` | the example file format, printed and parsed |
| `TableFill.dfy`, `SeedTiling.dfy` | writing rows, drawing rows, filling from a seed file |
| `UniqueRandom.dfy`, `Accumulate.dfy`, `RedefineRow.dfy`, `Merge.dfy` | column generators |
| `PercentSelect.dfy`, `MultiFile.dfy` | row selectors |
| `Dimension.dfy` | the dimension column index and loader |
| `FisherYates.dfy`, `Shuffle.dfy` | the in-place shuffle and the line shuffler |
| `Arithmetic.dfy`, `Cyclic.dfy`, `Options.dfy` | shared facts about remainders, windows and optional values |

Code that changes its objects step by step is modelled by classes, arrays and loops. Each such method equals
a specification function of the old state (`Abs`, `Contents`, `Row`), and the theorems are lemmas about runs
of that function.

## What holds only under a condition

The theorems describe the code as it is written. Where a promise fails, the exact condition is proved.

- The production loop's exit test is met at some round if and only if the graph has no cycle and every table
  without dependencies owes at least one file and no fewer than any table that waits for it (`ExitTest`,
  `ProducibleIffAcyclicAndSupplied`). Only parameter references compare file numbers; attribute references
  do not (`AcceptedGraphsAgree`). Even then a table may end with files too many (`ExactFileNumbers`).
- The start of a struct or union is kept in one register per kind, which nested groups overwrite, and the
  offset is not set back between union members. Lengths are right for every tree, offsets exactly for
  faithful trees (`OffsetsRightIffFaithful`); without unions the entry size is right for the same trees
  (`EndRightIffFaithful`), the columns' own offsets for more (`ColumnsRightIff`).
- Numbers from 2^63 on come back from the reader as 2^63 - 1, strings with a comma come back cut, strings
  that fill their 256 bytes overrun their column, bytes behind a string's NUL come back as zeros, a newline
  in a string ends the line, a line of 2^16 bytes or more is cut, and a row that prints as an empty line ends
  the reading; exactly the tables without any of these come back (`RowThereAndBack`, `FileRestoredIff`).
- CSV texts are counted in 8 bits, so a text 256 places further on replaces a column's own
  (`LastCountedIs`).
- A file window that ends at the end of its file has end row 0, which the walk never meets, so it goes
  through the whole file (`WindowWalkIffEndNotZero`).
- A dimension file without rows stops the placing of the windows behind it, which are then read from their
  first row on (`FillDimensionInfo`, `UnplacedReadsInOrder`).
- A counter value plus its step can wrap in 64 bits before it is compared with the range (`StepKeptIff`,
  `StepWraps`).
- A total of 2^32 rows or more is cut to 32 bits before it is redistributed (`WholeTotalGoesOut`).
- The shuffler drops an unfinished last line (`NothingLostIffNewlineTerminated`), and its line records have
  room for 1024 * 1024 lines, half of what the index array has room for (`ScanLines`).
- The slots of a multi-file column, a loaded dimension row and a seeded table can be written past their end;
  the methods report exactly when (`FillSlots`, `LoadRow`, `FillAllTheTableData`).
- A column that draws rows from its own table can draw the row being filled (`OwnTableMayDrawCurrentRow`),
  and the low bound of such a draw is checked but not applied.

## Model

| member | source | states |
|---|---|---|
| TableGraph.CountAfterRounds | src/struct/AlignDataObject.cc:435-457 | On every graph, cyclic or not and with any file numbers, each table has min(r, supply) files after r rounds; what a table's supply is, `SupplyIsReachableMinimum` says |
| TableGraph.SupplyIsReachableMinimum | src/struct/AlignDataObject.cc:435-457 | A table's supply is 0 if it is on or waits for a cycle, and else the least file number among the tables without dependencies that it reaches: supply is at least r > 0 if and only if no cycle is reached and every such table owes at least r files |
| TableGraph.ExitTest | src/struct/AlignDataObject.cc:435-435 | The outer loop's exit test holds after r rounds if and only if the graph is producible and r has reached the largest file number; on any other graph it holds after no number of rounds |
| TableGraph.ProducibleIffAcyclicAndSupplied | src/struct/AlignDataObject.cc:435-457 | The graphs on which production can end are exactly the acyclic ones in which every table without dependencies owes at least as many files as each table that waits for it, and at least one |
| TableGraph.IntendedConfigurations | src/struct/AlignDataObject.cc:435-457 | Acyclic graphs with equal file numbers along edges and at least one file each end with exactly the configured file numbers |
| TableGraph.ExactFileNumbers | src/struct/AlignDataObject.cc:441-441 | A producible graph ends with exactly the configured file numbers if and only if every table that owes fewer files than the loop runs rounds waits for a table without dependencies that owes no more than it does |
| TableGraph.OneFileTooMany | src/struct/AlignDataObject.cc:441-441 | A producible two-table graph in which the waiting table ends with one file too many |
| TableGraph.UnequalEdgeNeverFinishes | src/struct/TableObject.cc:267-305 | A two-table configuration with unequal file numbers whose exit test holds after no number of rounds |
| TableGraph.RoundLogIsBuilt | src/struct/AlignDataObject.cc:437-449 | Whatever the map order, a round builds exactly the tables whose dependencies can all be built in it |
| TableGraph.BuildStep | src/struct/TableObject.cc:484-513 | Building a ready table keeps the build order topological and without repetition |
| TableGraph.AdvanceStep | src/struct/TableObject.cc:515-541 | Telling one more dependent leaves only the dependents not yet told newly ready |
| TableGraph.PlaceAbove | src/struct/TableObject.cc:515-541 | A dependent's place in the build order lies above its dependency's: the reason the recursion ends on cyclic graphs |
| TableGraph.BuiltBySupply | src/struct/AlignDataObject.cc:435-457 | Round r builds exactly the tables whose supply is at least r |
| Scheduler.Table.CheckStatus | src/struct/TableObject.h:98-124 | The new status: not ready when some dependency is not done, ready instead of not ready otherwise, and never a demotion of a table whose dependencies are done |
| Scheduler.Table.CreateTableData | src/struct/TableObject.cc:384-422 | One file: it succeeds exactly when each of its rows does, and then all rows are filled, the file is counted and the finished flag goes up at the last one; the tables it waits for are full when it runs |
| Scheduler.Table.NotifyAllDependedTable | src/struct/TableObject.cc:484-545 | The recursive notification keeps the round's invariant, builds no table twice or before its dependencies, leaves nothing newly ready, and terminates on every graph |
| Scheduler.Interface.DoneIsFinal | src/struct/TableObject.h:98-124 | In every state of a round a done table has all its dependencies done and full |
| Scheduler.Interface.CheckAllTheTableFull | src/struct/AlignDataObject.cc:656-671 | The exit test reads exactly the tables' finished flags |
| Scheduler.Interface.WalkTables | src/struct/AlignDataObject.cc:437-449 | The walk over the map builds each table at most once, in dependency order, and leaves no ready table unbuilt |
| Scheduler.Interface.ResetTables | src/struct/AlignDataObject.cc:450-456 | Statuses and fill positions go back to the start, file counts stay |
| Scheduler.Interface.ProduceRound | src/struct/AlignDataObject.cc:435-457 | One pass of the outer loop succeeds exactly when every row it asks for does, and turns the file counts into the next round's |
| Scheduler.Interface.StartProduceData | src/struct/AlignDataObject.cc:420-462 | On a producible graph production ends, after as many rounds as the largest file number and with every table finished, exactly when every row of every file it makes can be produced; otherwise it reports the failure |
| Registration.TableLists.Process | src/struct/ParameterObject.cc:199-237 | A reference is refused or recorded in both tables' lists; a parameter on the own table records nothing, one on a table with another file number is refused |
| Registration.TableLists.AddDependency | src/struct/TableObject.cc:302-304 | One edge, in the waiting table's list and in the awaited table's list |
| Registration.AcceptedIff | src/struct/ParameterObject.cc:199-237 | A configuration is accepted if and only if every reference names an existing table and column and every parameter a column of its own table or of one with the same file number |
| Registration.AcceptedGraphsAgree | src/struct/ParameterObject.cc:217-231 | An accepted configuration has equal file numbers along all edges if and only if its attribute references agree |
| Registration.EdgesAreReferences | src/struct/TableObject.cc:267-305 | The recorded edges are exactly the references to other tables, and attribute references to the own table |
| RecordLayout.OffsetStack.Push | src/com/Comm.cc:238-246 | Pushing appends the group, or refuses at 100 open groups and changes nothing |
| RecordLayout.OffsetStack.Pop | src/com/Comm.cc:248-256 | Popping removes and returns the innermost open group |
| RecordLayout.DynamicArrayMax | src/com/Comm.cc:210-220 | The largest member length, and 0 without members |
| RecordLayout.LayoutCompiler.ParseNode | src/sub/parser/XmlParser.cc:1325-1463 | For every tree the stack machine computes the written walk's offsets and lengths and returns with the stack as it was, but for the length credited to the group around |
| RecordLayout.LayoutCompiler.ParseStruct | src/sub/parser/XmlParser.cc:1364-1413 | A struct's length is the sum of its members', at the start register's value after them |
| RecordLayout.LayoutCompiler.ParseUnion | src/sub/parser/XmlParser.cc:1416-1463 | A union's length is the largest of its members', at the start register's value after them |
| RecordLayout.LayoutCompiler.ParseBody | src/sub/parser/XmlParser.cc:1474-1482 | A body is walked from offset 0 and ends with its entry size and an empty stack |
| RecordLayout.OpenedStep | src/sub/parser/XmlParser.cc:1346-1359 | Crediting members one by one gives an open group the sum or maximum of their lengths |
| LayoutTheorems.SizeIsPlainSize | src/sub/parser/XmlParser.cc:1325-1463 | Up to 100 open groups the computed length is the recursive one: struct sum, union maximum |
| LayoutTheorems.LayoutInside | src/sub/parser/XmlParser.cc:1380-1397 | Intended layout: every node lies inside each of its ancestors |
| LayoutTheorems.MembersTile | src/sub/parser/XmlParser.cc:1380-1397 | Intended layout: struct members follow each other without gaps and stay inside the struct |
| LayoutTheorems.SiblingsDisjoint | src/sub/parser/XmlParser.cc:1380-1397 | Intended layout: nodes of different struct members never overlap |
| LayoutTheorems.RecordedStarts | src/sub/parser/XmlParser.cc:1364-1463 | For every tree, faithful or not, a group's recorded start is the offset at which the last group of its kind inside it was opened, or its own, and the walk goes on that start plus the group's length |
| LayoutTheorems.OffsetsRightIffFaithful | src/sub/parser/XmlParser.cc:1380-1445 | The written walk gives every node its intended offset if and only if the last group opened in each group starts where it does and nothing of positive size precedes a union member |
| LayoutTheorems.EndRightIffFaithful | src/sub/parser/XmlParser.cc:1364-1413 | In a union-free tree the walk ends where the tree does, so that the entry size is right, if and only if the tree is faithful |
| LayoutTheorems.ColumnsRightIff | src/sub/parser/XmlParser.cc:1340-1413 | In a union-free tree the walk gives every column its intended offset if and only if no column follows, in its group or a group around it, a member that is not faithful |
| LayoutTheorems.FlatIsFaithful | src/sub/parser/XmlParser.cc:1340-1343 | Flat bodies are laid out as intended |
| LayoutTheorems.NestedStructMisplaced | src/sub/parser/XmlParser.cc:1395-1397 | A struct with a nested struct behind a column of positive width is not: its end and a start are wrong, though its columns are right |
| LayoutTheorems.UnionMemberMisplaced | src/sub/parser/XmlParser.cc:1435-1438 | A union's second member is misplaced when the first has a positive width |
| ByteText.AtollOfDigits | src/file/Example/Example.cc:89-89 | Reading back a printed number is exact below 2^63 and stuck at 2^63 - 1 from there on |
| ByteText.AtollReads | src/file/Example/Example.cc:84-89 | A token of space, an optional sign, digits and anything behind them reads as the signed number, saturated at the ends of 64 bits |
| ByteText.AtollOfNoNumber | src/file/Example/Example.cc:84-89 | A token without a number reads as 0 |
| ByteText.DigitAt | src/file/Example/Example.cc:246-251 | A printed number's digit i from the right is the number divided by 10^i, modulo 10, and no zero stands in front |
| ByteText.WordByte | src/file/Example/Example.cc:248-248 | Byte i of a number in memory is the number divided by 256^i, modulo 256 |
| ExampleCodec.WriteColumn | src/file/Example/Example.cc:225-268 | A column's text and a comma are appended, taken at the column's offset |
| ExampleCodec.EncodeData | src/file/Example/Example.cc:300-327 | A row prints as its columns' texts with the last comma turned into a newline; no text at all is an exception |
| ExampleCodec.ColumnHolds | src/com/Comm.cc:26-47 | An unsigned column of n bits holds a number if and only if it is below 2^n; a signed column is as wide as its unsigned twin, a text column holds 256 bytes, any other type none |
| ExampleCodec.OneColumnPrints | src/file/Example/Example.cc:240-262 | The three 8-byte types print their decimal number, the two text types their string, and a row that has only columns of other types is an exception |
| ExampleCodec.EntryColumn | src/file/Example/Example.cc:61-108 | A column takes the token up to the next comma and changes only its own bytes, a string's bytes past the token keeping what was there; running out of the line throws and changes nothing |
| ExampleCodec.TokenTaken | src/file/Example/Example.cc:74-102 | A column of any type takes the token up to the next comma, entering a number, a string padded to 256 bytes or nothing; behind the line's end it throws |
| ExampleCodec.UnprintedColumnThrows | src/file/Example/Example.cc:74-102 | The line of a column that is not printed and a number behind it does not parse back: the number's column finds no token |
| ExampleCodec.ParseOneLine | src/file/Example/Example.cc:142-172 | A line is entered column by column behind the rows before it, and changes nothing outside its own row even when it throws |
| ExampleCodec.FieldThereAndBack | src/file/Example/Example.cc:84-102 | Parsing a field's printed text restores its memory if and only if it is a number below 2^63 or a string under 256 bytes without comma in zeroed memory |
| ExampleCodec.LineThereAndBack | src/file/Example/Example.cc:61-172 | A line parses back to its row if and only if every field does |
| ExampleCodec.RowThereAndBack | src/file/Example/Example.cc:225-326 | Printing a row and parsing the line restores the row if and only if every field survives |
| ExampleCodec.FieldsArePlaced | src/file/Example/Example.cc:243-243 | Every column the codec visits sits where the intended layout puts it |
| ExampleCodec.VisitedInOrder | src/sub/parser/XmlParser.cc:1325-1463 | In every tree, unions included, the visited columns lie inside the tree and share no byte, whatever their types |
| ExampleCodec.CompiledRecord | src/sub/parser/XmlParser.cc:1474-1482 | For faithful, aligned bodies the compiled entry size is the number of bytes the parser consumes, and the visited columns follow each other at their compiled offsets |
| ExampleCodec.LengthCheckIffAligned | src/file/Example/Example.cc:166-170 | For union-free bodies the parser consumes exactly BodyData's length if and only if every column with a width is of a type the parser enters |
| ExampleCodec.EntrySizeIsParsedIff | src/file/Example/Example.cc:166-170 | For union-free bodies the compiled entry size is at least what the parser consumes, and equal if and only if the body is faithful and every column with a width is of a type the parser enters |
| ExampleFile.ReadData | src/file/Example/Example.cc:174-224 | The reader fills zeroed memory row after row up to the first empty line and refuses a count other than the file's lines |
| ExampleFile.ReadLines | src/file/Example/Example.cc:204-212 | The reading loop enters one line behind the other, stays inside the memory for the counted lines and stops at the first empty line |
| ExampleFile.UnfinishedLineCounts | src/file/Example/Example.cc:204-219 | A file whose last line lacks its newline reads exactly as with it |
| ExampleFile.FirstErrorFails | src/file/Example/Example.cc:204-219 | A first line that does not parse is an error whatever follows it |
| ExampleFile.TableGeneratedData | src/file/Example/Example.cc:538-570 | Whatever the columns, production succeeds exactly when every row prints some text, and the file is then the rows printed one after the other, each cut to its length's low 16 bits |
| ExampleFile.PrintedIsWritten | src/file/Example/Example.cc:560-568 | For sequential columns of the types the parser enters, that file is the rows' lines |
| ExampleFile.WrittenLines | src/file/Example/Example.cc:560-568 | A written file has as many lines as rows, and the reader parses those before the first blank one |
| ExampleFile.FileThereAndBack | src/file/Example/Example.cc:204-219 | For canonical rows that print on one line each, writing the table and reading the file restores its memory, unless a row prints as an empty line; then the reader reports a wrong count |
| ExampleFile.FileRestoredIff | src/file/Example/Example.cc:204-219 | For every table of the types the parser enters, writing it and reading the file restores its memory if and only if every row is canonical, prints below 2^16 bytes without a newline inside, and none prints as an empty line |
| ExampleFile.BlankRow | src/file/Example/Example.cc:207-208 | A row prints as an empty line if and only if its only column is an empty string |
| TableFill.TableBuffer.WriteColumn | src/fun/BaseFuncClass.cc:209-213 | A column write changes its bytes of the row being filled and no other row |
| TableFill.TableBuffer.CreateData | src/struct/TableObject.cc:472-481 | The fill position stays rows filled times entry size |
| TableFill.TableBuffer.ProduceRow | src/struct/TableObject.cc:621-643 | A row ends up with all its columns written and every other row unchanged |
| TableFill.ColumnsKeepTheirValues | src/struct/TableObject.cc:621-643 | Columns sharing no byte all keep their values in the finished row |
| TableFill.LastColumnWins | src/struct/TableObject.cc:621-643 | Where columns overlap, every byte of a finished row is the last column's that covers it, and uncovered bytes stay |
| TableFill.CompiledRowHoldsValues | src/struct/TableObject.cc:621-643 | For every tree of columns of any types a finished row holds every visited column's value at that column's intended offset, which in a faithful tree within the stack is the compiled one |
| TableFill.TableRandomRow | src/fun/BaseFuncClass.cc:1037-1055 | The drawn row, with the 32-bit row count less one for another table, or none when the low bound is beyond it |
| TableFill.LowBoundNotApplied | src/fun/BaseFuncClass.cc:1037-1055 | A row can be drawn if and only if the low bound is not beyond the last row and the row is at most the last row, the high bound and the highest random number: rows below the low bound are drawn too |
| TableFill.RandNumberEnds | src/fun/BaseFuncClass.cc:1055-1055 | An empty range gives 0, the highest possible high end stands for the highest random number, and random numbers a range apart give the same number |
| TableFill.OtherTableDrawsFilledRows | src/fun/BaseFuncClass.cc:1037-1055 | Draws from another table stay inside its filled rows if and only if it has a row (or nothing can be drawn) |
| TableFill.OwnTableMayDrawCurrentRow | src/fun/BaseFuncClass.cc:1037-1055 | When draws from the column's own table stay inside its filled rows |
| SeedTiling.SeededTable.SetAlignSeedFileNum | src/struct/TableObject.h:69-83 | The seed is limited to the configured row number, whatever the table's own is; if the two agree the seed fits the table's buffer |
| SeedTiling.SeededTable.CopyChunks | src/struct/TableObject.cc:757-772 | The chunked copy leaves seed row i modulo the seed's rows in row i; it leaves the buffer exactly if the seed has more rows than a table that has any |
| SeedTiling.SeededTable.CopyFirstRow | src/struct/TableObject.cc:746-755 | The line-by-line copy leaves the seed's first row in every row |
| SeedTiling.SeededTable.FillAllTheTableData | src/struct/TableObject.cc:726-782 | What the table holds after filling, for every mode, and exactly when the copy stays inside the buffer |
| SeedTiling.ChunkContinues | src/struct/TableObject.cc:763-766 | A chunk copied behind whole chunks continues the tiling |
| SeedTiling.TilingRepeats | src/struct/TableObject.cc:757-772 | The tiling starts with the seed and repeats with its length |
| SeedTiling.ModesCompare | src/struct/TableObject.cc:742-777 | The first-row mode fills like the whole-seed mode with a seed of one row, and any other text leaves every row blank |
| UniqueRandom.UniqueRandomFunc.Calculate | src/fun/BaseFuncClass.cc:2032-2145 | One call: restart, refill at a batch boundary, one draw from the pools |
| UniqueRandom.UniqueRandomFunc.RefillPools | src/fun/BaseFuncClass.cc:2055-2082 | A refill adds the next counter values to the pools, in unsigned 32-bit arithmetic |
| UniqueRandom.UniqueRandomFunc.PickValue | src/fun/BaseFuncClass.cc:2084-2130 | The draw's fallbacks between the three pools |
| UniqueRandom.CallLoads | src/fun/BaseFuncClass.cc:2037-2082 | With a table's first row or at a batch boundary the next blocks, counted from the low end if a table begins and the generator resets, lie on top of what the pools still hold; at any other call nothing changes |
| UniqueRandom.PoolNamed | src/fun/BaseFuncClass.cc:2049-2130 | A call draws exactly for random numbers up to the column's share, and the drawn value is a unique one exactly if the unique pool holds one and either the random number is in its share or the duplicate pools are empty |
| UniqueRandom.UniqueShare | src/fun/BaseFuncClass.cc:2086-2093 | While both kinds last, of the 32768 random numbers exactly 32768 times the batch percentage over 100 take a unique value |
| UniqueRandom.DrawingShare | src/fun/BaseFuncClass.cc:2049-2051 | Of the 32768 random numbers exactly 32768 times the percentage over 100 draw at all |
| UniqueRandom.CounterCycles | src/fun/BaseFuncClass.cc:2063-2066 | The counter started at the low end stands at low + k modulo the range size after k values |
| UniqueRandom.CounterComesBack | src/fun/BaseFuncClass.cc:2063-2066 | Behind the high end the counter goes to the low end if and only if the high end is not 2^64 - 1 or the low end is 0 |
| UniqueRandom.FreshValuesDiffer | src/fun/BaseFuncClass.cc:2063-2080 | Values pushed less than a range apart differ |
| UniqueRandom.Conservation | src/fun/BaseFuncClass.cc:2060-2130 | Over every run, resets mid-batch included, pooled and pushed values are the drawn and still pooled ones |
| UniqueRandom.CounterFollowsPushes | src/fun/BaseFuncClass.cc:2060-2082 | Over every run without reset the counter stands at the number of values taken |
| UniqueRandom.RowsCountDraws | src/fun/BaseFuncClass.cc:2053-2136 | Inside a table the row counter counts the calls that draw, modulo 2^32 |
| UniqueRandom.PickPops | src/fun/BaseFuncClass.cc:2089-2130 | A draw pops one of two stacks and comes back empty only when both are |
| UniqueRandom.BatchFits | src/fun/BaseFuncClass.cc:2057-2058 | The pools of a batch fit in it exactly when its unique part does, and then fill it but for at most one draw |
| UniqueRandom.RowNumbers | src/fun/BaseFuncClass.cc:2057-2058 | For every percentage the unique and duplicate row numbers are the 32-bit remainders divided by 100 and by 2, rounded down |
| UniqueRandom.FiftyPercentFits | src/fun/BaseFuncClass.cc:2057-2058 | From 50 percent on and without overflow they do |
| UniqueRandom.BelowFiftyNeverFits | src/fun/BaseFuncClass.cc:2057-2058 | Below 50 percent the unique part of a batch of fewer than 2^32 / 200 rows is greater than the batch |
| UniqueRandom.BatchDraws | src/fun/BaseFuncClass.cc:2037-2130 | For every random stream a batch entered with empty pools draws each unique value once and the duplicate block twice in the same reversed order, from the low end if a table begins and the generator resets, comes back empty exactly for the draws left over, and leaves the pools empty |
| UniqueRandom.BatchCounts | src/fun/BaseFuncClass.cc:2053-2130 | A batch whose values fit in the range draws each of its unique values exactly once, each of its duplicate values exactly twice, and no other value |
| UniqueRandom.BatchesShareNoValue | src/fun/BaseFuncClass.cc:2053-2130 | Over a run, batches that together take no more values than the range holds draw no value in common |
| UniqueRandom.BatchRunIsRun | src/fun/BaseFuncClass.cc:2053-2130 | The draws batch by batch are the draws of the whole run, for any cut into batches |
| UniqueRandom.DrawingRun | src/fun/BaseFuncClass.cc:2049-2145 | At any percentage the calls that draw are a run at percentage 100 from the same state: the calls left out only hand on the beginning of a table |
| UniqueRandom.DrawnBatchCounts | src/fun/BaseFuncClass.cc:2049-2145 | At any percentage a run whose drawing calls are a batch that fits in the range draws each unique value exactly once, each duplicate value exactly twice, and no other value |
| UniqueRandom.DrawnRunIsBatchRun | src/fun/BaseFuncClass.cc:2049-2145 | At any percentage the draws of a run whose drawing calls are cut into batches are the draws of those batches |
| Accumulate.AcculateFunc.Calculate | src/fun/BaseFuncClass.cc:1839-1887 | One call: restart, clamping, the batch's step back, the value stored and the next state |
| Accumulate.AcculateFunc.StepBackWhenDue | src/fun/BaseFuncClass.cc:1858-1865 | The counter goes back by the rest of the batch exactly at the batch's reset row |
| Accumulate.AcculateFunc.MoveOn | src/fun/BaseFuncClass.cc:1869-1887 | The step up, or one more call that holds the value |
| Accumulate.StoresIff | src/fun/BaseFuncClass.cc:1854-1856 | A call stores a value if and only if 100 times its random number plus one is at most 32768 times the percentage |
| Accumulate.StoringShare | src/fun/BaseFuncClass.cc:1854-1856 | Of the 32768 random numbers exactly 32768 times the percentage over 100 store a value |
| Accumulate.OutsideGoesToLowEnd | src/fun/BaseFuncClass.cc:1848-1852 | A counter stays exactly if it is in the range and goes to the low end from either side otherwise |
| Accumulate.RowsCountValues | src/fun/BaseFuncClass.cc:1869-1887 | Inside a table the row counter counts the values begun, modulo 2^32, and held calls count up to the duplicated unit |
| Accumulate.StepBackWraps | src/fun/BaseFuncClass.cc:1858-1865 | A step back below 0 wraps in 64 bits |
| Accumulate.CallsHoldValues | src/fun/BaseFuncClass.cc:1848-1887 | With percent 100 and no batches, call k of a run stores value number (n + k) divided by the duplicated unit, n calls having gone before, for all calls if and only if the steps between these values survive the 64-bit addition; tables may begin at any call that does not reset |
| Accumulate.StepKeptIff | src/fun/BaseFuncClass.cc:1869-1887 | A step up from a value of the range leads to the same clamped value in 64 bits if and only if the sum stays below 2^64, or what it wraps to is at most the low end or above the high end |
| Accumulate.RoomKeepsSteps | src/fun/BaseFuncClass.cc:1869-1887 | If the high end plus the step is below 2^64 every step survives |
| Accumulate.StepWraps | src/fun/BaseFuncClass.cc:1869-1887 | With the default high end and a step of 10 there is a run whose second call stores 4 and not the low end 0 |
| Accumulate.TableHoldsValues | src/fun/BaseFuncClass.cc:1839-1887 | Over a whole table, its first row included, the values rise like that from the configured start if the generator resets, and else from where it stood, under the same exact condition |
| Accumulate.ResettingFilesHoldValues | src/fun/BaseFuncClass.cc:1839-1887 | Over any number of files of a resetting generator each file's values rise from the configured start, and a value half given out at a file's end counts its calls on in the next, if and only if in each file the steps up to its last value survive |
| Accumulate.ValuesClosedForm | src/fun/BaseFuncClass.cc:1848-1852 | Value j rises by the step from the clamped start to the range's end and then cycles from the low end |
| Accumulate.ZeroStepIsConstant | src/fun/BaseFuncClass.cc:1848-1852 | A step of 0 stays at the clamped start |
| Accumulate.BatchNumbers | src/fun/BaseFuncClass.cc:1858-1865 | Without overflow the reset row is the batch's number of new values and the step back is the remainder of the batch |
| Accumulate.BatchRounding | src/fun/BaseFuncClass.cc:1860-1863 | For every percentage the reset row and the step back are the 32-bit remainders divided by 100, rounded down |
| Accumulate.BatchedTableStores | src/fun/BaseFuncClass.cc:1839-1887 | With batches of any size, step and duplicated unit, as long as the counter stays in its range, call k of a table stores the start plus a step for each value begun less the step back for each call on a reset row so far; a held value steps back at each of its calls |
| Accumulate.TableRepeatsTails | src/fun/BaseFuncClass.cc:1839-1887 | With batches of whole rows, step 1, no held values and no counter place beyond the range, call k of a whole table, its first row included, stores the start plus place k of the repeating pattern |
| Accumulate.FilesRepeatTails | src/fun/BaseFuncClass.cc:1839-1887 | Over any number of files each repeats the tails of its batches, from the configured start if the generator resets and else from where the file before left the counter |
| Accumulate.TailComesAgain | src/fun/BaseFuncClass.cc:1858-1887 | In that pattern the calls behind the new values give the last of them once more, and each batch starts as many values later as the one before had new ones |
| Accumulate.DrawingRun | src/fun/BaseFuncClass.cc:1853-1887 | At any percentage the calls that draw are a run at percentage 100 from the same state: the calls left out only hand on the beginning of a table |
| Accumulate.DrawnTableHoldsValues | src/fun/BaseFuncClass.cc:1839-1887 | At any percentage the values a table does get are the held values, under the same exact condition |
| Accumulate.DrawnTableRepeatsTails | src/fun/BaseFuncClass.cc:1839-1887 | At any percentage the values a table does get repeat the tails of their batches |
| Accumulate.DrawingFilesRun | src/fun/BaseFuncClass.cc:1839-1887 | At any percentage the drawing calls of files that each get a value are a run of files at percentage 100 |
| RedefineRow.RedefineRowFunc.Calculate | src/fun/FunctionObject.cc:254-311 | One file's rows: a percentage of the total while percentages last, an even share of what is left behind them, 0 past the last file, an error for an empty dimension file |
| RedefineRow.RedefineRowFunc.BaseOnPercent | src/fun/FunctionObject.cc:166-180 | A percentage takes at most what is left |
| RedefineRow.RedefineRowFunc.OutOfRowNumber | src/fun/FunctionObject.cc:237-250 | What is left is divided by the files still to come |
| RedefineRow.StepAnswers | src/fun/FunctionObject.cc:254-311 | Which calls answer 0, no new value, an error, the percentage cut to what is left, or an even part of what is left, as if-and-only-ifs |
| RedefineRow.Conservation | src/fun/FunctionObject.cc:166-250 | After every call rows handed out plus rows left equal the start, for any percentages |
| RedefineRow.TailIsEven | src/fun/FunctionObject.cc:237-250 | Behind the percentages file k of m gets (left + k) / m rows, and later calls nothing |
| RedefineRow.EvenSharesAreEven | src/fun/FunctionObject.cc:237-250 | Those shares are nondecreasing and differ by at most one |
| RedefineRow.WholeTotalGoesOut | src/fun/FunctionObject.cc:214-235 | With fewer percentages than files the files get the total exactly if it is below 2^32, and its 32-bit remainder always |
| RedefineRow.FullListMayFallShort | src/fun/FunctionObject.cc:218-222 | With a percentage for every file the whole goes out exactly when the percentages come to it |
| RedefineRow.HundredPercentHandsOut | src/fun/FunctionObject.cc:166-180 | Percentages in ten-thousandths for every file that add up to the whole hand out the total but for fewer rows than files, in exact arithmetic |
| Merge.Calculate | src/fun/BaseFuncClass.cc:461-499 | The or-and-shift loop with its 8-bit shift counter, undefined from a shift of 64 on |
| Merge.MergedIff | src/fun/BaseFuncClass.cc:474-488 | The word is defined if and only if the width before every field, counted in 8 bits, is below 64 |
| Merge.MergedBit | src/fun/BaseFuncClass.cc:474-488 | For any values, overlapping or too wide, a bit of the word is set if and only if some field, shifted by the width before it counted in 8 bits, has it inside the word |
| Merge.MergedIsWeightedSum | src/fun/BaseFuncClass.cc:474-488 | For values that fit their widths the word is the sum of the values times their first bits' weights |
| Merge.RecoverableIffAllFit | src/fun/BaseFuncClass.cc:474-488 | Extracting every field by its offset and width gives all values back if and only if each fits its width |
| PercentSelect.PercentParent.InitPercent | src/struct/AlignDataObject.cc:264-307 | Every percentage child but the last gets the whole part of its percentage of the rows and the last what the others leave, for non-negative percentages of at most 100 in all; a new period starts; without percentage children nothing is shared out |
| PercentSelect.PercentParent.ShareOut | src/struct/AlignDataObject.cc:271-291 | The shares, their sum and the first percentage child, if there is one |
| PercentSelect.QuotasAreShares | src/struct/AlignDataObject.cc:271-291 | For any percentages at all every quota but the last percentage child's is the whole part of its percentage of the rows |
| PercentSelect.QuotasShareOut | src/struct/AlignDataObject.cc:264-307 | Rows are shared out as configured for any percentages whose remainder and last quota fit 32 bits |
| PercentSelect.QuotasAddUp | src/struct/AlignDataObject.cc:293-305 | The quotas of the percentage children sum to the parent's rows, for any percentages whose remainders fit 32 bits |
| PercentSelect.QuotasAddUpIn32Bits | src/struct/AlignDataObject.cc:293-305 | Without any bound the quotas add up to the rows modulo 2^32 |
| PercentSelect.PeriodIsRowCount | src/struct/AlignDataObject.cc:264-307 | With percentages of at most 100 in all, one period of the schedule is exactly the parent's rows |
| PercentSelect.PercentParent.NextChild | src/struct/TableObject.cc:597-602 | A child whose turn is over starts anew and the turn goes to the next, cyclically |
| PercentSelect.PercentParent.SelectChild | src/struct/TableObject.cc:588-611 | The skip loop terminates at the child whose interval of the period holds the row |
| PercentSelect.PercentParent.SelectRows | src/struct/TableObject.cc:588-611 | Row k goes to the child at place k, modulo the period, of the schedule |
| PercentSelect.ScheduleMeetsQuotas | src/struct/TableObject.cc:588-611 | A period picks every child exactly its quota |
| PercentSelect.ScheduleInOrder | src/struct/TableObject.cc:588-611 | A period takes the children in their order |
| PercentSelect.EveryPeriodMeetsQuotas | src/struct/TableObject.cc:588-611 | So does every stretch of that many rows, wherever it starts |
| PercentSelect.ScheduleLength | src/struct/TableObject.cc:588-611 | A period is as long as the percentage children's quotas together exactly when none is negative |
| MultiFile.RandomArray | src/fun/BaseFuncClass.cc:876-899 | The array ends as the swaps that the random numbers name leave it, step by step |
| FisherYates.ShuffledPermutes | src/fun/BaseFuncClass.cc:888-898 | For every random stream the shuffle keeps the elements |
| FisherYates.PartnerIsDrawn | src/fun/BaseFuncClass.cc:888-898 | The place swapped into place i of n is i plus the draw modulo n - i |
| FisherYates.ZeroDrawsStay | src/fun/BaseFuncClass.cc:888-898 | Draws of 0 leave the order as it is |
| FisherYates.SettledStays | src/sub/shuffle/Shuffle.cc:195-207 | A settled position never changes again |
| FisherYates.EveryOrderReached | src/fun/BaseFuncClass.cc:888-898 | Every order of the elements is the outcome of some random stream |
| MultiFile.FillSlots | src/fun/BaseFuncClass.cc:851-871 | Percentages adding up to 100 give every file that many of the 100 slots, shuffled; fewer are refused, and more are written past the slots |
| MultiFile.HundredRowsMeetPercentages | src/fun/BaseFuncClass.cc:1190-1196 | Any 100 consecutive rows use each file exactly its percentage of times |
| MultiFile.MultiFileRandom.FillDimensionInfo | src/fun/BaseFuncClass.cc:601-634 | Every file's window starts at its random number modulo the file's size and has the configured length, or the whole file's if that is 0 or too many; the first file without rows is an error and leaves the windows from it on as they were |
| MultiFile.PlacedAsConfigured | src/fun/BaseFuncClass.cc:615-626 | A placed window's start, length and cycle from its configuration and random number only |
| MultiFile.WalkReads | src/fun/BaseFuncClass.cc:1230-1240 | Pick k of a file reads the random number plus k modulo the cycle, modulo the file's size, the cycle being the configured length unless that is none, too many, or ends the window with its file |
| MultiFile.EveryRowMayBeFirst | src/fun/BaseFuncClass.cc:615-615 | Every row of a file is the first one read for some random number |
| MultiFile.UnplacedReadsInOrder | src/fun/BaseFuncClass.cc:1230-1240 | A window left unplaced behind a file without rows goes through its whole file from the first row on |
| MultiFile.MultiFileRandom.Calculate | src/fun/BaseFuncClass.cc:1186-1240 | One row: the slot's file, an error if it has no rows, else the window's next row, and no other window moves but for the placing by the table's first row |
| MultiFile.WalkRow | src/fun/BaseFuncClass.cc:1230-1240 | Pick k of a window reads row k of its cycle, counted from the window's start modulo the file's size |
| MultiFile.WindowWalkIffEndNotZero | src/fun/BaseFuncClass.cc:1230-1240 | The picks cycle through exactly the window's rows if and only if its end row is not 0 or it is the whole file |
| MultiFile.PicksAreEven | src/fun/BaseFuncClass.cc:1230-1240 | After k picks of a window, a row of its cycle has been read k / n times or once more, n being the cycle's length: two rows of the cycle differ by at most one |
| MultiFile.OtherRowsNeverPicked | src/fun/BaseFuncClass.cc:1230-1240 | A row outside the window's cycle is never read |
| MultiFile.CycleRowsDiffer | src/fun/BaseFuncClass.cc:1230-1240 | Different places of the cycle are different rows |
| MultiFile.SelectRows | src/fun/BaseFuncClass.cc:1186-1240 | For a table's first or any later file, row i draws from the file of slot t + i modulo 100, t rows having gone before, and reads the row that the file's configured window, random number and earlier picks give; it ends at exactly the first row whose dimension file has no rows |
| MultiFile.SelectFiles | src/fun/BaseFuncClass.cc:1186-1240 | Over all files of a table the slots and windows are walked on from file to file, as long as no row's dimension file is without rows |
| Dimension.DimensionIndex.AddDimensionInfo | src/sub/parser/XmlParser.cc:550-585 | After every registration each file's column numbers are distinct and every registered column's mapping index is its number's place plus one |
| Dimension.FindColumn | src/sub/parser/XmlParser.cc:1151-1168 | The first place of a column number, or none |
| Dimension.PlacesStay | src/sub/parser/XmlParser.cc:571-573 | Registering a column moves no other |
| Dimension.FirstRegistrationStays | src/sub/parser/XmlParser.cc:550-585 | A file's registered columns stay as they are, and a column is added behind them exactly if its number is new |
| Dimension.DimensionIndex.ReadsOwnPlaceIffBelow256 | src/sub/parser/XmlParser.cc:571-573 | The 8-bit mapping index names the column's own place if and only if that is not the 256th |
| Dimension.LoadRow | src/sub/parser/XmlParser.cc:740-808 | A loaded row of fewer than 256 columns holds at each place the last text of its column number, counted in 8 bits, and nothing for unknown types; for any number of columns, exactly when a text would be stored behind the row's 8-bit count of cells |
| Dimension.LastCountedIs | src/sub/parser/XmlParser.cc:740-808 | With texts counted in 8 bits, a column number below 256 gets its own text if and only if the row reaches it with fewer than 256 texts behind it, none in a shorter row, and in a longer one the last text a multiple of 256 further on |
| Dimension.LookupReturnsOwnColumn | src/fun/BaseFuncClass.cc:1243-1247 | For CSV rows of any length, reading a loaded row at a registered column's mapping index gives the text counted for its own number: exactly its own text if and only if fewer than 256 texts follow it |
| Shuffle.ScanLines | src/sub/shuffle/Shuffle.cc:168-182 | The scan records exactly the newline-terminated lines before the first NUL, and runs out of records exactly if there are more than 1024 * 1024 |
| Shuffle.XorSwap | src/sub/shuffle/Shuffle.cc:200-202 | Three xors exchange two different cells |
| Shuffle.Settle | src/sub/shuffle/Shuffle.cc:197-203 | A step swaps a position not settled before into the next one |
| Shuffle.EmitLine | src/sub/shuffle/Shuffle.cc:195-207 | Each line is written behind those before it and stays there |
| Shuffle.WriteLines | src/sub/shuffle/Shuffle.cc:195-207 | From recorded lines the writing loop leaves the lines in the order the draws give, zeros behind them |
| Shuffle.SwapFileLines | src/sub/shuffle/Shuffle.cc:168-207 | Unless there are more than 1024 * 1024 lines, the output has the input's size and holds the input's complete lines in the order the draws give, zeros behind them |
| Shuffle.NothingLostIffNewlineTerminated | src/sub/shuffle/Shuffle.cc:168-207 | For every random stream the order is a permutation, and the output holds the same characters as the input if and only if nothing but NULs follows the last complete line |
| Shuffle.AnyOrderIsPossible | src/sub/shuffle/Shuffle.cc:195-207 | Every order of the lines is the outcome of some draws |
| Shuffle.LinesEndInNewline | src/sub/shuffle/Shuffle.cc:171-180 | Every recorded line holds exactly one newline, its last character |

## Left out

- Stream mode of table production, sockets, threads, XML and ini reading, logging, file handles and shell commands: the model starts from an object tree and treats files as byte sequences.
- A second production on the same object. The end of the first lowers the finished flag of table id 0 only, because the table header that it reads the id from is never filled.
- The check that a dependent table belongs to the same interface: the tables of one interface are named by their positions in its map.
- Row addresses through the table header's entry size, which is never set: rows use the table's own entry size.
- The selector-column path of the codec, in which a column of flag "true" visits the next union itself: a union without a selector stands for its first member.
- The CSV header line, and the random choice of lines from seed files.
- A token of 256 bytes or more, which the source copies past its column: the model ends the parse with an error there.
- A string column without NUL in its 256 bytes is printed as its 256 bytes; what lies behind it in memory is not modelled.
- Node offsets and lengths are returned as a list of placements in walk order and not stored in the nodes; the names of nodes and column numbers are left out.
- 32-bit wrap-around of offsets and lengths in the layout compiler.
- Percentages are exact reals and not doubles; the percentage products of RedefineRow are arbitrary inputs, but for the exact ones of `HundredPercentHandsOut`.
- Children's row counters are kept in their parent by position, and the row count that initPercent asks the ancestors for is its parameter.
- RedefineRow.RedefineRowFunc.Calculate: does not cover the wrap-around of the file counter after 2^32 - 1 calls, nor 2^32 files or more.
- SeedTiling.SeededTable.FillAllTheTableData: rows are units of the buffer, and nothing is said of the buffer when a copy leaves it.
- Shuffle.SwapFileLines: says nothing of the output for more than 1024 * 1024 lines, because the source writes past its records then.
- Merge.Calculate: has no result for a shift of 64 or more bits, because that shift is undefined.
- Dimension.LoadRow: takes the texts of a row as given, because the library's tokenizer skips empty fields and the quoted form is left out; says nothing of the row once a text is stored behind its cells.
- Table identifiers are below 255, because the source raises a table's finished flag by its 8-bit identifier in an array of 255 cells.
- MultiFile.FillSlots: has no result once a slot behind the last is written; the 8-bit number of a file is not cut, which takes more than 256 files, most of them of 0 percent.
- Mapping by hash keys, the binary-coded and address setters, time helpers and the second shuffler through an external program.
