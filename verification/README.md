# Verified model of four file-based SQL processors

Four independent C programs implement the same small SQL language over files: dragon, hyeonok,
jihyun and jiun.  This project models their hard parts and proves what they promise.

**The paged storage engine of jihyun.**  A write-back cache of four frames with LRU eviction sits
over files of 4096-byte pages; tables are heap files of length-prefixed records.  `Pages`,
`Records`, `CacheModel` and `StorageModel` are the engine as functions on cache and disk;
`PageObjects`, `BufferCaches` and `StorageEngines` are the same engine as classes whose methods
change frames, pages, counters and disk in place, each proved against its function.
`CacheCoherence` and `Lru` hold over every run of cache calls.  `StorageRefinement`, `FileGrowth`,
`StorageRuns` and `NextFit` hold over every run of inserts, scans, flushes and restarts on any
number of tables: the engine refines one append-only row list per table, and its files are what a
cacheless next-fit packing would write.  `FileGrowth` bounds how far a file can grow, so that the
premise of a run counts its inserts and says nothing of the states it reaches.

**The query engine and file store of dragon.**  `ResultSets` is the fixed two-dimensional working
buffer with its in-place filter, bubble sort, limit, projection and update; `FileStores` is the
file store and the four statements on it.  `Comparison`, `StableSorting`, `DragonEngine` and
`DragonMeaning` say what these mean as relations on rows, and `DragonQueries` says all of it once
more of positions, names, integers and characters alone: which rows are shown, in which order, and
which values change.  `FileCodec` says when a written table reads back.  `DragonRuns` puts these together over every run of statements on any number of
tables, from the text of a script to the answers shown and the rows read back.  `Reordering` puts
side by side how all four programs move the values of an INSERT into schema order.

**Text.**  `CStrings` and `SqlText` hold what the programs have in common: the character classes,
written out, strcmp and strtol, trimming, blanks, words and literals; `Readers` is a parser's
result with the text that is left.  `Splitters` and `StreamSplitter` are the four statement
splitters; `EscapeCodec` is hyeonok's row format and the pass of its SELECT over the file.
`DragonGrammar` and `DragonParser` are dragon's parser.  `DragonTokens`, `DragonSpelling`,
`DragonColumns` and `DragonRoundTrip` say exactly which texts it accepts and what it makes of
them, whatever the case of the keywords, the blanks between tokens and the spelling of the values;
`DragonPrinting` prints commands, with values quoted or bare as one likes, and `DragonScripts` puts
the streaming splitter in front.  `JihyunGrammar` and `JihyunParser` are jihyun's quote-aware
parser, and `JihyunSpelling` says exactly which texts that one accepts.  The doubled quote is that
of ISO/IEC 9075-2, section 5.3.

The pattern is the same everywhere: a loop or a state change is a method, proved equal to a
function; the properties are lemmas about that function.  `hide` statements only keep definitions
away from proofs that do not need them.

## Results that are conditions

Where the code does not do what one might expect, the exact condition is proved.

- ORDER BY sorts every list over a set of rows exactly if the comparison is transitive on them
  (`DragonMeaning.OrderBySortsExactly`); "9" < "10" < "1a" < "9" is not, and rows in that order
  stay in it (`DragonMeaning.MixedColumnUnsorted`).
- A dragon table reads back exactly if it has at most 1024 rows and no value holds a newline
  (`FileCodec.TableReadsBackExactly`).
- A hyeonok table reads back exactly if it has two columns or no empty value: the line of a lone
  empty value is skipped as a blank one (`EscapeCodec.FileReadsBackExactly`).
- A printed SELECT is parsed back exactly if no selected column is spelled like FROM, in dragon
  (`DragonPrinting.ParseUndoesPrintExactly`) and in jihyun (`JihyunGrammar.ParseUndoesPrintExactly`).
- Dragon parses a text as a command exactly if it has fewer than 8192 characters and spells the
  command's tokens (`DragonRoundTrip.ParsesExactly`).  Its select lists allow a comma at the end,
  count the blanks behind a comma towards the 256 characters of a name, and stop at the first word
  from (`DragonColumns.SelectExactly`).
- Jihyun parses a text as a statement exactly if its lists stand between parentheses that match
  outside quotes and nothing else is left behind (`JihyunSpelling.ParsesExactly`).
- The buffers of the streaming splitter make up its file exactly if every statement fits the
  buffer (`StreamSplitter.StreamConserves`).  A longer one is cut to 8191 characters and still
  run: a DELETE whose WHERE stands behind the cut deletes every row
  (`DragonScripts.CutStatementRuns`).
- After a run of dragon statements a table can be read exactly if it has at most 1024 rows; with
  more, SELECT, DELETE and UPDATE on it are rejected (`DragonRuns.RunRefines`).
- A cache flush lands on its page exactly while the 32-bit byte offset does not wrap
  (`CacheCoherence.FlushLandsExactly`); page 2^20 overwrites page 0
  (`CacheCoherence.FirstWrappedIdClobbersPageZero`).
- The room test of a page is right exactly while its 32-bit sum does not wrap into the payload
  range (`Pages.CanStoreExact`).

The repository's README.md (line 114) lists the literal `'O''Reilly'` as failing in dragon; the
code of its parser and splitter handles the doubled quote (`member-dragon/src/parser.c` lines
127-164, `member-dragon/src/main.c` lines 67-85), and the model follows the code.

## Model

| member | source | states |
|---|---|---|
| Pages.CanStoreExact | member-jihyun/src/page.c:14-20 | the wrapping room test answers "does the record fit" exactly when the sum does not wrap into the payload range |
| Pages.AppendHolds | member-jihyun/src/page.c:23-40 | a page holding some records holds them and the appended one, in order, with exact counters |
| Pages.CursorYields | member-jihyun/src/page.c:51-68 | from the position of record k the cursor yields records k and later, in order |
| Pages.HoldsReadsBack | member-jihyun/src/page.c:43-68 | the cursor over a page yields exactly the records appended to it |
| Pages.EmptyPagesHoldNothing | member-jihyun/src/page.c:6-11 | a fresh or all-zero page holds no records |
| PageObjects.DataPage.Init | member-jihyun/src/page.c:6-11 | the page object becomes the empty page of that id |
| PageObjects.DataPage.AppendRecord | member-jihyun/src/page.c:23-40 | succeeds exactly if the room test does; then the page object is the page with the record appended, else unchanged |
| PageObjects.PageCursor.Next | member-jihyun/src/page.c:51-68 | yields the next of the page's records, and ends with offset = used bytes and yielded = row count |
| Records.SerializedLength | member-jihyun/src/storage.c:63-78 | the record length computed beforehand is the length written |
| Records.DeserializeUndoesSerialize | member-jihyun/src/storage.c:118-168 | reading a serialized row, with any bytes behind it, gives the row |
| Records.DeserializeAcceptsExactly | member-jihyun/src/storage.c:118-168 | a byte string is read as a row if and only if it begins with that row's serialization |
| Records.SerializeRow | member-jihyun/src/storage.c:63-99 | the buffer filled by the cursor loops is the serialization, and its length the 32-bit length |
| Records.DeserializeRow | member-jihyun/src/storage.c:118-168 | the loop with its bounds tests reads what the format says of the bytes, and stays inside the record |
| CacheModel.SlotExact | member-jihyun/src/buffer_cache.c:31 | the 32-bit byte offset addresses page id exactly if id < 2^20 |
| CacheCoherence.FlushFrameCoherent | member-jihyun/src/buffer_cache.c:13-47 | flushing a frame keeps coherence and every reader's view, and changes no other frame |
| CacheCoherence.ChooseVictimCoherent | member-jihyun/src/buffer_cache.c:65-86 | eviction keeps every reader's view and what is resident, and leaves a free or clean frame |
| CacheCoherence.LoadCoherent | member-jihyun/src/buffer_cache.c:106-148 | a load keeps every reader's view, succeeds exactly if the page is resident or on disk, and hands out what a reader sees |
| CacheCoherence.CreateCoherent | member-jihyun/src/buffer_cache.c:151-176 | a creation changes one key only, to the empty page |
| CacheCoherence.WriteCoherent | member-jihyun/src/storage.c:238-239 | a client's write through the handed-out page followed by mark_dirty changes that key only, and the page stays resident |
| CacheCoherence.MarkDirtyCoherent | member-jihyun/src/buffer_cache.c:179-187 | marking dirty keeps coherence, view and disk |
| CacheCoherence.FlushFileCoherent | member-jihyun/src/buffer_cache.c:190-205 | flushing a file leaves none of its frames dirty, other frames untouched and every view as it was |
| CacheCoherence.FlushAllCoherent | member-jihyun/src/buffer_cache.c:208-221 | afterwards the disk is the view, no frame is dirty, and flush_count grew by the number of dirty frames |
| CacheCoherence.FlushLandsExactly | member-jihyun/src/buffer_cache.c:28-40 | a flushed page is found on disk under its id if and only if the id is below 2^20 or the disk already held it |
| CacheCoherence.FirstWrappedIdClobbersPageZero | member-jihyun/src/buffer_cache.c:31 | a concrete run in which page 2^20 overwrites page 0 |
| CacheCoherence.StepCoherent | member-jihyun/src/buffer_cache.c:13-221 | every cache call keeps coherence, and either keeps all views or changes one key as asked |
| CacheCoherence.RunCoherent | member-jihyun/src/buffer_cache.c:13-221 | coherence (distinct keys, clean frames equal to their disk page) in every reachable state |
| Lru.RunLru | member-jihyun/src/buffer_cache.c:50-97 | over whole runs each in-use frame's tick is the last touch of its key, and keys outside were touched earlier |
| Lru.ResidentExactly | member-jihyun/src/buffer_cache.c:65-97 | a key is resident if and only if it was touched before and at most 3 other keys were touched since |
| Lru.TicksDistinct | member-jihyun/src/buffer_cache.c:89-97 | no two frames in use have the same tick, in any reachable state |
| Lru.StepCounts | member-jihyun/src/buffer_cache.c:114-164 | a lookup counts once, as a hit exactly if its key was resident; other calls count nothing |
| Lru.CountersAddUp | member-jihyun/src/buffer_cache.c:114-164 | hits and misses together are the load and create calls of the run |
| BufferCaches.FileSystem.WriteAt | member-jihyun/src/buffer_cache.c:28-40 | the page stands at the wrapped offset, a gap before it reads as zero pages, and every other page is as before |
| BufferCaches.FileSystem.ReadAt | member-jihyun/src/buffer_cache.c:129-145 | succeeds exactly if the file has a page at the wrapped offset, and copies it |
| BufferCaches.BufferCache.FlushFrame | member-jihyun/src/buffer_cache.c:13-47 | the new cache and disk are those of the specification |
| BufferCaches.BufferCache.FindFrame | member-jihyun/src/buffer_cache.c:50-62 | the first frame with the key, or none |
| BufferCaches.BufferCache.OldestFrame | member-jihyun/src/buffer_cache.c:76-83 | the first of the least recently used frames |
| BufferCaches.BufferCache.ChooseVictim | member-jihyun/src/buffer_cache.c:65-86 | a free frame, else the least recently used one, flushed |
| BufferCaches.BufferCache.AssignFrame | member-jihyun/src/buffer_cache.c:89-97 | the frame carries the key, clean, with a fresh tick |
| BufferCaches.BufferCache.LoadPage | member-jihyun/src/buffer_cache.c:106-148 | status, frame, page object and whole new state are those of the specification |
| BufferCaches.BufferCache.CreatePage | member-jihyun/src/buffer_cache.c:151-176 | the same for creation |
| BufferCaches.BufferCache.MarkDirty | member-jihyun/src/buffer_cache.c:179-187 | the same for marking dirty |
| BufferCaches.BufferCache.FlushFile | member-jihyun/src/buffer_cache.c:190-205 | the same for flushing a file |
| BufferCaches.BufferCache.FlushAll | member-jihyun/src/buffer_cache.c:208-221 | the same for flushing everything |
| BufferCaches.BufferCache.GetStats | member-jihyun/src/buffer_cache.c:223-257 | the counters, and the number of dirty frames counted by the loop |
| StorageRefinement.AppendRefines | member-jihyun/src/storage.c:251-258 | append, mark dirty and flush add the row to the table's rows durably, or fail without effect if it does not fit |
| StorageRefinement.InsertRefines | member-jihyun/src/storage.c:191-259 | an insert succeeds exactly if 4 + sum(4 + length) <= 4076, then the table's rows grow by it; a failed one changes no table's rows |
| StorageRuns.ScanMeaning | member-jihyun/src/storage.c:262-306 | a scan shows the table's rows in order until its visitor stops it, and changes no table |
| StorageRuns.ColdRestart | member-jihyun/src/storage.c:235-258 | at every statement boundary, dropping the whole cache leaves every table's rows as they were |
| StorageRuns.PathsDistinct | member-jihyun/src/storage.c:13-16 | two tables share a file path only if they have the same name |
| StorageRuns.ExecRefines | member-jihyun/src/storage.c:191-312 | each operation does to every table's row list what the append-only meaning says |
| FileGrowth.InsertWithin | member-jihyun/src/storage.c:191-259 | an insert, successful or not, leaves its file and the pages waiting for it at most one page longer, or two if there were none, and no other file longer |
| StorageRuns.RunGrowth | member-jihyun/src/storage.c:191-312 | over any run the file of a table grows by at most one page for each insert tried on it, and one more for the first |
| StorageRuns.StepReady | member-jihyun/src/storage.c:191-312 | a run whose inserts are fewer than the page offsets left behind each file never runs out of them |
| StorageRuns.RunRefines | member-jihyun/src/storage.c:191-312 | after any run from the files of a data directory every table holds what it held and then exactly the rows of its successful inserts, in order; the premise counts the inserts of the run |
| StorageRuns.ScansSeeInserts | member-jihyun/src/storage.c:262-306 | in any run from an empty disk, a full scan shows exactly the rows inserted before it |
| NextFit.InsertPacks | member-jihyun/src/storage.c:218-257 | through cache and eviction, an insert leaves on disk the file that next-fit packing would |
| NextFit.PackKeepsPacked | member-jihyun/src/storage.c:235-257 | packing keeps pages numbered and linked in order, and any two neighbours together over one page |
| NextFit.PairsHalfFull | member-jihyun/src/storage.c:235-257 | such a file is more than half full |
| NextFit.RunPacks | member-jihyun/src/storage.c:191-259 | after any run of fitting inserts each file is the next-fit packing of its rows |
| NextFit.RunLayout | member-jihyun/src/storage.c:218-257 | hence ids, links, neighbour sums and the half-full bound in every reachable state |
| StorageEngines.StorageEngine.EnsureTableFile | member-jihyun/src/storage.c:19-30 | creates a missing table file, empty, and changes nothing else |
| StorageEngines.StorageEngine.GetPageCount | member-jihyun/src/storage.c:33-60 | the number of pages of the file on disk |
| StorageEngines.StorageEngine.AppendThrough | member-jihyun/src/storage.c:251-255 | the append through the page pointer shows in the frame that holds the page and nowhere else, or fails without effect |
| StorageEngines.StorageEngine.AppendAndFlush | member-jihyun/src/storage.c:251-258 | append, mark dirty and flush are those of the specification |
| StorageEngines.StorageEngine.PageFor | member-jihyun/src/storage.c:235-249 | relinks and creates a page exactly when the record does not fit the last one |
| StorageEngines.StorageEngine.InsertRow | member-jihyun/src/storage.c:191-259 | the row is appended to its table exactly if it fits; no other table changes, nor any on failure |
| StorageEngines.StorageEngine.ScanRows | member-jihyun/src/storage.c:262-306 | visits the table's rows in insertion order until told to stop, and changes no table |
| StorageEngines.StorageEngine.Flush | member-jihyun/src/storage.c:309-312 | the whole state after flushing is that of the specification |
| CStrings.SpaceExactly | member-dragon/src/parser.c:13-26 | isspace holds of exactly six characters: blank, tab, newline, vertical tab, form feed, carriage return |
| CStrings.WordCharacterExactly | member-dragon/src/parser.c:38-40 | a word consists of the 26 letters in both cases, the ten digits and the underscore |
| CStrings.ToLowerExactly | member-jihyun/src/utils.c:98-110 | tolower takes each capital to its small letter and leaves every other character |
| CStrings.CaseStartsExactly | member-dragon/src/parser.c:44-49 | the test for a keyword holds exactly if the text begins with it, letter by letter in any case |
| CStrings.StrCmpExactly | member-dragon/src/executor.c:60-79 | strcmp is negative exactly if the first string is a proper prefix of the second or smaller at the first difference |
| CStrings.DecimalPlaces | member-dragon/src/executor.c:60-79 | the digits of a number count for their decimal places |
| Comparison.IntegerLikeExactly | member-dragon/src/executor.c:60-79 | exactly blanks, at most one sign and one digit or more, or the empty string, compare as an integer, whose value is cut to 64 bits |
| Comparison.CompareExactly | member-dragon/src/executor.c:60-79 | the comparison is negative, positive or zero exactly as the integers are, if both values spell one, else as the strings are |
| Comparison.OperatorsExactly | member-dragon/src/executor.c:82-99 | each of the six operators holds exactly if the values stand in its relation, as integers or as strings |
| Comparison.CompareAntisymmetric | member-dragon/src/executor.c:60-79 | exchanging the values negates the result |
| Comparison.CompareTransitive | member-dragon/src/executor.c:60-79 | transitive among values of one kind |
| Comparison.CompareCycles | member-dragon/src/executor.c:60-79 | not transitive in general: "9" < "10" < "1a" < "9" |
| Comparison.EmptyIsZero | member-dragon/src/executor.c:60-79 | the empty string compares as the integer 0 |
| Comparison.EqualExactly | member-dragon/src/executor.c:60-79 | two values compare equal exactly if they are the same string or both spell the same integer |
| Comparison.ComplementNegates | member-dragon/src/executor.c:82-99 | each operator's complement holds exactly when it does not; `Comparison.OperatorsExactly` says what each one means |
| StableSorting.BubbleSortAccounts | member-dragon/src/executor.c:248-268 | for any asymmetric relation: a permutation, and one swap for each inversion removed |
| StableSorting.BubbleSortSorts | member-dragon/src/executor.c:248-268 | on a weak order the result is sorted |
| StableSorting.SwapsAreInversions | member-dragon/src/executor.c:248-268 | on a weak order the number of swaps is the number of inversions of the input |
| StableSorting.BubbleSortIsStable | member-dragon/src/executor.c:248-268 | on a weak order the passes compute the stable insertion sort |
| StableSorting.StableSortKeepsTies | member-dragon/src/executor.c:248-268 | elements that tie keep their order |
| StableSorting.StableSortArranges | member-dragon/src/executor.c:248-268 | the sorted list holds every element once, from positions that are ordered by the relation and then by place |
| StableSorting.SortsExactlyWeakOrders | member-dragon/src/executor.c:248-268 | every list over a set comes out sorted if and only if the relation is a weak order on it |
| ResultSets.ResultSet.CopyRow | member-dragon/src/executor.c:112-119 | one row becomes a copy of another; no other row changes |
| ResultSets.ResultSet.KeepRows | member-dragon/src/executor.c:210-244 | the in-place compaction leaves the rows that `Select` keeps, in order: `DragonQueries.SelectExactly` and `DragonQueries.DeleteExactly` say which these are |
| ResultSets.ResultSet.SortRows | member-dragon/src/executor.c:248-268 | the rows are those of the bubble sort, swap for swap: `DragonMeaning.OrderBySorts` and `DragonQueries.SelectExactly` say in which order |
| ResultSets.ResultSet.ApplyLimit | member-dragon/src/executor.c:271-276 | the first rows up to the limit |
| ResultSets.ResultSet.ProjectRows | member-dragon/src/executor.c:306-319 | each row becomes its projection, also with repeated, reordered and surplus columns |
| ResultSets.ResultSet.AssignRow | member-dragon/src/executor.c:487-491 | the new values stand in their columns and nothing else changed |
| FileCodec.ValuesReadBack | member-dragon/src/file_storage.c:94-141 | reading a prefix of encoded values fails exactly if it is cut short, else gives the values |
| FileCodec.RowReadsBack | member-dragon/src/file_storage.c:74-141 | parsing undoes encoding for any values under 256 bytes, whatever they hold |
| FileCodec.RowExactly | member-dragon/src/file_storage.c:74-90 | the line of a row is, value by value, the decimal length, a colon and the value, then a newline |
| FileCodec.WrappedExactly | member-dragon/src/file_storage.c:94-111 | the length read from digits is their number modulo 2^64 |
| FileCodec.ParseRowExactly | member-dragon/src/file_storage.c:114-141 | any line is read as a row exactly if it is, value by value, digits that say its length under 256, a colon and the value, and line ends only behind them |
| FileCodec.UnsafeTableFails | member-dragon/src/file_storage.c:144-197 | a table with a newline in a value cannot be read at all |
| FileCodec.TableReadsBackExactly | member-dragon/src/file_storage.c:314-349 | replace then read gives the same rows if and only if there are at most 1024 and no value holds a newline |
| FileCodec.ReadTableExactly | member-dragon/src/file_storage.c:144-197 | any file is read as rows exactly if its lines, cut at 16383 characters, spell them and they are at most 1024 |
| FileStores.WriteEncodedRow | member-dragon/src/file_storage.c:74-90 | the loop writes the encoded row |
| FileStores.ParseNextLength | member-dragon/src/file_storage.c:94-111 | length in wrapping 64-bit arithmetic and the position behind its colon, or failure |
| FileStores.ParseEncodedRow | member-dragon/src/file_storage.c:114-141 | the cursor loop reads what the format says |
| FileStores.FileStore.LoadFullTable | member-dragon/src/file_storage.c:144-197 | the buffer holds the rows of the file under the schema's headers, or the error is the specified one |
| FileStores.FileStore.AppendRow | member-dragon/src/file_storage.c:264-296 | the encoded row is appended to its file and no other changes |
| FileStores.FileStore.ReplaceRows | member-dragon/src/file_storage.c:314-349 | the file becomes the encoding of the buffer's rows |
| FileStores.FileStore.ResolveWhereColumn | member-dragon/src/executor.c:164-173 | fails exactly if there is a WHERE on an unknown column, else finds its column |
| FileStores.FileStore.ResolveOrderByColumn | member-dragon/src/executor.c:176-185 | the same for ORDER BY |
| FileStores.FileStore.PickRows | member-dragon/src/executor.c:371-402 | WHERE, ORDER BY and LIMIT in place leave the rows the query picks, or the column error |
| FileStores.FileStore.ProjectResultSet | member-dragon/src/executor.c:280-322 | headers and rows become the projection, or the error of an unknown column |
| FileStores.FileStore.ExecuteSelect | member-dragon/src/executor.c:354-411 | status, headers and rows are the query's answer, all of which `DragonQueries.SelectExactly` states; no file changes |
| FileStores.FileStore.ExecuteDelete | member-dragon/src/executor.c:414-449 | status and files are those of the delete on the row list, which `DragonQueries.DeleteExactly` states |
| FileStores.FileStore.ResolveSetColumns | member-dragon/src/executor.c:189-207 | succeeds exactly if the SET columns are known and distinct, and resolves them |
| FileStores.FileStore.UpdateRows | member-dragon/src/executor.c:483-494 | the rows are those of the update on the row list, which `DragonQueries.UpdateExactly` states |
| FileStores.FileStore.ExecuteUpdate | member-dragon/src/executor.c:452-499 | status and files are those of the update on the row list, which `DragonQueries.UpdateExactly` states |
| FileStores.FileStore.ExecuteInsert | member-dragon/src/executor.c:515-535 | status and files are those of the insert of the reordered values |
| DragonMeaning.HomogeneousIsWeakOrder | member-dragon/src/executor.c:60-79 | on a column of integers only, or of none, the comparison is a weak order both ways |
| DragonMeaning.OrderByPermutes | member-dragon/src/executor.c:248-268 | ORDER BY always permutes whole rows |
| DragonMeaning.OrderBySorts | member-dragon/src/executor.c:248-268 | on such a column: no later row compares smaller (ascending) or greater (descending) than an earlier one; stable; one swap per inversion |
| DragonMeaning.OrderBySortsExactly | member-dragon/src/executor.c:248-268 | without that premise: every order of the rows is sorted if and only if the comparison is transitive on them |
| DragonMeaning.MixedColumnUnsorted | member-dragon/src/executor.c:248-268 | the rows "9", "10", "1a" stay in this order, which is not sorted |
| DragonMeaning.SelectMeaning | member-dragon/src/executor.c:354-411 | a SELECT answers Project(Take(limit, StableSort(Filter(rows)))) |
| DragonMeaning.SelectsMerge | member-dragon/src/executor.c:210-244 | what a WHERE shows and what its DELETE leaves, each in order, merge back into the rows |
| DragonMeaning.DeleteIsComplement | member-dragon/src/executor.c:229-244 | DELETE leaves what SELECT with the complementary operator shows |
| DragonMeaning.SelectAgain | member-dragon/src/executor.c:210-244 | the kept rows are rows that pass the test, and keeping again changes nothing |
| DragonMeaning.AssignReads | member-dragon/src/executor.c:487-491 | with distinct SET columns each holds its own new value, every other column its old one |
| DragonMeaning.SetOrderIrrelevant | member-dragon/src/executor.c:484-493 | the order of SET clauses does not matter |
| DragonMeaning.UpdateTouches | member-dragon/src/executor.c:452-499 | UPDATE changes only selected rows and there only SET columns; `DragonQueries.UpdateExactly` says which rows these are |
| DragonMeaning.UpdateIdempotent | member-dragon/src/executor.c:452-499 | a second run changes nothing, even if SET changed the WHERE column |
| DragonMeaning.DeleteReadsBack | member-dragon/src/executor.c:414-449 | after a DELETE the file reads as exactly the rows that stay, and every other file as before |
| DragonMeaning.UpdateReadsBack | member-dragon/src/executor.c:452-499 | after an UPDATE the file reads as exactly the updated rows, and every other file as before |
| DragonMeaning.InsertReadsBackExactly | member-dragon/src/executor.c:515-535 | after an accepted INSERT the file reads as the old rows and the new one if and only if there was room and no value holds a newline; every other file is as before |
| DragonQueries.KnownExactly | member-dragon/src/executor.c:164-207 | WHERE, ORDER BY and SET columns are known exactly if the schema has the name; an UPDATE names none twice |
| DragonQueries.SelectExactly | member-dragon/src/executor.c:354-411 | the answer, all of it: the rows that pass the WHERE, each once, in table order or sorted by the named column with ties in table order, as many as the limit allows, the named columns of each; an unknown name is an error |
| DragonQueries.DeleteExactly | member-dragon/src/executor.c:414-449 | exactly the rows that do not pass the WHERE stay, where they stand; without one none stays |
| DragonQueries.UpdateExactly | member-dragon/src/executor.c:452-499 | every row that passes, and every row if there is no WHERE, holds each SET value in the column of its name; no other value changes |
| DragonQueries.InsertExactly | member-dragon/src/executor.c:123-161 | accepted exactly if each column of the table is named once, with a value each; then every value stands in the column of its name |
| DragonRuns.PerformRefines | member-dragon/src/executor.c:504-559 | each statement reports and shows on the files what it means on the rows of all tables, and leaves the files holding the new rows |
| DragonRuns.RunHolds | member-dragon/src/executor.c:504-559 | over any run of statements without newlines in their values every reply is the meant one, and the files keep holding the rows of every table |
| DragonRuns.RunRefines | member-dragon/src/executor.c:504-559 | from an empty data directory: all replies are the meant ones, and a table reads as its rows if and only if they are at most 1024 |
| DragonRuns.ScriptRefines | member-dragon/src/main.c:158-174 | the same from the text of a script, through splitter and parser, however its statements are spelled and whatever blanks and newlines stand between them |
| Reordering.NoSlotEmpty | member-dragon/src/executor.c:152-158 | with equal counts, known and distinct columns, every schema slot is filled: the missing-column checks never fire |
| Reordering.ReorderedInPlace | member-dragon/src/executor.c:123-161 | the reordered row of an accepted statement has each value in the slot of its column, and no other value |
| Reordering.FillingIsUnique | member-jihyun/src/executor.c:69-110 | the slots are determined by the statement |
| Reordering.AcceptsExactlyPermutations | member-dragon/src/executor.c:123-161 | accepted exactly if the counts agree and the columns cover the schema |
| Reordering.IntegerLiteralExactly | member-jiun/src/shared/text.c:109-127 | an integer literal is what dragon compares as an integer, without leading blanks and not empty |
| Reordering.TypedExactly | member-jiun/src/domain/parser.c:244-278 | an int column takes exactly the unquoted integer literals, any other column every value |
| Reordering.ReorderInsertValues | member-dragon/src/executor.c:123-161 | that decision, and on acceptance every value in its own slot |
| Reordering.BuildInsertValues | member-jihyun/src/executor.c:69-110 | the same decision and slots, without a final missing-column check |
| Reordering.AppendInsertRow | member-hyeonok/src/executor.c:24-91 | the same decision and slots |
| Reordering.AssignPlan | member-jiun/src/domain/parser.c:244-278 | the same decision, with an integer literal demanded for int columns, and the same slots |
| Machine.LittleEndian | member-jihyun/src/storage.c:80-99 | of the four bytes of an integer the first counts ones, the next 256s, and so on |
| SqlText.TrimExactly | member-dragon/src/parser.c:10-28 | trimming takes blanks off both ends and nothing else |
| SqlText.TrimEdges | member-dragon/src/parser.c:10-28 | a trimmed text neither begins nor ends with one of the six blanks |
| Splitters.QuotesExactly | member-hyeonok/src/sql_splitter.c:46-86 | a place is inside quotes exactly if the number of quotes before it is odd |
| Splitters.PiecesExactly | member-hyeonok/src/sql_splitter.c:46-86 | the pieces are the one way to cut a text at the semicolons (in lists: commas) that stand outside quotes, and only there |
| Splitters.SplitUndoesJoin | member-hyeonok/src/sql_splitter.c:46-86 | the statements of such pieces joined by semicolons are the pieces trimmed, without the blank ones |
| Splitters.StatementsAreTrimmed | member-hyeonok/src/sql_splitter.c:24-43 | no statement is empty or begins or ends with one of the six blanks |
| Splitters.DoubledQuote | member-jiun/src/domain/parser.c:387-390 | skipping a doubled quote is toggling twice |
| Splitters.SplitByToggling | member-hyeonok/src/sql_splitter.c:46-86 | the toggling splitter returns the statements of the text: its pieces, trimmed, without the blank ones |
| Splitters.SplitStatements | member-jiun/src/domain/parser.c:378-443 | so does the one that skips doubled quotes, for every text |
| Splitters.SplitSqlStatements | member-jihyun/src/parser.c:238-292 | so does this one, which reports success exactly if the quotes balance |
| StreamSplitter.AppendStatementChar | member-dragon/src/main.c:26-39 | the character is stored while there is room and dropped after that: the buffer holds what fits of everything handed to it |
| StreamSplitter.ReadNextStatement | member-dragon/src/main.c:46-101 | one call takes exactly one statement of the file, buffered as far as it fits, with nothing left pushed back |
| StreamSplitter.ReadAllStatements | member-dragon/src/main.c:158-174 | the main loop sees the statements of the file |
| StreamSplitter.StreamConserves | member-dragon/src/main.c:46-101 | the buffers of successive calls concatenate to exactly the file if and only if every statement fits the buffer |
| StreamSplitter.EndsAtFirstSemicolon | member-dragon/src/main.c:46-101 | a semicolon ends the statement exactly if it stands outside literals |
| StreamSplitter.StreamAgrees | member-dragon/src/main.c:46-101 | for balanced quotes and fitting statements the streaming splitter finds the same statements as the others |
| EscapeCodec.EscapedIsPlain | member-hyeonok/src/storage.c:19-49 | escaped text holds no tab and no newline |
| EscapeCodec.EscapeExactly | member-hyeonok/src/storage.c:19-49 | tab, newline and backslash are written as a backslash and t, n or backslash, every other character as itself, one after the other |
| EscapeCodec.FieldsExactly | member-hyeonok/src/storage.c:51-92 | a line is the escaped values with a tab between any two |
| EscapeCodec.FieldUndoesEscape | member-hyeonok/src/storage.c:127-185 | reading undoes escaping in front of any separator |
| EscapeCodec.EscapeUndoesField | member-hyeonok/src/storage.c:127-185 | escaping undoes reading: an accepted field has one spelling |
| EscapeCodec.RowCodecIsBijection | member-hyeonok/src/storage.c:187-231 | a line is read as a row if and only if it is that row's encoding |
| EscapeCodec.FileReadsBackExactly | member-hyeonok/src/executor.c:273-330 | a query shows exactly the written rows if and only if there are two columns or no row is a lone empty value |
| EscapeCodec.ScanStops | member-hyeonok/src/executor.c:273-330 | a query shows the rows in front of the first line that cannot be read, and reports the failure |
| EscapeCodec.WriteEscapedText | member-hyeonok/src/storage.c:19-49 | the loop appends the escaped text |
| EscapeCodec.AppendStorageRow | member-hyeonok/src/storage.c:51-92 | the loop appends the encoded row and a newline |
| EscapeCodec.ParseEscapedField | member-hyeonok/src/storage.c:127-185 | the loop over the doubling buffer, which is never full, reads the field or fails where the format does |
| EscapeCodec.ParseStorageRow | member-hyeonok/src/storage.c:187-231 | the field array is the row, or failure where the format fails |
| EscapeCodec.ShowRows | member-hyeonok/src/executor.c:269-330 | the rows shown are those of the file's lines, and the line buffer is restored |
| DragonTokens.KeywordExactly | member-dragon/src/parser.c:51-61 | a keyword is read exactly in its letters in any case, with no word character behind it |
| DragonTokens.IdentifierExactly | member-dragon/src/parser.c:64-84 | a name is read exactly if it is a whole word of 1 to 255 characters, as it stands |
| DragonTokens.ValueExactly | member-dragon/src/parser.c:129-213 | a value is read exactly from its literal with doubled quotes, or from itself if it may stand bare |
| DragonTokens.BareReads | member-dragon/src/parser.c:180-212 | a value without quotes, blanks, commas, closing parentheses and semicolons is read as it stands, up to what ends it |
| DragonTokens.OperatorExactly | member-dragon/src/parser.c:256-293 | each operator is read exactly from its sign, a longer sign never as the shorter one |
| DragonSpelling.EndedExactly | member-dragon/src/parser.c:457-517 | a statement may end in blanks and at most one semicolon, nothing else |
| DragonSpelling.ItemsExactly | member-dragon/src/parser.c:88-252 | a list is read exactly from its items between commas and a closing parenthesis, at most 32 of them |
| DragonSpelling.SetsExactly | member-dragon/src/parser.c:521-565 | SET clauses are read exactly from name, = and value between commas, at most 32 of them |
| DragonSpelling.WhereExactly | member-dragon/src/parser.c:297-323 | a WHERE is read exactly from its four tokens |
| DragonSpelling.OrderExactly | member-dragon/src/parser.c:327-353 | an ORDER BY is read exactly from its tokens; without a direction word it is ascending |
| DragonSpelling.LimitExactly | member-dragon/src/parser.c:356-379 | a LIMIT is read exactly from the word and its digits |
| DragonSpelling.BodyExactly | member-dragon/src/parser.c:602-671 | what stands behind the table of a SELECT is read exactly from WHERE, ORDER BY and LIMIT, each or none, in this order |
| DragonSpelling.InsertExactly | member-dragon/src/parser.c:457-485 | a text is parsed as an INSERT exactly if it spells its tokens |
| DragonSpelling.DeleteExactly | member-dragon/src/parser.c:488-517 | a text is parsed as a DELETE exactly if it spells its tokens |
| DragonSpelling.UpdateExactly | member-dragon/src/parser.c:568-599 | a text is parsed as an UPDATE exactly if it spells its tokens |
| DragonColumns.ListExactly | member-dragon/src/parser.c:399-454 | a select list is read exactly from names between commas, also with a comma at the end, while no name with the blanks around it reaches 256 characters |
| DragonColumns.FindsFrom | member-dragon/src/parser.c:383-395 | the search for FROM stops at the first column spelled FROM, else at the keyword behind the columns |
| DragonColumns.SelectExactly | member-dragon/src/parser.c:602-671 | a text is parsed as a SELECT exactly if it spells its tokens, none of the columns is spelled FROM, and the list fits its buffers |
| DragonRoundTrip.CleanExactly | member-dragon/src/parser.c:687-697 | the clean-up takes off blanks in front, and blanks, semicolons and blanks behind |
| DragonRoundTrip.ParsesExactly | member-dragon/src/parser.c:676-726 | a text is parsed as a command if and only if it has fewer than 8192 characters and, cleaned up, spells the command |
| DragonPrinting.ParseUndoesPrintExactly | member-dragon/src/parser.c:457-726 | every command within the bounds of the parser, its values printed quoted or bare as one likes, is parsed back from its text if and only if it selects no column spelled FROM |
| DragonParser.ConsumeKeyword | member-dragon/src/parser.c:51-61 | the cursor moves behind the keyword exactly if it stands there as a word |
| DragonParser.ParseIdentifier | member-dragon/src/parser.c:64-84 | the loop reads the identifier of the grammar |
| DragonParser.ParseQuotedValue | member-dragon/src/parser.c:129-164 | the loop reads the literal of the grammar within the 256-byte buffer |
| DragonParser.ParseValueToken | member-dragon/src/parser.c:169-213 | the value of the grammar, quoted or bare |
| DragonParser.ParseParenthesized | member-dragon/src/parser.c:88-252 | array and counter hold the list of the grammar |
| DragonParser.ParseCompareOp | member-dragon/src/parser.c:256-293 | the operator of the grammar, the longer ones first |
| DragonParser.ParseWhereClause | member-dragon/src/parser.c:297-323 | absent, read or wrong, as the grammar says |
| DragonParser.ParseOrderByClause | member-dragon/src/parser.c:327-353 | the same for ORDER BY |
| DragonParser.ParseLimitClause | member-dragon/src/parser.c:356-379 | the same for LIMIT, with the value of its digits |
| DragonParser.FindKeywordPosition | member-dragon/src/parser.c:383-395 | the first position where the keyword stands as a word |
| DragonParser.CommandBuffer.CleanUp | member-dragon/src/parser.c:687-697 | the loop leaves the trimmed statement without trailing semicolons, trimmed again |
| DragonParser.CommandBuffer.ParseInsert | member-dragon/src/parser.c:457-485 | the filled record is the grammar's INSERT, or an error is reported |
| DragonParser.CommandBuffer.ParseDelete | member-dragon/src/parser.c:488-517 | the same for DELETE |
| DragonParser.CommandBuffer.ParseSetClauseList | member-dragon/src/parser.c:521-565 | array and counter hold the SET clauses of the grammar |
| DragonParser.CommandBuffer.ParseUpdate | member-dragon/src/parser.c:568-599 | the same for UPDATE |
| DragonParser.CommandBuffer.ParseSelectColumnsText | member-dragon/src/parser.c:399-454 | star or column list, as the grammar says |
| DragonParser.CommandBuffer.ParseSelect | member-dragon/src/parser.c:602-671 | the same for SELECT |
| DragonParser.CommandBuffer.ParseSql | member-dragon/src/parser.c:676-726 | the record, cleared and filled, is the command of the grammar |
| DragonScripts.PrintIsWhole | member-dragon/src/main.c:46-101 | no printed statement has a semicolon outside its literals, and its quotes balance, with values quoted or bare |
| DragonScripts.ScriptReadsBack | member-dragon/src/main.c:158-174 | a script, split by the streaming splitter and parsed, gives back its commands in order, however each is spelled and whatever blanks and newlines stand around it |
| DragonScripts.CutStatementRuns | member-dragon/src/main.c:46-101 | a statement cut in the blanks behind a complete command runs as that command, whatever followed |
| DragonScripts.ReadCommands | member-dragon/src/main.c:158-174 | the main loop parses every statement of the file into one reused record |
| JihyunGrammar.ElementPassed | member-jihyun/src/parser.c:98-235 | parenthesis scan, comma split and quote balance all pass a printed element, whatever it holds |
| JihyunGrammar.UndoubleBody | member-jihyun/src/parser.c:63-95 | decoding undoes the doubling of quotes |
| JihyunGrammar.SegmentReads | member-jihyun/src/parser.c:98-235 | a printed list between parentheses is cut out and split into its elements |
| JihyunGrammar.InsertReads | member-jihyun/src/parser.c:295-367 | every INSERT with arbitrary NUL-free values is parsed back from its text |
| JihyunGrammar.SelectReadsExactly | member-jihyun/src/parser.c:370-422 | a SELECT with named columns is parsed back, or rejected if one of them is named from |
| JihyunGrammar.ParseUndoesPrintExactly | member-jihyun/src/parser.c:425-440 | a statement is parsed back from its text if and only if it selects no column named from |
| JihyunSpelling.LeadExactly | member-jihyun/src/parser.c:295-367 | a keyword is read exactly in its letters in any case |
| JihyunSpelling.WordExactly | member-jihyun/src/parser.c:171-191 | a name is read exactly as a whole word, in lower case |
| JihyunSpelling.UndoubleQuotes | member-jihyun/src/parser.c:63-95 | of quotes in a row inside a literal every second one counts, and the last one of an odd number |
| JihyunSpelling.UndoubleOther | member-jihyun/src/parser.c:63-95 | any other character of a literal stands for itself |
| JihyunSpelling.MeansExactly | member-jihyun/src/parser.c:63-95 | an element between quotes stands for its inside with quotes undoubled, any other value for itself, a name for itself in lower case |
| JihyunSpelling.ClosingExactly | member-jihyun/src/parser.c:206-234 | the parenthesis found is exactly the first one outside quotes at which as many are closed as opened |
| JihyunSpelling.SegmentExactly | member-jihyun/src/parser.c:194-235 | a segment is read exactly from a text between parentheses in which every one outside quotes has its partner |
| JihyunSpelling.ListExactly | member-jihyun/src/parser.c:98-168 | a list is read exactly from texts between the commas outside quotes, none blank, quotes balanced |
| JihyunSpelling.FindExactly | member-jihyun/src/utils.c:196-238 | a keyword is found exactly where it first stands outside quotes between blanks, punctuation or the ends |
| JihyunSpelling.ParsesExactly | member-jihyun/src/parser.c:295-440 | a text is parsed as a statement if and only if it spells it: keywords in any case, names, lists and values as above, and nothing but blanks behind |
| JihyunParser.DecodeValueToken | member-jihyun/src/parser.c:63-95 | the loop decodes the literal within its buffer |
| JihyunParser.SplitCommaList | member-jihyun/src/parser.c:98-168 | the scan that steps over doubled quotes finds the elements between commas outside quotes, or the error |
| JihyunParser.ExtractIdentifier | member-jihyun/src/parser.c:171-191 | the lower-cased word and the cursor behind it |
| JihyunParser.FindClosing | member-jihyun/src/parser.c:206-234 | the parenthesis that closes, counting depth outside quotes |
| JihyunParser.ExtractParenthesizedSegment | member-jihyun/src/parser.c:194-235 | the trimmed text between them |
| JihyunParser.FindKeywordOutsideQuotes | member-jihyun/src/utils.c:203-238 | the first place outside quotes where the keyword stands between boundaries |
| JihyunParser.ParseInsertStatement | member-jihyun/src/parser.c:295-367 | the INSERT of the grammar, or an error |
| JihyunParser.ParseSelectStatement | member-jihyun/src/parser.c:370-422 | the SELECT of the grammar, or an error |
| JihyunParser.ParseStatement | member-jihyun/src/parser.c:425-440 | the statement of the grammar, or an error |

## Left out

- Failing I/O, permissions, directory listing and memory exhaustion: the disk is total, apart from missing files and pages out of range, and allocation always succeeds.
- Schema files and their parsers in all four programs: schemas are given values.
- The storage codec and `parse_select` of jiun, its `split_values_list`, and the parser of hyeonok: smaller forms of the codecs and parsers modelled.
- Printing of results, messages, command line, interactive mode, demo server and shell harness; the models stop at header and row values.
- Characters are those of the C locale and strings hold no NUL.
- PageObjects.DataPage.AppendRecord: a record whose wrapped 32-bit room sum passes the test without fitting, which the source copies beyond the page, is excluded; `Pages.CanStoreExact` says which these are.
- Records.SerializeRow: rows whose serialization has 2^32 bytes or more, whose length the source cuts, are excluded.
- CacheCoherence.CreateCoherent: page ids from 2^20 on, whose offsets wrap, are excluded here and in LoadCoherent, StepCoherent and RunCoherent; `CacheCoherence.FlushLandsExactly` says for all ids when a flush lands.
- CacheCoherence.StepCoherent: ids below 2^20, as above.
- CacheCoherence.RunCoherent: ids below 2^20, as above.
- BufferCaches.FileSystem.ReadAt: a partial page at the end of a file, which fails after overwriting part of the target, is not modelled.
- StorageRefinement.AppendRefines: the record length plus a page stays below 2^32; `Pages.CanStoreExact` gives the exact boundary.
- StorageRefinement.InsertRefines: premises keep record length and file size within the 32-bit fields (a record whose length plus a page wraps, or a file of 2^20 pages, is outside); `Pages.CanStoreExact` and `CacheCoherence.FlushLandsExactly` give the exact boundaries.
- StorageRuns.ExecRefines: the limits of InsertRefines, and a table path that fits the 512-byte buffer.
- StorageRuns.ScansSeeInserts: the limits of RunRefines.
- NextFit.InsertPacks: the limits of InsertRefines.
- NextFit.RunPacks: the limits of RunRefines.
- NextFit.RunLayout: the limits of RunRefines.
- StorageRuns.RunRefines: table paths fit the 512-byte buffer, record lengths plus a page stay below 2^32, and a file's pages and the inserts tried on it are fewer than 2^20; ticks and counters are unbounded numbers; data files consist of whole pages.
- CacheCoherence.LoadCoherent: ids below 2^20, as for CreateCoherent; a failing read leaves the victim's bytes alone, as it does in files of whole pages; a partial page at the end of a file, whose bytes would overwrite the victim's, is not modelled.
- StorageRuns.ScanMeaning: the visitor is a function of the rows seen so far, not code that calls back into the engine.
- StorageEngines.StorageEngine.InsertRow: the limits of InsertRefines; where a record would write outside its page the model reports an error instead; the premises exclude the case.
- DragonRuns.RunRefines: values without newlines and table paths that fit their buffer; `FileCodec.UnsafeTableFails` says what a newline does.
- PageObjects.PageCursor.Next: for pages that appends can produce; on other bytes the code may read past the page.
- ResultSets.ResultSet.KeepRows: the filter loop and the delete loop are one method with a flag, since they differ in the test only.
- DragonParser.ParseParenthesized: the two list parsers of the source are one method with a flag for names or values.
- DragonParser.ParseLimitClause: a LIMIT of 2^31 or more, which overflows an int in the source, is read as an unbounded number.
- Records.DeserializeRow: a record of no fields is read as an empty row, where the source depends on what calloc(0) returns.
