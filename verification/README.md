# A verified model of the mini database server

The repository is a small SQL database in C: one append-only text file per table, a B+Tree that maps
ids to file offsets, a cache of loaded tables behind a readers-writer lock, a worker pool behind a bounded
queue, and SQL and JSON text on the outside. This project models those parts in Dafny and proves what
they promise. `dafny verify dfyconfig.toml` checks everything.

## How the project is laid out

| files | what they hold |
|---|---|
| `BPTreeGraph`, `BPTree` | the tree as heap nodes with parent pointers and a leaf chain; every insert refines a map |
| `BPTreeFacts`, `BPTreeValidate`, `BPTreeShape`, `BPTreeSearch` | leaf chain and balance; the validator as a decision procedure, and for what; the search on accepted trees |
| `Decimal`, `RowCodec`, `DataFile` | ids as text, rows as escaped lines, the file as a byte sequence |
| `Engine`, `EngineFacts`, `EngineAnswers`, `EngineRuns`, `UnendedFile` | one table as a value: load, INSERT, SELECT; the invariant between file and runtime; what is answered, in terms of names, texts and file entries; runs with restarts; files without a last newline |
| `TableRuntime`, `Session` | the same operations as methods over the heap tree, proved equal to the functions of `Engine` |
| `Database`, `DbProtocol`, `DbProgress`, `DbConsistency`, `DbAnswers`, `DbReadBack` | all tables; requests as interleaved steps under the readers-writer lock; linearizability, progress, and what follows for every answer |
| `TaskQueue`, `WorkerPool`, `WorkerPoolFacts`, `WorkerPoolShutdown` | the ring buffer; workers, producers and shutdown as a state machine over mutex and condition variables |
| `Lexer`, `LexerFacts`, `Parser`, `ParserFacts`, `Frontend`, `FrontendFacts`, `Cli` | SQL text to statements and back; the command line's loop |
| `Json`, `JsonBuffer` | JSON strings and the buffer they are written to |

The main theorems:

- **Tree.** `BPTree.Tree.Insert` keeps a full structural invariant (sorted keys, separator ranges, equal
  leaf depth, parent pointers, capacity, minimum filling, the leaf chain, the key count) and refines a finite map. Between a
  leaf split and the parent's update the invariant `IsTree(g, root, left, right)` has one *pending* pair;
  the recursion climbs until it is gone, and the height difference to the root decreases.
- **Index against file.** A table is `Up` with a runtime, or `Down`, only a schema and a file; a restart brings it
  down and the next statement loads it. Over all runs of statements and restarts from a load:
  `RebuildEqualsLive`, `IndexEqualsScanInRuns`, `RunIds`, `ReadYourWrites`.
- **Answers.** `EngineAnswers` and `DbAnswers` say what is accepted and answered without the functions that compute it:
  which files load (`LoadExact`), which statements succeed and which error the others get (`ErrorExact`), which line an
  INSERT appends (`InsertStored`), which rows a SELECT returns and what it shows of them (`RowsExact`, `ConcurrentAnswer`).
- **Concurrency.** `DbProtocol.ServerLinearizable`, `RealTimeOrder` and `ReadersNeverWriteInRuns`, for any number of
  requests and every schedule; with `ConcurrentSelectIsScan` and `ConcurrentReadBack` the theorems about one table hold
  inside concurrent runs. No request waits for ever: `ServerProgresses`, `ServerEnds`, `ServerAnswersAll`.
- **Queue.** `PushDecides`, `PopDecides`, `NoLostWakeup`, `ShutdownEnds`, `ShutdownProgresses`, `ShutdownCompletes`, `ServerCompletes`: no signal
  is lost; what is refused is refused because the queue was full or closed; a shutdown of the server cannot deadlock or run forever, and at its end every accepted task was handled
  once and every connection was closed once.
- **SQL.** `LexExact`, `StatementExact`, `ScriptExact`, `GateExact`, `RefusalExact`: both directions of "is accepted exactly
  when it is spelled like this"; `ScriptRoundTrip` and `AdmissibleExact` follow.
- **JSON.** `WriterIsValid` for every text, `ReaderInvertsWriter` with the exact condition.

Some promises hold only under a condition, and the condition is proved to be exact; each has an input that shows it.

- A row is read back by the id that its INSERT returned if and only if no restart came after 2^64-1 was handed out:
  from then on the table cannot be loaded (`ReadYourWrites`, `LastIdExample`).
- After an INSERT, a rebuild equals the live runtime if and only if the file was empty or ended in a newline when it
  was loaded and ids are left (`RebuildNeedsNewline`); the index agrees with a scan if and only if the first row
  appended, read together with the unfinished line before it, is that row (`IndexIsScanExact`). Both fail on
  `UnendedFileExample`.
- A shutdown ends properly if and only if no producer is inside the blocking push when the queue is destroyed
  (`ShutdownCompletes`, `LeavesBehind`). The server meets the condition (`ServerCompletes`).
- The JSON reader undoes the writer if and only if newline, carriage return and tab are the only control characters
  (`ReaderInvertsWriter`, `ReaderRefusesBackspace`).

## Reading the model

- Standing assumptions: allocation, file operations and pthread calls succeed; strings contain no NUL;
  distinct table names mean distinct files; a data file that does not exist yet reads as empty.
- In files, rows and SQL a character is one byte. In `Json` and `JsonBuffer` texts are valid UTF-8 and a character
  stands for the bytes that encode it: the C writer passes bytes above 0x7F through unchanged, so for other byte
  strings its output is no valid JSON text.
- The arrays inside a tree node are fixed-length sequences that the methods reassign, because in C they are
  part of the struct; the temporary arrays of the splits are Dafny arrays. The union of child pointers and
  row offsets is two fields. Keys are `0 .. 2^64 - 1`; the additions that can wrap are written with `%`.
- A node's lower and upper bound are ghost data; "no upper bound" is `2^64`, which no key reaches.
- A waiting loop on a condition variable is spread over steps of the pool's state machine: lock, test, sleep,
  wake (by a signal, a broadcast or for no reason), lock again. The queue itself is `TaskQueue.Queue`, the
  value that `TaskQueue.Ring` is proved to implement. `Push` and `Pop` of `Ring` are one pass with the mutex
  held; their outcome `Wait` is the call of `pthread_cond_wait`.
- `task_queue_destroy` zeroes the queue. A thread still inside it then works on a destroyed mutex, which C leaves
  undefined; the model lets it go on with the zeroed fields. The results that assume nobody inside do not depend on that.
- Connections are numbered in the order of `accept`, since the operating system reuses descriptors.
- A producer may use the non-blocking push, as `server_run` does, or the blocking one, which the server does
  not call but `src/task_queue.c` offers. Either way a refused connection is closed by its producer.
- Keyword and symbol tokens carry no text, because the parser never reads it.
- Character classes are those of the C locale.

## Model

| member | source | states |
|---|---|---|
| BPTree.CopyWithInsert | src/bptree.c:201-212 | the temporary array holds the old entries with the new one at its place, all indices in bounds |
| BPTree.LowerBound | src/bptree.c:63-74 | the first index whose key is not smaller; it decides whether the key is present |
| BPTree.InsertIntoLeaf | src/bptree.c:63-85 | a duplicate is refused and changes nothing; otherwise the pair is at its sorted place and nothing else moved |
| BPTree.InsertIntoInternal | src/bptree.c:88-110 | separator and right child stand at their place, and the child's parent is the node |
| BPTree.SplitOffLeaf | src/bptree.c:214-240 | the two leaves together hold the old pairs and the new one in order; the chain goes through the new leaf |
| BPTree.SplitOffInternal | src/bptree.c:246-322 | children and separators are divided, moved children point to the new node, the middle separator is handed back |
| BPTree.AddRoot | src/bptree.c:135-152 | a new root over the two halves, which point to it |
| BPTree.Tree.FindLeaf | src/bptree.c:45-60 | the descent ends in the leaf whose range contains the key |
| BPTree.Tree.Search | src/bptree.c:460-498 | found exactly for the keys of the abstract map, with their own offset |
| BPTree.Tree.Insert | src/bptree.c:501-559 | refines the map update; an existing key is refused and no node changes, also when its leaf is full; the whole tree invariant is kept |
| BPTree.Tree.FirstKey | src/bptree.c:518-533 | the first insert makes a valid one-leaf tree |
| BPTree.Tree.GrowLeaf | src/bptree.c:63-85 | a leaf with room takes the pair and the tree stays an index of the new map |
| BPTree.Tree.SplitLeaf | src/bptree.c:172-243 | a full leaf is split, the new half is linked in, and the tree is an index of the new map |
| BPTree.Tree.InsertIntoParent | src/bptree.c:121-169 | from any pending split the climb ends in a complete tree with the same contents; the distance to the root decreases |
| BPTree.Tree.GrowRoot | src/bptree.c:135-152 | a root above the two halves completes the tree |
| BPTree.Tree.GrowInternal | src/bptree.c:88-110 | a parent with room takes the pending child, which completes the tree |
| BPTree.Tree.SplitInternal | src/bptree.c:246-322 | a full parent is split and the pending pair moves one level up |
| BPTree.InsertAll | src/bptree.c:501-559 | after any sequence of inserts the map has the first offset of every key, and an insert failed just when its key came before; the tree is fresh and can be inserted into |
| BPTree.FirstWinsSpec | src/bptree.c:501-559 | that map has exactly the inserted keys, each with its first offset |
| BPTreeGraph.LeafGrew | src/bptree.c:63-85 | the invariant after the insertion into a leaf |
| BPTreeGraph.LeafWasSplit | src/bptree.c:214-243 | after a leaf split the invariant holds up to the one pending pair |
| BPTreeGraph.RootGrew | src/bptree.c:135-152 | a root above the pending pair restores the invariant and touches no leaf |
| BPTreeGraph.InternalGrew | src/bptree.c:88-110 | a parent with room restores the invariant and touches no leaf |
| BPTreeGraph.InternalWasSplit | src/bptree.c:246-322 | an internal split leaves one pending pair, one level higher, and touches no leaf |
| BPTreeGraph.OneCover | src/bptree.c:45-60 | at every height at most one node is responsible for a key |
| BPTreeGraph.LeafHolds | src/bptree.c:460-498 | the leaf responsible for a key stores it if the tree does |
| BPTreeFacts.InOrderLinked | src/bptree.c:432-441 | the leaves of a subtree in order are linked by `next` and tile the subtree's range |
| BPTreeFacts.ChainIsInOrder | src/bptree.c:432-441 | the leaf chain from the leftmost leaf is the in-order list of leaves |
| BPTreeFacts.ChainKeys | src/bptree.c:587-612 | a walk of the chain meets exactly the stored keys, rising |
| BPTreeFacts.NodeStores | src/bptree.c:220-237 | a non-root node at height h stores at least 32^(h+1) keys |
| BPTreeFacts.Balanced | src/bptree.c:289-319 | a tree with h internal levels holds at least 2 * 32^h keys |
| BPTreeValidate.ValidateNode | src/bptree.c:343-429 | accepts a finite subtree exactly when it satisfies the declarative conditions, with one leaf depth |
| BPTreeValidate.ValidateChildren | src/bptree.c:395-426 | the loop over the children decides the same for an internal node |
| BPTreeValidate.OneLeafDepth | src/bptree.c:343-429 | an accepted subtree has one leaf depth |
| BPTreeValidate.FindLeftmostLeaf | src/bptree.c:432-441 | the leaf at the end of the first-child descent |
| BPTreeValidate.Validate | src/bptree.c:562-615 | true exactly for the accepted trees |
| BPTreeValidate.BuiltTreeAccepted | src/bptree.c:562-615 | every tree that inserts can build is accepted |
| BPTreeValidate.KeysBounded | src/bptree.c:343-429 | keys below an accepted node are inside its bounds |
| BPTreeValidate.AcceptedFinds | src/bptree.c:343-429 | in an accepted tree the descent for a key that some leaf holds reaches that very leaf |
| BPTreeShape.RootExact | src/bptree.c:343-429 | the nodes of a finite tree are accepted exactly when the root has no parent, every node has at most 63 rising keys and children that point back to it, every separator separates all that is below its two sides, and all leaves are equally deep |
| BPTreeShape.TreeExact | src/bptree.c:562-615 | a tree is accepted exactly when its nodes are and the chain from the leftmost leaf consists of leaves, rises throughout and has as many keys as the tree says |
| BPTreeSearch.FindLeafNode | src/bptree.c:45-60 | on any accepted tree the descent ends in the leaf that the key belongs to |
| BPTreeSearch.SearchAccepted | src/bptree.c:460-498 | on any accepted tree a key is found exactly when some leaf holds it, with the offset that stands beside it |
| Decimal.ValueOfPrint | src/executor.c:452-454 | the printed form has the printed value and no leading zero |
| Decimal.PrintOfValue | src/runtime.c:56-90 | a digit string without leading zero is the printed form of its value |
| Decimal.ParseIdExact | src/runtime.c:56-90 | accepted exactly when the text is the printed form of some n in 1..2^64-1, and n is returned |
| Decimal.ParseCanonical | src/runtime.c:56-90 | the digit loop with its overflow guard computes that, in 64 bits |
| RowCodec.UnescapeEscape | src/storage.c:245-335 | unescaping undoes escaping for every field |
| RowCodec.EscapeField | src/storage.c:245-288 | the byte loop computes the escaped field |
| RowCodec.UnescapeField | src/storage.c:291-335 | the byte loop computes the unescaped field or the error |
| RowCodec.SplitEscapedRow | src/storage.c:338-431 | the byte loop with its pending flag computes the fields or the error |
| RowCodec.SplitJoin | src/storage.c:245-431 | every non-empty row is read back from its line |
| RowCodec.JoinSplit | src/storage.c:338-431 | a line that splits is reproduced byte for byte exactly when it has no newline |
| RowCodec.SplitExact | src/storage.c:338-431 | a line without newline splits into a row exactly when that row is not empty and is written as that line |
| RowCodec.Format | src/storage.c:245-288 | the file format by its characters: backslash, bar and newline are escaped, nothing else is, and fields are separated by bars |
| RowCodec.NormalizeFieldCount | src/storage.c:194-242 | the row has the expected length: cut off or filled with empty fields |
| RowCodec.ParseLineIntoRow | src/storage.c:434-458 | split, then normalized, or the error |
| RowCodec.ParseExact | src/storage.c:434-458 | a line can be read exactly when each backslash is followed by a backslash, a bar or an `n`; it then stands for the fields that are written as that line, cut off or filled with empty ones |
| DataFile.ReadLineAt | src/storage.c:77-133 | the line from a position without newline and one carriage return, and the position after it |
| DataFile.ReadCrLf | src/storage.c:77-133 | of a line that ends in CR LF exactly that pair is missing from what is read |
| DataFile.ReadLf | src/storage.c:77-133 | a line that ends in LF alone is read as it is |
| DataFile.ReadLast | src/storage.c:77-133 | a last line without newline is read as it is, without one CR at its end |
| DataFile.ReadRowAt | src/storage.c:743-803 | the row at an offset, or an error for a bad offset, the end of the file or a malformed line |
| DataFile.AppendRow | src/storage.c:555-642 | the file grows by the joined row and a newline; the offset is its old length |
| DataFile.ScanAppended | src/storage.c:655-740 | a scan of a file with a tail is the old scan followed by the rows of the tail |
| DataFile.AppendedRow | src/storage.c:555-642 | an appended row is read back at its offset, up to one carriage return of the last field |
| DataFile.EntryReads | src/storage.c:655-803 | every scanned row is read back from its own offset |
| DataFile.OffsetsRise | src/storage.c:655-740 | offsets rise along a scan |
| DataFile.ScanLines | src/storage.c:655-740 | for a file given by its lines, a scan succeeds exactly when every line parses, with one row per line, in order, at the offset where the line starts |
| Engine.FindColumn | src/schema.c:295-309 | the first position of a name, or -1 |
| EngineFacts.BuildAccurate | src/runtime.c:128-169 | the rebuilt map has exactly the ids in the file, with their offsets, and the largest id |
| EngineFacts.BuildDistinct | src/runtime.c:128-169 | a file that rebuilds has no id twice |
| EngineFacts.NextIdIsNew | src/runtime.c:164-217 | the next id is above every stored id, and zero exactly when 2^64-1 is stored |
| EngineFacts.PlacedRowId | src/executor.c:452-459 | the row that is written carries the generated id |
| EngineFacts.PlacedByPosition | src/executor.c:461-478 | without a column list the row is the values with the id put into its column |
| EngineFacts.PlacedByName | src/executor.c:480-497 | with a column list every value is in its named column and the others are empty |
| EngineFacts.InsertedEntries | src/executor.c:849-862 | after an INSERT a scan returns the old rows and the new one at the end |
| EngineFacts.InsertRebuild | src/executor.c:849-873 | a rebuild after an INSERT is the old rebuild with one id more |
| EngineFacts.InsertKeepsConsistent | src/executor.c:818-895 | every INSERT keeps the invariant; it is refused exactly for a bad column list or used-up ids, before the file is touched, so the index never sees a duplicate |
| EngineFacts.TextIsNumber | src/executor.c:571-589 | for stored ids equality of texts is equality of numbers |
| EngineFacts.IndexEqualsScan | src/executor.c:699-815 | the index path returns the columns and the row sequence of the full scan |
| EngineAnswers.BuildExact | src/runtime.c:128-169 | the index can be built exactly when every row has a well-formed id and no id comes twice, in whatever order |
| EngineAnswers.LoadExact | src/runtime.c:172-218 | a table with ids loads exactly when, besides, every line can be read and 2^64-1 is not stored; it then has the ids with their offsets, and the next id follows the largest |
| EngineAnswers.LoadWithoutId | src/runtime.c:172-218 | a table without ids always loads |
| EngineAnswers.FitsExact | src/executor.c:352-417 | an INSERT fits exactly when it has as many values as names, the names are distinct, in the schema and not `id`; without a list, one value per column that is not `id` |
| EngineAnswers.InsertExact | src/executor.c:818-895 | an INSERT is accepted exactly when it fits so and, in a table with ids, 2^64-1 is not stored; a refused one changes nothing |
| EngineAnswers.PlacedRowPlaces | src/executor.c:420-498 | in the row to write each value stands in the column that the statement names for it, or in order, the id in its own, and nothing anywhere else |
| EngineAnswers.InsertStores | src/executor.c:849-862 | an accepted INSERT appends the line of such a row and nothing else, and a scan then has one entry more |
| EngineAnswers.ValidExact | src/executor.c:501-532 | a SELECT is valid exactly when every column that it names is in the schema |
| EngineAnswers.ProjectShows | src/executor.c:592-632 | a projected row has, for each listed name, the field of the column with that name; for `*` it is the row |
| EngineAnswers.FullScanAnswers | src/executor.c:784-815 | a full scan answers with the projection of every entry without filter or with the text of the literal in the column of the filter: each once, in file order, under the names asked for |
| EngineAnswers.IndexKeyExact | src/executor.c:699-722 | the index serves a SELECT exactly when it asks for equality of `id` with the printed form of an id |
| EngineRuns.OpenExact | src/runtime.c:172-218 | after any statements and restarts the table can be opened exactly when no restart came after 2^64-1 was handed out |
| EngineRuns.RebuildEqualsLive | src/runtime.c:128-218 | after any run from a load, loading the file afresh gives the index and next id in memory, and is refused exactly when 2^64-1 was handed out |
| EngineRuns.IndexEqualsScanInRuns | src/executor.c:699-815 | after any run from a load, every SELECT is answered as by a full scan, index or not |
| EngineRuns.RunIds | src/executor.c:849-873 | over any run, restarts included, the generated ids are consecutive, exceed every stored id and never wrap |
| EngineRuns.ExhaustedRefuses | src/executor.c:849-853 | once 2^64-1 is handed out no run changes the file or generates an id; an INSERT is refused as an overflow, or after a restart for want of an index |
| EngineRuns.ReadYourWrites | src/executor.c:725-781 | after an INSERT returned g, in any run from a load, any SELECT with id g, for all or for listed columns, returns one row with what it asks for of the row that has every value in its place, if and only if no restart came after 2^64-1, and an index error otherwise |
| EngineRuns.ReadValueBack | src/executor.c:592-632 | in particular `SELECT c ... WHERE id = g` returns the value that the INSERT gave for c, without one final CR if c is the last column |
| EngineRuns.LastIdExample | src/runtime.c:208-213 | a file with one id left: the row that takes it is read back until a restart, and then every SELECT fails |
| UnendedFile.RebuildNeedsNewline | src/storage.c:596-630 | after any INSERTs in one process of which one succeeded, a rebuild equals the runtime exactly when the loaded file was empty or ended in a newline and ids are left |
| UnendedFile.LoadedOffsets | src/storage.c:655-740 | rebuilt offsets are where lines start |
| UnendedFile.IndexIsScanExact | src/storage.c:596-630 | whatever the end of the file, after a first INSERT and any more the index agrees with the scan on every query exactly when the first row, read together with the unfinished line before it, is that row |
| UnendedFile.UnendedFileExample | src/storage.c:596-630 | a file without its last newline: the index finds the new row, a scan does not, and a rebuild forgets it |
| TableRuntime.FindColumnIndex | src/schema.c:295-309 | the loop finds the first position of a name |
| TableRuntime.BuildIdIndex | src/runtime.c:128-218 | the scan fills a fresh heap tree whose map, largest id and success are those of the rebuild |
| TableRuntime.ValidateInsertColumns | src/executor.c:352-417 | accepts exactly the statements that fit the schema: counts, known columns, no id, no repetition |
| TableRuntime.BuildInsertRow | src/executor.c:420-498 | the array loops compute the placed row |
| TableRuntime.ValidateSelectColumns | src/executor.c:501-532 | accepts exactly the statements whose columns exist |
| TableRuntime.ProjectSingleRow | src/executor.c:592-632 | the projected row, missing fields empty |
| TableRuntime.LoadedTable.ExecuteInsert | src/executor.c:818-895 | file, tree, next id and answer after the call are those of the INSERT on values |
| TableRuntime.LoadedTable.CanUseIdIndex | src/executor.c:699-722 | returns the id exactly when the index can serve the statement |
| TableRuntime.LoadedTable.SelectWithIdIndex | src/executor.c:725-781 | one tree search and one read give the index answer |
| TableRuntime.LoadedTable.SelectWithFullScan | src/executor.c:784-815 | the pass over the file gives the matching rows in file order |
| TableRuntime.LoadedTable.ExecuteSelect | src/executor.c:898-938 | the answer of the SELECT on values, and which path was taken |
| TableRuntime.LoadTable | src/runtime.c:244-328 | a table loads exactly when its index can be built; its tree and nodes are fresh, so that INSERTs can follow |
| Session.LoadInsertSelect | src/executor.c:220-240 | over the heap: every answer, the answer to a query and the file at the end are those of the run on values |
| Database.GetOrLoadSpec | src/runtime.c:244-328 | after a load the table is cached and every other table and file reads as before; an unknown table and a table that cannot be loaded fail each in its own way |
| Database.PreloadAhead | src/runtime.c:331-338 | a preload changes nothing that a later statement could observe |
| DbProtocol.ServerLinearizable | src/db_api.c:318-423 | for any requests and any schedule from the start: the log is a sequential execution of the requests' own statements, none twice, and a finished request is in it with its answer |
| DbProtocol.ReadersNeverWriteInRuns | src/db_api.c:393-423 | in every reachable state a request outside the write lock changes nothing, and one inside it is alone |
| DbProtocol.RealTimeOrder | src/db_api.c:393-423 | a request done before another starts comes before it |
| DbProgress.WaitsExactly | src/db_api.c:393-423 | in every reachable state a request waits exactly when it wants to read and some request is in a section under the write lock, or wants to write and some request is in any section |
| DbProgress.ServerProgresses | src/db_api.c:393-423 | no deadlock: in every reachable state all requests are done or some request can move |
| DbProgress.ServerEnds | src/db_api.c:393-423 | the requests take at most nine steps each, and a run that can go no further has answered every one |
| DbProgress.ServerAnswersAll | src/db_api.c:393-423 | no starvation: a schedule that comes back to every request 9 * n times, n being their number, has answered every one, whatever the order |
| DbConsistency.ExecuteOk | src/executor.c:220-240 | every statement keeps all tables consistent with their files |
| DbConsistency.SelectIsScan | src/executor.c:898-938 | on a consistent table every SELECT is answered as by a scan |
| DbConsistency.ConcurrentSelectIsScan | src/db_api.c:393-423 | in every concurrent run each answered SELECT got the answer of a full scan at its place in the order |
| DbConsistency.SelectAnswer | src/executor.c:898-938 | on a consistent table a SELECT with an unknown name fails; any other returns the wanted rows as a full scan finds them, index or not |
| DbAnswers.TableFound | src/runtime.c:244-328 | a table is found or loaded exactly when its schema exists and its file, if not loaded before, has distinct well-formed ids below 2^64-1; the two failures have their own errors |
| DbAnswers.ErrorExact | src/executor.c:220-240 | every statement on a consistent database succeeds, or fails with the error that schemas, files and statement call for |
| DbAnswers.RowsExact | src/executor.c:898-938 | a SELECT that succeeds returns every wanted row of its file, once, in file order |
| DbAnswers.InsertStored | src/executor.c:818-895 | an INSERT that succeeds, with or without id column, appends to its file the line of a row with every value in its place and an id that no row had; no other file changes |
| DbAnswers.ConcurrentAnswer | src/db_api.c:393-423 | in every concurrent run each statement has the error or the rows that the files at its place in the order call for |
| DbReadBack.ExecuteActs | src/executor.c:220-240 | a statement acts on its own table as that table's run does, with the same answer, and on no other |
| DbReadBack.ReplayRuns | src/executor.c:220-240 | a sequential execution of the database is, for every table, a run of that table |
| DbReadBack.ConcurrentReadBack | src/db_api.c:393-423 | in every schedule a SELECT by id that starts after the INSERT that returned the id is done gets what it asks for of its row |
| TaskQueue.Wrap | src/task_queue.c:76-77 | the wrapped position for every index the queue computes |
| TaskQueue.Ring.TryPush | src/task_queue.c:59-84 | -1 exactly after shutdown, 1 exactly when the count is the capacity, otherwise the new entry is last in the sequence |
| TaskQueue.Ring.Push | src/task_queue.c:87-115 | waits exactly when the count is the capacity, -1 exactly after shutdown, otherwise the new entry is last in the sequence |
| TaskQueue.Ring.Pop | src/task_queue.c:118-146 | waits exactly when the count is zero, -1 exactly when it is zero after shutdown, otherwise the oldest task leaves |
| TaskQueue.Ring.Shutdown | src/task_queue.c:149-163 | sets the flag and keeps the tasks |
| WorkerPoolFacts.RunKeepsInv | src/thread_pool.c:7-119 | every reachable state satisfies the pool's invariant: mutex, both condition variables, shutdown, order, the place of every connection |
| WorkerPoolFacts.NoLostWakeup | src/task_queue.c:59-146 | in every reachable state with a task queued some worker is neither asleep nor gone, or a producer is about to signal; if a worker sleeps, those on their way and the signals due suffice for all tasks |
| WorkerPoolFacts.NoLostProducer | src/task_queue.c:87-146 | in every reachable state with room in the queue sleeping producers are not all left asleep, or a worker is about to signal |
| WorkerPoolFacts.RunKeepsSize | src/task_queue.c:59-84 | once shutdown has begun nothing more is accepted |
| WorkerPoolFacts.PushDecides | src/task_queue.c:59-115 | in every reachable state a push stores its connection exactly when shutdown has not begun and fewer than the capacity are queued; full, sleeping and refused have their exact conditions too |
| WorkerPoolFacts.PopDecides | src/task_queue.c:118-146 | in every reachable state a pop takes the oldest connection exactly when there is one, else sleeps before shutdown and leaves after it |
| WorkerPoolFacts.ServesUntilShutdown | src/server.c:198-231 | before shutdown no worker returns, and no producer stops unless its own accept fails: a full queue costs the connection, not the loop |
| WorkerPoolShutdown.NoSleepAfterShutdown | src/task_queue.c:118-163 | after shutdown no thread falls asleep, unless the queue was destroyed under a producer |
| WorkerPoolShutdown.ShutdownEnds | src/thread_pool.c:95-119 | after the shutdown flag is set all threads together take boundedly many steps, unless the queue was destroyed under a producer |
| WorkerPoolShutdown.ShutdownProgresses | src/thread_pool.c:95-119 | until every thread is done some step is possible, unless a producer was inside the blocking push when the queue was destroyed |
| WorkerPoolShutdown.ClosedAtMostOnce | src/server.c:198-231 | no connection is closed twice; tasks are popped in the order of acceptance; the queue holds the rest, at most its capacity |
| WorkerPoolShutdown.ShutdownCompletes | src/thread_pool.c:95-119 | a shutdown that can go no further has joined all workers, handled exactly the accepted tasks and closed every connection once, if and only if no producer was inside the blocking push when the queue was destroyed |
| WorkerPoolShutdown.LeftBehindForever | src/task_queue.c:46-56 | otherwise some connection is never closed, however the run goes on |
| WorkerPoolShutdown.LeavesBehind | src/task_queue.c:46-56 | a run that leaves a producer waiting for ever on the destroyed queue |
| WorkerPoolShutdown.ServerCompletes | src/server_main.c:132-140 | the server destroys the pool after its accept loop has returned; then no run leaves anyone behind, one that can go no further has ended properly, and a begun shutdown takes at most 10 * capacity + 9 * workers + 4 steps more |
| Lexer.KeywordOf | src/lexer.c:24-63 | the keyword whose name the text is, ignoring case, and none otherwise |
| LexerFacts.CharacterClasses | src/lexer.c:259-282 | spaces, digits and word characters, listed |
| LexerFacts.UpperExact | src/lexer.c:24-63 | upper case is letter by letter, and of letters only |
| Lexer.TokenizeIdentifier | src/lexer.c:100-115 | takes the longest run of word characters |
| Lexer.TokenizeNumber | src/lexer.c:118-143 | takes sign, digits and one dot; fails exactly when no digit follows the dot |
| Lexer.TokenizeString | src/lexer.c:165-204 | takes the text up to the closing quote with doubled quotes undone; fails exactly when there is none |
| Lexer.TokenizeSql | src/lexer.c:242-291 | the index loop computes the token list or the error for every text |
| LexerFacts.UnquoteDoubled | src/lexer.c:165-204 | a text with its quotes doubled is read back |
| LexerFacts.UnquoteSound | src/lexer.c:165-204 | whatever is read as a string is that string with its quotes doubled |
| LexerFacts.ScanSpelled | src/lexer.c:259-282 | a spelled token that nothing runs into is scanned as that token |
| LexerFacts.ScanSound | src/lexer.c:259-282 | every scanned token stands there in its spelling and nothing runs into it |
| LexerFacts.LexLaid | src/lexer.c:242-291 | every layout of a token list lexes to that list |
| LexerFacts.LexSound | src/lexer.c:242-291 | every text that lexes is a layout of its tokens |
| LexerFacts.LexExact | src/lexer.c:242-291 | a text lexes to a list exactly when it is a layout of it |
| LexerFacts.LexTrailing | src/utils.c:34-56 | trailing spaces do not change the tokens |
| Parser.Cursor.Advance | src/parser.c:67-72 | the cursor moves by one and never passes the end token |
| Parser.Cursor.Match | src/parser.c:75-81 | consumes exactly the expected token |
| Parser.Cursor.SkipSemicolons | src/parser.c:84-88 | stops at the first token that is not a semicolon |
| Parser.Cursor.ParseIdentifierList | src/parser.c:179-220 | the loop reads the longest comma list of identifiers or fails |
| Parser.Cursor.ParseLiteralList | src/parser.c:223-268 | the loop reads the longest comma list of literals or fails |
| Parser.Cursor.ParseWhereClause | src/parser.c:271-300 | no clause without WHERE, otherwise column, equals sign and literal, or a failure |
| Parser.Cursor.ParseInsert | src/parser.c:303-359 | the statement after INSERT and the position reached, or a failure |
| Parser.Cursor.ParseSelect | src/parser.c:362-397 | the statement after SELECT and the position reached, or a failure |
| Parser.NextAt | src/parser.c:400-451 | a parsed statement strictly advances the cursor and stays before the end of the array |
| Parser.ParseNextStatement | src/parser.c:400-451 | the next statement and cursor, or a failure and what it does to the cursor |
| ParserFacts.StatementExact | src/parser.c:400-451 | a statement is parsed exactly where its tokens stand |
| ParserFacts.SpellingInjective | src/parser.c:303-397 | two statements never have the same tokens |
| Frontend.Trim | src/utils.c:34-56 | cuts off exactly the outer spaces |
| Frontend.TrimKeepsLex | src/utils.c:34-56 | trimming does not change the tokens |
| Frontend.SkipFrom | src/db_api.c:246-265 | the position after the semicolons |
| Frontend.Admit | src/db_api.c:318-391 | the statement that reaches the engine, or the refusal |
| Frontend.ParseStatement | src/parser.c:454-474 | accepts exactly the streams that the gate lets through, with the same statement |
| Frontend.ParseScript | src/main.c:79-114 | the parsing of the loop ends and yields the statements up to the first parse error |
| Cli.RunIsExecuteAll | src/main.c:79-126 | parsing and executing in turn, up to the first error, does what executing the parsed list one at a time would do |
| Cli.NothingToDoExact | src/main.c:79-123 | the command line reports that there was no statement exactly when the tokens are semicolons and the end |
| Cli.FinishedExact | src/main.c:79-126 | it ends well exactly when there is a statement, the whole script parses and every statement succeeds, each then answered |
| Cli.StopsAtFirstError | src/main.c:98-114 | on a consistent database execution stops at the first statement for which schemas and files call for an error; each before it is answered, none after it executed |
| FrontendFacts.ScriptExact | src/main.c:79-114 | the script loop returns a list of statements without error exactly on those statements with semicolons before, between and after them |
| FrontendFacts.GateIsScript | src/db_api.c:363-391 | the gate passes exactly the streams whose script is one statement |
| FrontendFacts.GateExact | src/db_api.c:363-391 | the engine is reached exactly by semicolons, one statement, semicolons |
| FrontendFacts.RefusalExact | src/db_api.c:355-391 | each of the four refusals has its own cause: nothing but semicolons; another first token than SELECT or INSERT; no statement there; something else than semicolons after it |
| FrontendFacts.LegalTokensExact | src/lexer.c:100-143 | a statement can be spelled exactly when its names are identifiers but not keywords and its numbers are numbers |
| FrontendFacts.PrintLexes | src/lexer.c:242-291 | printed tokens lex back |
| FrontendFacts.AnyLayoutReadsBack | src/main.c:79-114 | a list of statements in any layout and letter case of keywords is read back |
| FrontendFacts.ScriptRoundTrip | src/main.c:79-114 | a printed list of legal statements is read back as the same list |
| FrontendFacts.StatementRoundTrip | src/db_api.c:355-391 | a printed legal statement passes the gate unchanged |
| FrontendFacts.AdmissibleExact | src/db_api.c:318-391 | some request brings a statement to the engine exactly when it is well-formed and legal |
| Json.WriterIsValid | src/json_writer.c:102-158 | for every text the output is a string of section 7 of RFC 8259 that decodes to it |
| Json.WriterSpells | src/json_writer.c:102-158 | which characters are escaped in two characters, which as `\u00` with two lower-case digits, and that the rest is copied |
| Json.ParseJsonString | src/json_parser.c:53-132 | the cursor loop computes the decoded text and position, or the error |
| Json.ReaderInvertsWriter | src/json_parser.c:53-132 | reads back the writer's output exactly when newline, return and tab are the only control characters, and refuses it otherwise |
| Json.ReaderRefusesBackspace | src/json_parser.c:88-117 | the writer's output for a backspace is refused |
| Json.ReaderIsSound | src/json_parser.c:53-132 | whatever is accepted is valid under RFC 8259 and has the same meaning |
| Json.ReaderExact | src/json_parser.c:53-132 | of the valid strings exactly those are accepted whose escapes are quote, backslash, `n`, `r` or `t` |
| JsonBuffer.Buffer.constructor | src/json_writer.c:37-53 | an empty terminated text with capacity 256 |
| JsonBuffer.Buffer.EnsureCapacity | src/json_writer.c:8-34 | makes room for the terminator, keeps the text, and stays below twice the need |
| JsonBuffer.Buffer.Append | src/json_writer.c:67-83 | the text grows by exactly the argument and stays terminated |
| JsonBuffer.Buffer.AppendChar | src/json_writer.c:86-99 | the text grows by one character and stays terminated |
| JsonBuffer.Buffer.AppendEscapedString | src/json_writer.c:102-158 | the text grows by the quoted and escaped argument |
| JsonBuffer.Buffer.Take | src/json_writer.c:161-174 | hands the text over and leaves an empty buffer |

## Left out

- Sockets and HTTP framing (src/http.c, socket setup in src/server.c). The handler is one step that closes its connection once, as every path of `server_handle_client_task` does.
- Allocation failure, partial writes and pthread errors, and so the cleanup paths for them, `pthread_create` failing among them.
- Error messages, status codes of the HTTP layer and the JSON layout of answers: settled by reading one branch.
- Freeing and copying of memory: rows and statements are values, and `bptree_destroy` is not modelled.
- Reading schema files (src/schema.c): a schema is a sequence of column names; loading a table asks for a non-empty one without repetitions.
- The cache `ctx->tables` is a sequence inside a database value, not a heap array; its doubling is not modelled.
- INSERT into a table without an id column is modelled, but the theorems about ids and the index speak of tables that have one.
- Command line, result printing, benchmarks, shell tests and scripts.
- The rest of the JSON object scanner: numbers, other fields and nesting.
- Overflow of `size_t` in buffer growth and of `long` file offsets.
- The validator's messages and the order in which it reports several faults; only acceptance is modelled.
- Fairness of the scheduler, for the pool: progress is stated as "some step is possible" together with a bound on the number of steps. For the requests `DbProgress.ServerAnswersAll` states it.
- WorkerPool: a second call of shutdown before destroy is not modelled; it would set a flag that is set already.
- Cli: the loop of the command line is a function, because it executes statements on a database value; what it prints is left out.
