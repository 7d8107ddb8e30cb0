# lambda-executor: a verified model

The service runs Lua scripts and gives them a key-value storage, a cache of
compiled scripts, a memory limit, a time limit and an HTTP response to fill in.
This project models the parts with real state and proves what they keep.

| files | part |
|---|---|
| `Decimals.dfy`, `Json.dfy` | numbers and JSON documents as text, with a parser for arbitrary text |
| `NumberTexts.dfy`, `JsonGrammar.dfy` | the grammar of both, and the proof that exactly its texts are read |
| `LuaState.dfy`, `Unfolding.dfy` | a C function's stack frame, the heap of tables, and the tree a value unfolds to |
| `Serializer.dfy`, `EncodedTrees.dfy` | Lua values to text |
| `Deserializer.dfy`, `BuiltTrees.dfy`, `Ownership.dfy` | text to Lua values, and which of the tables built hold which |
| `Correspondence.dfy` | which document a value is stored as, and which value a text is read back as, written out |
| `RoundTrip.dfy`, `Restoring.dfy`, `StackLaws.dfy` | both directions together, once and again, and their use of the stack |
| `KvStorage.dfy` | the key-value module and the table behind it |
| `Scripts.dfy`, `CacheRuns.dfy` | the scripts storage, first called in sequence, then by any number of threads |
| `Allocator.dfy` | the metering allocator |
| `Timeout.dfy`, `Execution.dfy` | the count hook, and one execution with its guard |

How to read the model:

- A table is its entries in traversal order. The language leaves that order open,
  so the serializer is proved for every order, and every assignment may leave any
  order behind: `Memory` carries an arbitrary `Order` from which assignments take it.
- `Unfolds(heap, v, t)` ties a value to the tree it unfolds to, and such a tree
  exists exactly when the value reaches no cycle. Methods take that tree as a ghost
  argument and recurse on it. `LooksLike` is the same up to the order of entries,
  and `Alike` is equality of trees up to that order.
- Methods are proved against specification functions (`Encode`, `PushJson`, `Cast`,
  `Load`, `Call`, `Run` and others); each of these has a theorem or clause beside it
  that says what it computes without it, down to keys, fields, characters and numbers.
- The serializer removes three slots for every table a fault leaves behind. When
  the frame does not hold that many, the Lua API is used outside its contract;
  this is the outcome `Undefined` (`Breaks` for a whole call).
- Library behaviour the repository relies on but does not contain is written out:
  a JSON builder refuses to mix named members and items, a document naming a member
  of an object twice is not parsed, a bounded map may evict anything when it is
  written, and `realloc` may fail or move a block anywhere unused. Choices of the
  environment (database faults, places of blocks, clocks, evictions, what a script
  does) are parameters or nondeterminism, so results hold for all of them.
- Concurrency is a state machine whose steps are the atomic sections of the code.

Where the code does not do what one would expect of it, the model follows the
code, and a theorem says exactly when the expected property holds:

- A table with an empty table in it can be stored but not read back; number keys
  come back renumbered and strings cut at the first NUL (`TableRoundTrip`,
  `GraphRoundTrip`). Number keys are dropped in traversal order, so an array read
  back and stored again need not come back the same (`RestoringCanChange`); it does
  where arrays are traversed 1, 2, ... (`RestoresAgain`).
- Two names of a document that differ only after a NUL become one key, so a table
  under the first is left behind in the heap, held by nothing (`PushHoldsAllIff`,
  `TableCanBeLeftBehind`); stored tables have no such names (`RestoredIsATree`).
- A value nested deeper than the frame is high can take the stack below its bottom
  when it cannot be serialized (`DeepFrameIsDefined`, `ShallowFrameCanBreak`).
- The counter charges shrinks, so shrinking a block can fail (`ShrinkFailsIff`,
  `ShrinkCanFail`), although Lua assumes it cannot.
- A completed `Refresh` can be undone by a `Get` that had fetched the row earlier
  and puts it later (`RefreshCanBeUndone`, from the empty system); the cache can be
  trusted exactly in safe states (`FreshIffSafe`).

## Model

| member | source | states |
|---|---|---|
| Decimals.ScanPrint | src/miet/lambda/engine/lua/utils.cpp:86-88 | reading a printed number off the front of any text gives the number and the rest of the text |
| Decimals.ParsePrint | src/miet/lambda/engine/lua/utils.cpp:86-88 | the cast to double undoes the printing of a number |
| Decimals.ScannedIsParsed | src/miet/lambda/engine/lua/utils.cpp:86-88 | a text JSON reads as one number is cast to the same number |
| NumberTexts.ParsesIff | src/miet/lambda/engine/lua/utils.cpp:86-88 | a text is cast to a number if and only if it is a sign or none and digits with at most one point that spell that number |
| NumberTexts.PrintedToken | src/miet/lambda/engine/lua/utils.cpp:42-46 | a printed number is a JSON number with no superfluous zero before the point, and spells the number digit by digit |
| Json.ParsePrint | src/miet/lambda/engine/lua/utils.cpp:115-125 | the parser reads every printed document back, whatever follows it that is not a digit |
| Json.TextRoundTrip | src/miet/lambda/engine/lua/utils.cpp:115-125 | parsing a printed document gives it back exactly when no object names a member twice, and fails otherwise |
| JsonGrammar.ParsesIff | src/miet/lambda/engine/lua/utils.cpp:125 | for every text: parsing gives a document if and only if the grammar of RFC 8259 (without exponents) derives the text from it, with any space between tokens, and no object names a member twice |
| JsonGrammar.PrintIsText | src/miet/lambda/engine/lua/utils.cpp:14 | what is printed is derived by that grammar |
| Json.PrintHasNoNul | src/miet/lambda/engine/lua/utils.cpp:14 | a printed document holds no NUL even if its strings do, so no C string cuts it |
| Lua.LuaState.Next | src/miet/lambda/engine/lua/utils.cpp:56-57 | the key on top is replaced by the entry after it in traversal order, or removed after the last one |
| Lua.LuaState.SetTable | src/miet/lambda/engine/lua/utils.cpp:131 | the two top slots become one entry of the table, replacing an entry with that key, and the table is left in an arbitrary traversal order |
| Unfolding.UnfoldingIsUnique | src/miet/lambda/engine/lua/utils.cpp:53-80 | a value of a heap has at most one unfolding, so a result that depends on the unfolding alone cannot see sharing |
| Unfolding.UnfoldsIffAcyclic | src/miet/lambda/engine/lua/utils.cpp:53-80 | a value has a finite unfolding if and only if a rank decreases along every table it reaches |
| Unfolding.LooksLikeUpToOrder | src/miet/lambda/engine/lua/utils.cpp:53-146 | the trees a value looks like are those alike to one of them: equality of tables up to traversal order |
| Unfolding.LooksLikeIffUnfolds | src/miet/lambda/engine/lua/utils.cpp:53-80 | a value looks like a tree if and only if it unfolds to one with the same keys and alike subtrees in some order |
| Unfolding.LooksLikeIffIndexes | src/miet/lambda/engine/lua/utils.cpp:53-146 | a value looks like a tree if and only if no sequence of indexing operations of a script tells them apart |
| Serializer.ToValue | src/miet/lambda/engine/lua/utils.cpp:17-36 | terminates on every acyclic value; on success the document of its unfolding, stack and heap as before, peak height exact; on a fault the first one in traversal order and the exact height h-d (h-d+3 for mixed keys), lower slots kept, or undefined exactly when that is negative |
| Serializer.TableToValue | src/miet/lambda/engine/lua/utils.cpp:53-80 | the same for a table, whether on top of the stack or at a given index |
| Serializer.AddEntry | src/miet/lambda/engine/lua/utils.cpp:58-77 | one turn of the loop: the entry enters the builder and its key stays on the stack, or a fault leaves the height the law gives |
| Serializer.ToValueOrUnwind | src/miet/lambda/engine/lua/utils.cpp:66-71 | a fault of a nested value removes three slots and counts one table more |
| Serializer.ToString | src/miet/lambda/engine/lua/utils.cpp:8-15 | a string is returned bare, any other document printed; stack law as above |
| EncodedTrees.EncodeShape | src/miet/lambda/engine/lua/utils.cpp:53-80 | an empty table is null, one keyed by strings an object under the cut names, one keyed by numbers an array in traversal order |
| EncodedTrees.EncodesIffSerializable | src/miet/lambda/engine/lua/utils.cpp:17-80 | serialization succeeds if and only if the value is made of strings, numbers, booleans and tables each keyed all by strings or all by numbers |
| Correspondence.EncodesIffStored | src/miet/lambda/engine/lua/utils.cpp:17-80 | a value is stored as a document if and only if they match: strings up to their first NUL, numbers and booleans as they are, an empty table as null, a table keyed by strings as the object of its entries, one keyed by numbers as the array of its entries |
| Correspondence.FailsIff | src/miet/lambda/engine/lua/utils.cpp:17-80 | serialization fails with a fault under d tables if and only if that is the first fault in traversal order: a value or key of another kind, or a key that does not go with those before it, noticed after its value is stored |
| Correspondence.StoredTextIs | src/miet/lambda/engine/lua/utils.cpp:8-15 | a string is stored as it is, every other document as a JSON text of it without a NUL |
| StackLaws.ClimbIsTwiceDepth | src/miet/lambda/engine/lua/utils.cpp:56-78 | without empty tables, serializing d levels of tables uses exactly 2d slots |
| StackLaws.PushClimbDepth | src/miet/lambda/engine/lua/utils.cpp:124-142 | pushing such a value back uses exactly 2d+1 slots |
| StackLaws.FitsGuaranteedSlots | src/miet/lambda/engine/lua/utils.cpp:53-142 | both stay within the slots Lua guarantees up to 10 and up to 9 levels, and not beyond |
| StackLaws.FaultDepth | src/miet/lambda/engine/lua/utils.cpp:58-71 | a fault lies under at most as many tables as the value nests |
| StackLaws.HeightAfterFault | src/miet/lambda/engine/lua/utils.cpp:53-80 | under d tables a fault leaves the height it found minus d, plus three for a mix of keys, with the lower slots as they were; below zero it is undefined |
| StackLaws.DeepFrameIsDefined | src/miet/lambda/engine/lua/utils.cpp:53-80 | a frame at least as high as the value is deep is never emptied below its bottom |
| StackLaws.ShallowFrameCanBreak | src/miet/lambda/engine/lua/utils.cpp:53-80 | for every frame some value one level deeper does take it below its bottom |
| Deserializer.FromString | src/miet/lambda/engine/lua/utils.cpp:148-166 | the outcome, the stack and the heap of the direct cast, and the peak height, exact on success |
| Deserializer.PushTable | src/miet/lambda/engine/lua/utils.cpp:124-146 | printing and reparsing every nested value comes to the direct structural push, including what a failure leaves behind |
| Deserializer.PushMembers | src/miet/lambda/engine/lua/utils.cpp:128-132 | the loop over members builds what the direct push builds |
| Deserializer.PushItems | src/miet/lambda/engine/lua/utils.cpp:135-141 | the loop over items builds what the direct push builds under the keys 1, 2, ... |
| Deserializer.AssignValue | src/miet/lambda/engine/lua/utils.cpp:130-139 | one value is pushed and assigned, or the table and the key stay on the stack |
| Deserializer.PushValue | src/miet/lambda/engine/lua/utils.cpp:108-122 | pushes what the direct push gives, and after a failure always restores the stack it found |
| Deserializer.ReparseIsPush | src/miet/lambda/engine/lua/utils.cpp:108-117 | casting the printed text of a value to the value's own type is pushing the value |
| Deserializer.PushExtends | src/miet/lambda/engine/lua/utils.cpp:124-142 | a push leaves every older table as it was, and a failure leaves exactly two slots for a table and none for null |
| BuiltTrees.PushGrows | src/miet/lambda/engine/lua/utils.cpp:124-142 | a push succeeds if and only if the document stands for a tree, and then builds that tree within the tables it allocated, for every traversal order |
| Correspondence.PushStandsFor | src/miet/lambda/engine/lua/utils.cpp:94-142 | a push of a document without null gives its value: an array is a table with exactly the keys 1 to n and its items under them, an object a table with exactly its cut names and the last member of each, nested values likewise |
| Correspondence.ArrayIsCounted | src/miet/lambda/engine/lua/utils.cpp:133-141 | an array of n items read from any text has n entries, exactly the keys 1 to n, and under k the value of item k |
| Correspondence.ScalarCasts | src/miet/lambda/engine/lua/utils.cpp:82-92 | any text is cast to the string up to its first NUL, and to true if it is the word true and to false otherwise |
| Correspondence.NumberCast | src/miet/lambda/engine/lua/utils.cpp:86-88 | a text is cast to the number it spells, and refused, with nothing pushed, when it spells none |
| Correspondence.TableCast | src/miet/lambda/engine/lua/utils.cpp:124-146 | a text that is a document is cast to the table it stands for, and refused if it is a scalar or has null anywhere |
| Correspondence.NoTableCast | src/miet/lambda/engine/lua/utils.cpp:124-125 | a text that is no document is refused before anything is pushed |
| BuiltTrees.PushesIffNoNull | src/miet/lambda/engine/lua/utils.cpp:94-142 | a push succeeds if and only if the document contains no null at any depth |
| Ownership.PushIsUnshared | src/miet/lambda/engine/lua/utils.cpp:124-142 | a table a push allocates is held, if at all, only by an older one of them, by one alone, and under one key; nothing of the push holds the first |
| Ownership.PushHoldsAllIff | src/miet/lambda/engine/lua/utils.cpp:124-142 | every table a push allocates but the first is held if and only if no table in the document, at any depth, is replaced by a later entry under the same cut key |
| Ownership.CastHoldsAllIff | src/miet/lambda/engine/lua/utils.cpp:124-146 | the same for the text of a document with distinct names and no null |
| Ownership.TableCanBeLeftBehind | src/miet/lambda/engine/lua/utils.cpp:128-132 | the text of two arrays under names that differ only after a NUL can be stored as a string, and read as a table it leaves an array behind |
| RoundTrip.NamesUnique | src/miet/lambda/engine/lua/utils.cpp:72-73 | the stored document names a member twice exactly when two string keys of a table agree up to their first NUL |
| RoundTrip.TableRoundTrip | src/miet/lambda/engine/lua/utils.cpp:53-146 | a stored table reads back if and only if no table in it is empty and no cut keys collide; it reads back as its normal form (strings cut, number keys renumbered), up to the order of entries, in fresh tables |
| RoundTrip.RestoredIsATree | src/miet/lambda/engine/lua/utils.cpp:53-146 | what a readable stored table comes back as is a tree of fresh tables: each but the first is held exactly once |
| RoundTrip.NormalIffPlain | src/miet/lambda/engine/lua/utils.cpp:72-140 | the normal form is the value itself if and only if strings hold no NUL and number keys count 1, 2, ... in traversal order |
| RoundTrip.GraphRoundTrip | src/miet/lambda/engine/lua/utils.cpp:53-146 | a table of the heap reads back equal up to the order of entries if and only if it is alike to its own normal form and holds no empty table |
| RoundTrip.AlikeIffPlain | src/miet/lambda/engine/lua/utils.cpp:72-140 | a plain value is alike to its normal form, and where tables keyed 1, 2, ... are traversed in that order no other value is |
| RoundTrip.RestoredIsReadable | src/miet/lambda/engine/lua/utils.cpp:53-146 | whatever was read back, in whatever order, can be serialized, and its document read |
| Restoring.NormalEncodesAlike | src/miet/lambda/engine/lua/utils.cpp:53-80 | a value and its normal form, traversed in the same order, are stored as the same text |
| Restoring.RestoresAgain | src/miet/lambda/engine/lua/utils.cpp:53-146 | what was read back, stored again, always reads back, and alike if and only if it is its own normal form, as it is where arrays are traversed 1, 2, ... |
| Restoring.RestoringCanChange | src/miet/lambda/engine/lua/utils.cpp:53-146 | under a traversal order the language allows, an array of two different booleans comes back right the first time and swapped the second |
| RoundTrip.ScalarRoundTrip | src/miet/lambda/engine/lua/utils.cpp:38-51 | strings, numbers and booleans read back through the cast of their kind, a string up to its first NUL |
| KvStorage.ProjectStorage.Store | src/miet/lambda/project/storage.cpp:9-20 | an upsert under project and key that changes nothing when it fails |
| KvStorage.ProjectStorage.Get | src/miet/lambda/project/storage.cpp:22-35 | the value under project and key, or an error for a missing one |
| KvStorage.StoreMethod.Execute | src/miet/lambda/engine/lua/modules/kv/storage.cpp:86-112 | an argument error is raised exactly for a wrong count or a key that is neither string nor number, and leaves everything alone; every other call is carried out: of all rows only the one of this project under the key's own name takes the serialized text, nil or the database's message is the one result, and a value that cannot be serialized changes no row and leaves the height of the stack law for a frame of four |
| KvStorage.GetMethod.Execute | src/miet/lambda/engine/lua/modules/kv/storage.cpp:125-153 | an argument error is raised exactly for a wrong count or a key that is neither string nor number; every other call puts the row of this project under the key's own name into the result object, or the message with the error flag |
| KvStorage.KeyTextNames | src/miet/lambda/engine/lua/modules/kv/storage.cpp:94-97 | a string key names the row of its characters up to the first NUL, a number that of a spelling that reads back as itself, without a point when it is whole |
| KvStorage.KeysMeetIff | src/miet/lambda/engine/lua/modules/kv/storage.cpp:97 | two string keys meet in one row if and only if they agree up to their first NUL, so different ones without NUL never do |
| KvStorage.ResultObject.GetValue | src/miet/lambda/engine/lua/modules/kv/storage.cpp:45-69 | the four names give the methods that cast this result to their kind, every other name nil |
| KvStorage.ResultCastMethod.Execute | src/miet/lambda/engine/lua/modules/kv/storage.cpp:15-35 | the stack and heap of the answer: value and nil, or what was left, nil and the message |
| KvStorage.AnswersAreExclusive | src/miet/lambda/engine/lua/modules/kv/storage.cpp:15-35 | the two returned slots are a value and nil or nil and a message, for every stored text and cast |
| KvStorage.RowIsLastStored | src/miet/lambda/engine/lua/modules/kv/storage.cpp:86-112 | after any run a row holds the text of the value last stored under its project and key, and is absent before the first |
| KvStorage.ReadsLastWrite | src/miet/lambda/engine/lua/modules/kv/storage.cpp:15-153 | after any run by any projects, reading a key with the method that fits answers with the normal form of the value last stored there, up to the order of entries, exactly when that value is readable; a key never stored is an error |
| KvStorage.OtherCallsDoNotMatter | src/miet/lambda/project/storage.cpp:9-35 | what any read finds after a run is the same without a read, a failed store or a store under another project or key anywhere in it |
| Scripts.LruMap.Put | src/miet/lambda/scripts-storage.cpp:33-46 | the new entry is in, nothing else is new or changed, the bound holds |
| Scripts.ScriptsStorage.constructor | src/miet/lambda/scripts-storage.cpp:4-11 | the cache is used exactly when its size is not zero |
| Scripts.ScriptsStorage.FetchAndCompile | src/miet/lambda/scripts-storage.cpp:28-31 | succeeds exactly when the row is there and compiles; the script then has the requested id and the project and source of its row |
| Scripts.ScriptsStorage.Get | src/miet/lambda/scripts-storage.cpp:13-37 | a cached script is answered as it is; otherwise, and without a cache, the answer has the requested id and the project and source of the row, and with a cache it is cached |
| Scripts.ScriptsStorage.Refresh | src/miet/lambda/scripts-storage.cpp:39-47 | the script cached has the requested id and the current row's project and source; a failure leaves the cache alone |
| Scripts.CachedIsCurrent | src/miet/lambda/scripts-storage.cpp:21-47 | at every moment of a run a cached script is the current one unless its last write has not been followed by a successful Refresh |
| Scripts.CachedRefinesUncached | src/miet/lambda/scripts-storage.cpp:14-47 | for every capacity and eviction, a Get of a script whose writes were all followed by a successful Refresh answers as the storage without a cache does |
| CacheRuns.NoMixing | src/miet/lambda/scripts-storage.cpp:13-47 | in every interleaving every cached script and every script a thread holds has its id, and project and source of the row of that id at one and the same earlier moment |
| CacheRuns.FetchedWithinCall | src/miet/lambda/scripts-storage.cpp:14-36 | a script not taken from the cache was the row's at a moment within the call |
| CacheRuns.FreshIffSafe | src/miet/lambda/scripts-storage.cpp:21-46 | while the row stays, all Gets that start are answered with the current script, in every continuation, if and only if neither the cache nor a thread about to put holds an outdated one |
| CacheRuns.FreshAfterRefresh | src/miet/lambda/scripts-storage.cpp:39-47 | if the row stays from a moment at which no thread was between fetching and putting it, then after any later put of it, as by a completed Refresh, every Get that starts is answered with the current script for ever |
| CacheRuns.UncachedIsFresh | src/miet/lambda/scripts-storage.cpp:14-20 | with caching off, while the row stays, every Get that starts is answered with the current script |
| CacheRuns.StalePutIsSeen | src/miet/lambda/scripts-storage.cpp:28-35 | from every state with an outdated script between fetch and put, a Get that starts later can be answered with it |
| CacheRuns.RefreshCanBeUndone | src/miet/lambda/scripts-storage.cpp:21-46 | the whole run from the empty system: write, Get up to its fetch, write, completed Refresh, late put, and a new Get answered with the first script out of the cache |
| CacheRuns.SequentialGetIsATrace | src/miet/lambda/scripts-storage.cpp:13-37 | an uninterrupted answered Get is a trace of the concurrent system with the same answer and cache |
| CacheRuns.RunIsATrace | src/miet/lambda/scripts-storage.cpp:13-47 | every sequential run of writes, Gets and Refreshes is a trace of the concurrent system in which one thread performs its operations in turn, each beginning with its call and ending with its own answer, hit or miss, or with its failure |
| Allocator.LuaAllocator | src/miet/lambda/engine/lua/executor.cpp:32-50 | the 64-bit counter, the blocks and the reply of every request, written out: frees, growth, shrinking, rejection and failure of the C heap |
| Allocator.CallConserves | src/miet/lambda/engine/lua/executor.cpp:36-49 | one call raises counter minus live bytes by twice an accepted shrink and by a lost charge, never lowers it, and keeps live bytes within the limit |
| Allocator.Conservation | src/miet/lambda/engine/lua/executor.cpp:32-50 | in every run the counter is live bytes plus twice the accepted shrinks plus the lost charges, and live bytes stay within the counter and the limit |
| Allocator.ClampNeverTaken | src/miet/lambda/execution/control/memory-limit-checker.cpp:11-18 | after every run a free is within what the counter holds |
| Allocator.OverchargeAbsorbs | src/miet/lambda/engine/lua/executor.cpp:44-48 | once the overcharge passes the limit no request for memory succeeds any more, whatever is freed |
| Allocator.ShrinkFailsIff | src/miet/lambda/engine/lua/executor.cpp:44-49 | after every run a shrink is refused exactly when the C heap fails, or live bytes, twice the earlier shrinks, the lost charges and the bytes given back now together pass the limit |
| Allocator.GrantedIff | src/miet/lambda/engine/lua/executor.cpp:44-49 | after every run any request for memory, new, growing or shrinking, is refused exactly when the C heap fails, or live bytes, twice the earlier shrinks, the lost charges and the difference in size together pass the limit; a granted block is at its place with the size asked for, and no other block changes |
| Allocator.FreeGivesBack | src/miet/lambda/engine/lua/executor.cpp:39-43 | after every run a free lowers the counter by the size of its block and changes no other block |
| Allocator.ShrinkCanFail | src/miet/lambda/engine/lua/executor.cpp:44-48 | a concrete block that cannot be shrunk |
| Allocator.AgreesIffNeverWraps | src/miet/lambda/execution/control/memory-limit-checker.cpp:9-22 | the 64-bit counter and the exact one agree throughout a run if and only if no sum of the run leaves the word |
| Allocator.WordRefinesUnbounded | src/miet/lambda/execution/control/memory-limit-checker.cpp:9-22 | a run whose charges together fit the word never wraps, and is the same with both counters |
| Allocator.Conservation64 | src/miet/lambda/engine/lua/executor.cpp:32-50 | so conservation and the bounds hold for the 64-bit counter in every run that never wraps |
| Timeout.Check | src/miet/lambda/engine/lua/executor.cpp:20-30 | raises exactly when the clock is past the deadline, and otherwise leaves the stack as it was |
| Timeout.TimesOutExactlyAt | src/miet/lambda/engine/lua/executor.cpp:74-82 | for every machine and clock the timeout is raised after k instructions if and only if the script is still going and k is the first multiple of 100 at which the deadline has passed |
| Timeout.TimesOutIff | src/miet/lambda/engine/lua/executor.cpp:74-82 | the same written out: the machine takes k steps, 100 divides k, the clock is past the deadline then and was not at any earlier multiple of 100 |
| Timeout.EndsIff | src/miet/lambda/engine/lua/executor.cpp:74-82 | a run ends by itself after k instructions if and only if the k-th step ends the script and the clock was in time at every multiple of 100 before |
| Timeout.OverrunIsBounded | src/miet/lambda/engine/lua/executor.cpp:14-30 | all but the last hundred instructions were executed in time |
| Timeout.StopsAfterDeadline | src/miet/lambda/engine/lua/executor.cpp:20-30 | every run stops within a hundred instructions of the clock passing the deadline, even an endless one |
| Timeout.StopsExactlyAt | src/miet/lambda/engine/lua/executor.cpp:20-30 | a run that has stopped was timed out if and only if there is a multiple of 100 at which the script was still going and the deadline had passed |
| Timeout.TimedOutWithin | src/miet/lambda/engine/lua/executor.cpp:20-30 | within any number of instructions, stopped or not, the timeout was raised if and only if such a multiple is among them |
| Timeout.EndsUndisturbed | src/miet/lambda/engine/lua/executor.cpp:74-82 | a script that ends before the first expiry ends as it would without the hook |
| Execution.PopulateLuaResponse | src/miet/lambda/engine/lua/modules/http/context.cpp:16-71 | the table is a copy of the response with the body cut at the first NUL, and the native header values are gone |
| Execution.ScriptSees | src/miet/lambda/engine/lua/modules/http/context.cpp:16-71 | the fields and values a script finds in its response table, written out |
| Execution.PopulateNativeResponse | src/miet/lambda/engine/lua/modules/http/context.cpp:73-98 | status with its fraction dropped, body, and for every name that differs from others in more than case one header with a value of the table |
| Execution.FiledTogetherIff | src/miet/lambda/engine/lua/modules/http/context.cpp:88-91 | header names are filed together if and only if they are equal but for the case of ASCII letters |
| Execution.CopyOutAndBack | src/miet/lambda/engine/lua/modules/http/context.cpp:16-98 | copying out and straight back, in any order of the headers, restores everything but a body with a NUL |
| Execution.ExecutionGuard.constructor | src/miet/lambda/engine/lua/executor.cpp:86-94 | the response is copied into the environment and every variable published to the script |
| Execution.ExecutionGuard.PopGlobals | src/miet/lambda/engine/lua/executor.cpp:100-102 | every variable takes the script's value, or a table variable was no table any more |
| Execution.GivesBackIff | src/miet/lambda/engine/lua/executor.cpp:96-103 | what a script must leave for its variables to be read back: tables where tables were, and a response table with a status number, a headers table and a body |
| Execution.ExecutionGuard.Destroy | src/miet/lambda/engine/lua/executor.cpp:96-103 | variables are read back only when no exception is under way, and then the response is overwritten from the environment |
| Execution.RunScript | src/miet/lambda/engine/lua/executor.cpp:20-30 | stepping any machine for any number of instructions, with the hook after every hundredth, is the run of the specification, and leaves the stack as it was but for the checker when it times out |
| Execution.Leave | src/miet/lambda/engine/lua/executor.cpp:96-103 | on leaving the call the guard gives back the script's response or restores the original one, and terminates the process when it cannot read the variables back |
| Execution.Execute | src/miet/lambda/engine/lua/executor.cpp:115-162 | watched for any number of instructions, raises the memory error exactly for a memory failure of the script, the execution error exactly for every other failure, and the timeout if and only if among them is a multiple of 100 at which the script is still going and the deadline set at the start has passed; after a normal return the response is the script's final one; after every failure, or with an exception already under way, it is the original with the body cut at the first NUL, so unchanged exactly when the body holds no NUL; the process terminates exactly when, with no exception under way, a normal return finds any shared table, such as the request, replaced by something else, or no readable response |

## Left out

- The Lua machine, the garbage collector, the LuaCpp binding and exceptions crossing `lua_pcall`: only the stack and table operations the code uses are modelled, and a script is any machine that goes on by instructions.
- Cyclic tables: the serializer has no check for them, so its contract takes the unfolding of an acyclic value.
- Decimals.ScanPrint: does not model numbers printed with an exponent, infinities, not-a-number or the rounding of doubles, because a number is its decimal spelling here.
- Decimals.ParsePrint: the cast refuses exponents, infinities and not-a-number here, for the same reason.
- Decimals.ScannedIsParsed: JSON number texts with an exponent are refused by the scanner too.
- Deserializer.FromString: so a number text with an exponent is an error here, where the cast to double reads it.
- EncodedTrees.EncodesIffSerializable: not-a-number and infinities are no values of the model, so what a JSON builder makes of them is not stated.
- Strings are sequences of characters: UTF-8 and escaped surrogate pairs are not part of this model.
- Lua integers and floats are one kind of number, so a float with a whole value used as a storage key is spelled without its fraction; JSON integers and doubles are one kind too, printed with a fraction.
- Texts of error messages of the libraries; only which error it is.
- Deleted script rows and reading from a replica that lags behind: rows are inserted and updated, and a fetch sees the current row.
- The order in which the cache evicts, and a map of size zero; any eviction is allowed.
- Length limits and foreign keys of the database tables: a violation is one of the faults the environment may choose.
- Copying of the request and the HTTP client module repeat the table loops in easier form; handlers, components, configuration and the list of removed globals are wiring.
- Execution.PopulateNativeResponse: header keys of a response table that are not strings are not modelled, because the host's copy of a table is keyed by strings here.
- Execution.ExecutionGuard.PopGlobals: a shared variable other than a table takes whatever value the script gives it, without a type check of its own kind.
