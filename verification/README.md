# RavenDB storage and server core, modelled in Dafny

This project models five pieces of RavenDB and proves properties about them:

- **Voron's scratch buffer pool** (`ScratchBufferPool`). It hands out temporary page ranges to write transactions from numbered scratch files. When the current file is full and has reached MaxScratchBufferSize, it rotates to a new file of at least MaxScratchBufferSize bytes. It retires files whose pages have all been freed, and trims an oversized current file once that file has drained.
- **The document writer's property cache** (`CachedProperties`). It gives every property name of a document an id. Ids are 0, 1, 2, … in the order the properties are first met in the current document. A shared global sort order ranks the names.
- **Sparrow's `DisposeOnce`**. It runs a dispose action until it succeeds once. Its mode decides what a failure leaves behind: `ExceptionRetry` or `SingleAttempt`.
- **The server's `LicenseStatus`**. It gives the license type and status, the limits (cores, memory, cluster size, and their ratio) and the feature flags, all read from the license's attribute map.
- **The cluster command `DeleteOngoingTaskCommand`**. It removes one ongoing task from a database record.

Modules and files:

| file | module | contents |
|---|---|---|
| `wrappers.dfy` | `Wrappers` | `Option`, `Result`, `Outcome` |
| `sequences.dfy` | `Sequences` | first match (`List.Find`), removal at an index, sums over a list |
| `bits.dfy` | `Bits` | `NextPowerOf2` (the allocation size class) |
| `scratch_buffer_file.dfy` | `ScratchBufferFiles` | an abstract scratch file: capacity, append cursor, live allocations, free list |
| `scratch_buffer_pool.dfy` | `Scratch` | class `ScratchBufferPool` |
| `property_names.dfy` | `PropertyNames` | byte-wise name order and the sort of the sort-order list |
| `cached_properties.dfy` | `Json` | class `CachedProperties` |
| `dispose_once.dfy` | `Threading` | the dispose state machine (`DisposeStep`, `Run`) and class `DisposeOnce` |
| `license_status.dfy` | `Commercial` | `LicenseStatus` and its derived values |
| `decimal_text.dfy` | `DecimalText` | `long.ToString()` and its round trip |
| `delete_ongoing_task.dfy` | `Commands` | class `DatabaseRecord`, class `DeleteOngoingTaskCommand` |

The classes keep the fields that the C# code updates in place:

- `ScratchBufferPool` keeps `_current`, `_currentScratchNumber` and `_scratchBuffers`.
- `CachedProperties` keeps both lists, the dictionary, the needs-sorting flag and `PropertiesDiscovered`.
- `DisposeOnce` keeps `_state`.

`ScratchBufferPool`, `CachedProperties` and `DisposeOnce` have a `Valid()` invariant; `DatabaseRecord` and `DeleteOngoingTaskCommand` hold plain data and have none. Every method of the three keeps that invariant and states the new state it leaves. The value-level facts are lemmas over the invariants (`Consistent`, `Ranked`, `ScratchBufferFile.Valid`).

A few things from outside the code are parameters:

- **Disk space** is a parameter `freeDiskBytes`: creating a scratch file of `n` bytes fails exactly when `n > freeDiskBytes`.
- **The result of a dispose action** is a parameter of `Dispose`.
- **The members of `LicenseType`** are the parameter `LicenseTypes`: the codes of Invalid, None and Free, and the set of defined codes, which stands for `Enum.IsDefined`.
- **`ExternalReplication.RemoveWatcher` and `DatabaseRecord.DeletePeriodicBackupConfiguration`** are function parameters.

## Model

| member | source | states |
|---|---|---|
| Bits.NextPowerOf2 | src/Voron/Impl/Scratch/ScratchBufferPool.cs:102 | the size class is a power of two `r` with `n <= r < 2n` |
| Bits.NextPowerOf2IsLeast | src/Voron/Impl/Scratch/ScratchBufferPool.cs:102 | no power of two at least `n` is smaller than the size class: it is the least one |
| Bits.PowerOfTwoGap | src/Voron/Impl/Scratch/ScratchBufferPool.cs:102 | of two different powers of two, the larger is at least twice the smaller |
| Bits.SizeClassOfFive | src/Voron/Impl/Scratch/ScratchBufferPool.cs:102 | a 5-page request uses size class 8 |
| Bits.SizeClassOfEight | src/Voron/Impl/Scratch/ScratchBufferPool.cs:102 | an 8-page request uses size class 8 |
| Bits.SizeClassOfThree | src/Voron/Impl/Scratch/ScratchBufferPool.cs:102 | a 3-page request uses size class 4 |
| ScratchBufferFiles.Create | src/Voron/Impl/Scratch/ScratchBufferPool.cs:80-84 | a new file is valid, holds at least the requested bytes (less than one page more), is empty, and its PagerState has one reference |
| ScratchBufferFiles.PagesFor | src/Voron/Impl/Scratch/ScratchBufferPool.cs:80-84 | the pages for a byte size hold those bytes with less than one page to spare |
| ScratchBufferFiles.TryGettingFromAllocatedBuffer | src/Voron/Impl/Scratch/ScratchBufferPool.cs:109-110 | fails exactly when no free range of the size class is old enough to reuse; otherwise hands out the first such range, moves it from the free list to the live allocations, and keeps the file valid without growing it |
| ScratchBufferFiles.ReuseKeepsValid | src/Voron/Impl/Scratch/ScratchBufferPool.cs:109-110 | handing a free range out again as an allocation of the same position and size keeps the file's page accounting valid, and the active bytes rise by that size |
| ScratchBufferFiles.ReuseBytes | src/Voron/Impl/Scratch/ScratchBufferPool.cs:109-110 | a reused range adds exactly its size in pages, times the page size, to the active bytes |
| ScratchBufferFiles.Allocate | src/Voron/Impl/Scratch/ScratchBufferPool.cs:113-117 | the allocation is placed at the append cursor, the cursor advances by the size class, the file grows only when needed, and the active bytes rise by the size class |
| ScratchBufferFiles.Free | src/Voron/Impl/Scratch/ScratchBufferPool.cs:141 | fails exactly when no live allocation starts at the page; otherwise that allocation moves to the free list tagged with the transaction id, and its bytes leave the active total |
| ScratchBufferFiles.ReleaseKeepsValid | src/Voron/Impl/Scratch/ScratchBufferPool.cs:141 | moving a live allocation to the free list keeps the page accounting valid, and its bytes leave the active total |
| ScratchBufferFiles.DrainedIffNothingAllocated | src/Voron/Impl/Scratch/ScratchBufferPool.cs:142 | a file's active bytes are zero exactly when it has no live allocation |
| ScratchBufferFiles.AllocateThenFree | src/Voron/Impl/Scratch/ScratchBufferPool.cs:114-141 | freeing what was just allocated restores the live allocations and the active bytes, and leaves the range on the free list |
| Scratch.RotationSize | src/Voron/Impl/Scratch/ScratchBufferPool.cs:119-120 | the rotation size is never below what the request needs; it is within the maximum when the request fits it; it is twice the current size whenever that lies between the two (a case Allocate never reaches, see `RotationNeverDoubles`) |
| Scratch.AddRef | src/Voron/Impl/Scratch/ScratchBufferPool.cs:126 | the file gains exactly one PagerState reference and is otherwise unchanged |
| Scratch.AppendDisposed | src/Voron/Impl/Scratch/ScratchBufferPool.cs:161-168 | files disposed in ascending order, none of them disposed before, keep the dispose log free of repeats |
| Scratch.ScratchBufferPool.constructor | src/Voron/Impl/Scratch/ScratchBufferPool.cs:40-44 | the pool starts with scratch file 0 of InitialLogFileSize bytes as its current and only file |
| Scratch.ScratchBufferPool.NextFile | src/Voron/Impl/Scratch/ScratchBufferPool.cs:59-90 | the scratch number rises by exactly one, or by two when the sized creation fails and the fallback of max(InitialLogFileSize, minSize) is used; the new file is registered under a number above every number in use |
| Scratch.ScratchBufferPool.StoreFile | src/Voron/Impl/Scratch/ScratchBufferPool.cs:31-37 | an updated file is seen both through the map and, when it is current, through `_current` |
| Scratch.ScratchBufferPool.Publish | src/Voron/Impl/Scratch/ScratchBufferPool.cs:126-134 | the file just created becomes `_current` and its latest value is what the map holds, keeping the pool valid |
| Scratch.ScratchBufferPool.Allocate | src/Voron/Impl/Scratch/ScratchBufferPool.cs:98-136 | a null transaction fails with ArgumentNullException and changes nothing; the descriptor has the size class; reuse, append and growth serve from the current file with no new file; otherwise a file of the rotation size becomes current with two PagerState references, and the old file stays in the map |
| Scratch.ScratchBufferPool.RotationNeverDoubles | src/Voron/Impl/Scratch/ScratchBufferPool.cs:116-120 | Allocate rotates only once the current file has reached MaxScratchBufferSize, so the size it asks for is the larger of the request and MaxScratchBufferSize; the doubling term never decides it |
| Scratch.ScratchBufferPool.AllocateFromCurrent | src/Voron/Impl/Scratch/ScratchBufferPool.cs:107-117 | the current file serves the request exactly when reuse, append or growth applies; then it hands out the descriptor appended to its live allocations, no file is created and `_current` keeps its number; otherwise nothing changes |
| Scratch.ScratchBufferPool.Rotate | src/Voron/Impl/Scratch/ScratchBufferPool.cs:119-135 | a full current file is replaced by a new file of the rotation size (or the fallback size), which gains a second PagerState reference, serves the request and becomes current; the scratch number rises by one, or two after a fallback |
| Scratch.ScratchBufferPool.Free | src/Voron/Impl/Scratch/ScratchBufferPool.cs:138-159 | an unknown file or page changes nothing; a file still in use, or the current file within MaxScratchBufferSize, stays; another drained file is dropped and disposed; a drained oversized current file is replaced by a new current file with an extra reference, then dropped |
| Scratch.ScratchBufferPool.Retire | src/Voron/Impl/Scratch/ScratchBufferPool.cs:156-158 | the file leaves the map and is logged as disposed, and `_current` is untouched |
| Scratch.ScratchBufferPool.Trim | src/Voron/Impl/Scratch/ScratchBufferPool.cs:150-158 | the new current file is of MaxScratchBufferSize bytes, or of InitialLogFileSize bytes when that creation fails, with one extra reference; the old current file is dropped and disposed |
| Scratch.ScratchBufferPool.Dispose | src/Voron/Impl/Scratch/ScratchBufferPool.cs:161-168 | every file of the pool is disposed, exactly once, and the map is left empty |
| Scratch.ScratchBufferPool.DisposeFiles | src/Voron/Impl/Scratch/ScratchBufferPool.cs:163-166 | every file of the dictionary is disposed exactly once, in ascending order of scratch number, and nothing else |
| Scratch.ScratchBufferPool.Clear | src/Voron/Impl/Scratch/ScratchBufferPool.cs:167 | the map is emptied after its files have been disposed |
| Scratch.ScratchBufferPool.GetAvailablePagesCount | src/Voron/Impl/Scratch/ScratchBufferPool.cs:206-209 | the count lies between the current file's unused tail and its capacity |
| Scratch.ScratchBufferPool.GetPagerStatesOfAllScratches | src/Voron/Impl/Scratch/ScratchBufferPool.cs:46-51 | the snapshot has one PagerState per live file, under the same numbers, none above the current file's number, and includes the current file's state |
| PropertyNames.BelowIrreflexive | src/Raven.Server/Json/CachedProperties.cs:102 | no name sorts before itself |
| PropertyNames.BelowAsymmetric | src/Raven.Server/Json/CachedProperties.cs:102 | two names never sort before each other |
| PropertyNames.BelowTransitive | src/Raven.Server/Json/CachedProperties.cs:102 | the name order is transitive |
| PropertyNames.BelowTotal | src/Raven.Server/Json/CachedProperties.cs:102 | any two different names are ordered |
| PropertyNames.Insert | src/Raven.Server/Json/CachedProperties.cs:102 | insertion adds exactly the one name |
| PropertyNames.SortByName | src/Raven.Server/Json/CachedProperties.cs:102 | the sort is a permutation of the list |
| PropertyNames.InsertSorted | src/Raven.Server/Json/CachedProperties.cs:102 | inserting a new name into a sorted list keeps it sorted |
| PropertyNames.HeadBelowInsert | src/Raven.Server/Json/CachedProperties.cs:102 | the head of a sorted list sorts below every name of its tail once a larger name is inserted there |
| PropertyNames.SortByNameSorted | src/Raven.Server/Json/CachedProperties.cs:102 | sorting distinct names gives a strictly increasing list |
| PropertyNames.SortedArrangementUnique | src/Raven.Server/Json/CachedProperties.cs:102 | two sorted arrangements of the same names are equal, so any correct sort gives the same order |
| Json.IdIsIndex | src/Raven.Server/Json/CachedProperties.cs:56 | the entry of a known name sits in the id list at the index that is its PropertyId |
| Json.SwapConsistent | src/Raven.Server/Json/CachedProperties.cs:80-95 | exchanging two slots of the id list keeps `PropertyId == index` for every slot and keeps both lists permutations of the same names |
| Json.SwapKeepsNames | src/Raven.Server/Json/CachedProperties.cs:87-90 | exchanging two slots of the id list keeps the same names, without repeats |
| Json.SwapKeepsIds | src/Raven.Server/Json/CachedProperties.cs:87-92 | after the exchange each entry's PropertyId is again the slot of its name, and names, comparers and sort orders are untouched |
| Json.Renumbered | src/Raven.Server/Json/CachedProperties.cs:80-95 | a rearrangement of the id list that keeps its names, with entries renumbered to their new slots and otherwise unchanged, keeps the invariant |
| Json.InDocumentIff | src/Raven.Server/Json/CachedProperties.cs:69 | a name has been met in the current document exactly when its id is below PropertiesDiscovered |
| Json.AddConsistent | src/Raven.Server/Json/CachedProperties.cs:51-62 | appending a new name to both lists, with a new entry whose id is the old count and sort order -1, keeps the invariant |
| Json.RankIsNameOrder | src/Raven.Server/Json/CachedProperties.cs:102-106 | once sorted, GlobalSortOrder orders the names exactly by the name order, and equal orders mean the same name |
| Json.RankedConsistent | src/Raven.Server/Json/CachedProperties.cs:100-108 | a sorted arrangement of the names, with each entry ranked by its position, restores the invariant with the sort up to date |
| Json.RankedIsSortByName | src/Raven.Server/Json/CachedProperties.cs:102 | an up-to-date sort-order list is the names in name order |
| Json.CachedProperties.constructor | src/Raven.Server/Json/CachedProperties.cs:34-44 | the cache starts empty, with no property discovered |
| Json.CachedProperties.GetProperty | src/Raven.Server/Json/CachedProperties.cs:119-122 | a name is returned exactly for an index in range, and it is the name whose entry has that id |
| Json.CachedProperties.SwapPropertyIds | src/Raven.Server/Json/CachedProperties.cs:80-95 | the property moves to slot PropertiesDiscovered and the displaced one to the property's old slot; the rest of the list, the names, the sort orders and the count are unchanged |
| Json.CachedProperties.Exchange | src/Raven.Server/Json/CachedProperties.cs:87-93 | the property lands in slot PropertiesDiscovered and the displaced name in the property's old slot; the two entries take each other's id and keep their sort order |
| Json.CachedProperties.GetPropertyId | src/Raven.Server/Json/CachedProperties.cs:46-78 | GetProperty of the returned id gives the name back; a name first met in this document gets the old PropertiesDiscovered as its id; a name met before keeps its id and changes nothing; a new name is appended to both lists with sort order -1 and sets the needs-sorting flag |
| Json.CachedProperties.DiscoverNew | src/Raven.Server/Json/CachedProperties.cs:49-67 | a name never seen is added to both lists and the map, each grows by one, and PropertiesDiscovered rises by one |
| Json.CachedProperties.DiscoverCached | src/Raven.Server/Json/CachedProperties.cs:69-76 | a cached name not yet met in this document takes id PropertiesDiscovered, which rises by one |
| Json.CachedProperties.AddProperty | src/Raven.Server/Json/CachedProperties.cs:51-62 | the new entry has sort order -1 and the next id, and is appended to both lists |
| Json.CachedProperties.TakeNext | src/Raven.Server/Json/CachedProperties.cs:63-75 | the property takes the next id of the document, swapping when it is not already there |
| Json.CachedProperties.Sort | src/Raven.Server/Json/CachedProperties.cs:97-111 | afterwards the sort-order list is the names in name order, each entry's GlobalSortOrder is its position there, ids are kept and the flag is clear; nothing changes when the flag was already clear |
| Json.CachedProperties.AssignSortOrder | src/Raven.Server/Json/CachedProperties.cs:103-106 | each entry's GlobalSortOrder becomes the position of its name in the sorted list; ids, comparers and the set of names are unchanged |
| Json.CachedProperties.Compare | src/Raven.Server/Json/CachedProperties.cs:114-117 | once sorted, the comparison is negative exactly when the first name sorts before the second, and zero exactly for the same id |
| Json.CachedProperties.NewDocument | src/Raven.Server/Json/CachedProperties.cs:124-127 | PropertiesDiscovered becomes 0 and the lists and map are untouched |
| Threading.CheckMode | src/Sparrow/Threading/DisposeOnce.cs:21-25 | only ExceptionRetry and SingleAttempt pass; any other mode fails with "Unknown operation mode: " and the type name |
| Threading.DisposeStep | src/Sparrow/Threading/DisposeOnce.cs:44-96 | a call runs the action exactly when the flag is not yet raised, and succeeds exactly when the action (or the run it waits for) succeeded |
| Threading.DisposedIsFinal | src/Sparrow/Threading/DisposeOnce.cs:48-56 | once disposed, Dispose runs nothing and changes nothing; it succeeds, or after a SingleAttempt failure throws the recorded exception again |
| Threading.FirstDispose | src/Sparrow/Threading/DisposeOnce.cs:58-65 | the first call runs the action; a success leaves the object disposed, and a failure throws the exception wrapped |
| Threading.AfterFailure | src/Sparrow/Threading/DisposeOnce.cs:67-87 | after a failure, SingleAttempt is disposed and holds the exception; ExceptionRetry is back in its initial, not-disposed state |
| Threading.Run | src/Sparrow/Threading/DisposeOnce.cs:44-96 | a sequence of calls gives one result per call and runs the action at most once per call |
| Threading.RunFromRaised | src/Sparrow/Threading/DisposeOnce.cs:48-56 | from a raised state no call runs the action or changes the state, and every call returns the same result |
| Threading.SingleAttemptRunsOnce | src/Sparrow/Threading/DisposeOnce.cs:83-87 | with SingleAttempt the action runs exactly once; a failure makes every call throw that same exception |
| Threading.ExceptionRetryRunsUntilSuccess | src/Sparrow/Threading/DisposeOnce.cs:67-80 | with ExceptionRetry the action runs on every call up to the first success and never after; the object ends disposed exactly when some call succeeded |
| Threading.DisposeOnce.constructor | src/Sparrow/Threading/DisposeOnce.cs:15-20 | a new object is in the initial state and has run nothing |
| Threading.DisposeOnce.Create | src/Sparrow/Threading/DisposeOnce.cs:18-26 | construction fails exactly for an unsupported mode, with the constructor's exception |
| Threading.DisposeOnce.Dispose | src/Sparrow/Threading/DisposeOnce.cs:44-96 | the call moves the state by one DisposeStep, returns its result, and counts the action run it makes |
| Threading.DisposeOnce.Disposed | src/Sparrow/Threading/DisposeOnce.cs:98-120 | true only with the flag raised, and then no later Dispose runs the action or changes the state |
| Commercial.New | src/Raven.Server/Commercial/LicenseStatus.cs:11-20 | a fresh status has no error, no attributes, and the message "No installed license" |
| Commercial.Status | src/Raven.Server/Commercial/LicenseStatus.cs:22 | "AGPL - Open Source" exactly when there are no attributes, "Commercial" exactly when there are |
| Commercial.Lookup | src/Raven.Server/Commercial/LicenseStatus.cs:59-68 | a value is found exactly when the attributes exist and hold the key |
| Commercial.GetInt | src/Raven.Server/Commercial/LicenseStatus.cs:59-71 | the value is returned exactly when it is stored as an int; otherwise the default, null |
| Commercial.GetBool | src/Raven.Server/Commercial/LicenseStatus.cs:59-71 | true exactly when the attribute is stored as the bool true; otherwise the default, false |
| Commercial.GetDate | src/Raven.Server/Commercial/LicenseStatus.cs:59-71 | the value is returned exactly when it is stored as a DateTime; otherwise null |
| Commercial.Type | src/Raven.Server/Commercial/LicenseStatus.cs:34-55 | Invalid whenever there is an error; otherwise None with no attributes; otherwise the code stored in "type" when it is an int that LicenseType defines (which may itself be Invalid, None or Free); otherwise Free; the result is always a defined member |
| Commercial.Expiration | src/Raven.Server/Commercial/LicenseStatus.cs:73 | an expiration is present exactly when "expiration" is stored as a DateTime |
| Commercial.MaxCores | src/Raven.Server/Commercial/LicenseStatus.cs:75 | the cores limit is the int stored under "cores", or 3 when there is none |
| Commercial.MaxMemory | src/Raven.Server/Commercial/LicenseStatus.cs:77 | the memory limit is the int stored under "memory", or 6 when there is none |
| Commercial.MaxClusterSize | src/Raven.Server/Commercial/LicenseStatus.cs:81 | the cluster size limit is the int stored under "maxClusterSize", or 3 when there is none |
| Commercial.Ratio | src/Raven.Server/Commercial/LicenseStatus.cs:79 | the ratio is `IntDivide(MaxMemory, MaxCores)`: DivideByZeroException exactly for zero cores, OverflowException exactly for int.MinValue memory over -1 cores, otherwise the truncated quotient (2 for the defaults, see `Defaults`; zero cores, see `ZeroCoresHasNoRatio`) |
| Commercial.IntOr | src/Raven.Server/Commercial/LicenseStatus.cs:75-81 | the limit is the stored int when there is one, and the default otherwise |
| Commercial.TruncatedDivide | src/Raven.Server/Commercial/LicenseStatus.cs:79 | the quotient rounds toward zero: the remainder is smaller than the divisor and has the sign of the dividend |
| Commercial.TruncatedRemainder | src/Raven.Server/Commercial/LicenseStatus.cs:79 | the truncated quotient is at most the dividend in size, at most half of it for a divisor of size two or more, and leaves a remainder smaller than the divisor with the dividend's sign |
| Commercial.QuotientBounds | src/Raven.Server/Commercial/LicenseStatus.cs:79 | a quotient of naturals is at most the dividend, and at most half of it for a divisor of two or more |
| Commercial.SignedRemainder | src/Raven.Server/Commercial/LicenseStatus.cs:79 | the truncated quotient leaves the remainder of the sizes, negated for a negative dividend |
| Commercial.IntDivide | src/Raven.Server/Commercial/LicenseStatus.cs:79 | int division fails exactly for a zero divisor (DivideByZeroException) or int.MinValue / -1 (OverflowException), and otherwise gives the truncated quotient |
| Commercial.Defaults | src/Raven.Server/Commercial/LicenseStatus.cs:75-81 | without the attributes, the limits are 3 cores, 6 memory, a cluster of 3, and the ratio is 2 |
| Commercial.ZeroCoresHasNoRatio | src/Raven.Server/Commercial/LicenseStatus.cs:79 | a cores attribute of 0 makes the ratio throw DivideByZeroException |
| Commercial.HasFeature | src/Raven.Server/Commercial/LicenseStatus.cs:83-99 | a feature flag is true exactly when its attribute is present as the bool true |
| Commercial.OpenSourceHasNoFeatures | src/Raven.Server/Commercial/LicenseStatus.cs:22-99 | without attributes, the status is open source, no feature is on, and the limits are the defaults |
| DecimalText.Digits | src/Raven.Server/ServerWide/Commands/DeleteOngoingTaskCommand.cs:37 | the digits of a number are decimal digits with no leading zero |
| DecimalText.ToDecimal | src/Raven.Server/ServerWide/Commands/DeleteOngoingTaskCommand.cs:37 | the text starts with '-' exactly for a negative number, followed by digits |
| DecimalText.DigitsRoundTrip | src/Raven.Server/ServerWide/Commands/DeleteOngoingTaskCommand.cs:37 | reading the digits back gives the number |
| DecimalText.ToDecimalRoundTrip | src/Raven.Server/ServerWide/Commands/DeleteOngoingTaskCommand.cs:37 | reading the text back gives the number |
| DecimalText.ToDecimalInjective | src/Raven.Server/ServerWide/Commands/DeleteOngoingTaskCommand.cs:37 | different task ids give different texts |
| DecimalText.ToDecimalExamples | src/Raven.Server/ServerWide/Commands/DeleteOngoingTaskCommand.cs:37 | 0, 42 and -7 are written "0", "42" and "-7" |
| Commands.RemoveTask | src/Raven.Server/ServerWide/Commands/DeleteOngoingTaskCommand.cs:39-53 | a null list stays null; a list with no entry of the id is unchanged; otherwise exactly the first entry with the id is removed |
| Commands.RemoveTaskKeepsOthers | src/Raven.Server/ServerWide/Commands/DeleteOngoingTaskCommand.cs:39-53 | entries with other ids keep their order, and the number of entries with the id drops by one when there was any |
| Commands.SplitFilter | src/Raven.Server/ServerWide/Commands/DeleteOngoingTaskCommand.cs:39-53 | the entries with other ids, and the count of the id, split over a concatenation |
| Commands.DropFirstMatch | src/Raven.Server/ServerWide/Commands/DeleteOngoingTaskCommand.cs:39-53 | dropping the first entry with the id leaves the other entries and removes one entry with the id |
| Commands.NoneBefore | src/Raven.Server/ServerWide/Commands/DeleteOngoingTaskCommand.cs:40 | a list with no entry of the id counts zero of them |
| Commands.DatabaseRecord.constructor | src/Raven.Server/ServerWide/Commands/DeleteOngoingTaskCommand.cs:25 | the record holds the given lists |
| Commands.DeleteOngoingTaskCommand.constructor | src/Raven.Server/ServerWide/Commands/DeleteOngoingTaskCommand.cs:19-23 | the command holds the task id, task type and database name |
| Commands.DeleteOngoingTaskCommand.UpdateDatabaseRecord | src/Raven.Server/ServerWide/Commands/DeleteOngoingTaskCommand.cs:25-57 | requires a non-zero task id; only the collection of the task's type changes (replication watchers, periodic backups, SQL ETLs or Raven ETLs); Backup returns the task id as decimal text and every other type returns null |
| Sequences.FirstIndex | src/Raven.Server/ServerWide/Commands/DeleteOngoingTaskCommand.cs:40 | the index found is the first element that passes the test, and none is found exactly when no element passes |
| Sequences.RemoveAt | src/Raven.Server/ServerWide/Commands/DeleteOngoingTaskCommand.cs:43 | removal at an index keeps the elements before and after it in order, and removes exactly that one element |
| Sequences.TotalRemoveAt | src/Voron/Impl/Scratch/ScratchBufferPool.cs:141 | removing one element takes exactly its size off the total |
| Sequences.TotalZeroIffEmpty | src/Voron/Impl/Scratch/ScratchBufferPool.cs:142 | when every element has a positive size, the total is zero exactly for the empty list |

## Left out

- `ReadPage` and `AcquirePagePointer` are left out. They are pointer pass-throughs to the pager and hold no pool logic.
- `BreakLargeAllocationToSeparatePages`, `GetPagerState` and `GetNumberOfAllocations` are left out. They are single lookups that delegate to the scratch file.
- Concurrency is left out. The scratch pool is documented as externally synchronised, so it is modelled as a sequential object, and the `ConcurrentDictionary` is a `map`.
- DisposeOnce's thread coordination is left out: the `MultipleUseFlag` atomics, the `Interlocked.CompareExchange` and other threads waiting on the `TaskCompletionSource`. Calls are sequential, so a raised flag always comes with a finished task, and a cancelled task cannot occur.
- The scratch file's own allocator is not part of this model. `ScratchBufferFile` is an abstract record with a capacity, an append cursor, the live allocations and a free list.
  - The reuse rule assumed is: the first free range of exactly the size class that is tagged before the oldest active transaction.
  - A free range is not merged with its neighbours.
  - How the pager grows the mapping is not modelled: growth just raises the capacity to the cursor.
- Scratch file creation is modelled by the `freeDiskBytes` parameter: a creation of more bytes than that fails, and anything else succeeds. Other I/O failures of `CreateScratchPager` are not modelled.
- Scratch.ScratchBufferPool.constructor: requires that the first file can be created. The source throws from its constructor in that case.
- Scratch.ScratchBufferPool.Allocate: requires `numberOfPages >= 1`. `Bits.NextPowerOf2` of 0 is not part of this model.
- Scratch.ScratchBufferPool.Allocate: does not model `tx.EnsurePagerStateReference`, which is transaction-side bookkeeping.
- Scratch.ScratchBufferPool.Free: a page with no live allocation is reported as `PageNotAllocated` and changes nothing. The source's `ScratchBufferFile.Free` is not part of this model.
- Sizes are unbounded integers. `numberOfPages * PageSize` is computed in C# `int` arithmetic, and its overflow is not modelled.
- Scratch.ScratchBufferPool.DisposeFiles: enumerates the dictionary in ascending scratch number. The order of `ConcurrentDictionary` enumeration is unspecified, and the result (all files disposed, then the map cleared) does not depend on it.
- Json.CachedProperties.Sort: the final `properties.Sort(this)` over the writer's property tags is not modelled. The comparer it uses is `Compare`, whose contract states the order it imposes.
- The `IComparer.Compare` subtraction is exact: the sort orders are below the number of names, so it cannot overflow.
- `LazyStringValue.CompareTo` is modelled as a byte-wise lexicographic order over the UTF-8 bytes of a name, with a proper prefix first.
- `_context.Intern` is left out. An entry is identified by its name, so the three collections share one entry per name.
- `List.Sort` is modelled by an insertion sort. Any comparison sort leaves distinct names in the same order (`SortedArrangementUnique`), so its instability does not matter.
- `LicenseStatus.FormattedExpiration` (culture-dependent date formatting) and `ToJson` are left out.
- The members of `LicenseType` are not part of this model. A license type is its code; the codes of Invalid, None and Free, and the set of defined codes, are parameters.
- `DeleteOngoingTaskCommand.FillJson` (serialisation) and the parameterless constructor are left out.
- Commands.DeleteOngoingTaskCommand.UpdateDatabaseRecord: `ExternalReplication.RemoveWatcher` and `DatabaseRecord.DeletePeriodicBackupConfiguration` are function parameters whose results the contract names. Their bodies are not part of this model, and the backup deletion is assumed to touch only the periodic backup list.
- Commands.DeleteOngoingTaskCommand.UpdateDatabaseRecord: `TaskId.ToString()` is modelled with the invariant culture's '-' sign.
