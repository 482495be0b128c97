# A verified model of the client's state machines

This project models, in Dafny, the parts of a Qt BitTorrent client that keep state of their own and
whose correctness is not visible from one function body: the crash-safe settings store, the category
tree with incremental counts, the message a second instance sends to the first, the log ring, and a
number of smaller loops and state machines. Qt, the file system and `BitTorrent::Session` are the
environment; each module says what it takes from them. `dafny verify dfyconfig.toml` checks everything.

| file | models |
|---|---|
| TransactionalSettings.dfy | the two-file commit protocol, with the disk state after every file operation |
| SettingsKeys.dfy, SettingsStorage.dfy | key aliasing; the in-memory settings with dirty bit and retry timer |
| SettingsMachine.dfy | all interleavings of stores, removals, timer firings, concurrent `save()` calls, failures, crashes and recoveries |
| CachedSettingValue.dfy | the typed cache over one settings cell |
| CategoryPaths.dfy | category names, their prefixes, and the tree positions they denote |
| CategoryModelItem.dfy | the parent-linked category node with its two child indexes, as heap objects under a ghost forest |
| CategoryCounts.dfy | what each node's count should be, and how it moves with every session event |
| CategoryFilterModel.dfy | populate, lookup and the slots of the category model, and whole runs of events |
| CategorySession.dfy | the session's category operations, the signals they emit, and session and model together |
| TagFilterModel.dfy | the tag rows, their slots, and whole runs of events |
| InstanceMessages.dfy, Strings.dfy | printing and parsing the inter-instance message; QString's split, join and trim |
| ExternalProgram.dfy | the in-place placeholder substitution |
| WrapText.dfy | the greedy line wrapper of the usage text |
| Logger.dfy | the bounded log ring and a client that polls it by id |
| SavePathHistory.dfy | the most-recently-used save paths |
| PathValidator.dfy | the path validator that is split at the cursor |
| FileLogger.dfy | log rotation and deletion of old backups |
| FileSystemWatcher.dfy | the retry machine for partial torrents over `Algorithm::removeIf` |
| Collections.dfy | QList's removeOne and other sequence and set operations that several modules share |

Where the source changes state step by step, the model is a class or a loop whose contract equates the
new state with a specification function of the old one; the properties are then proved of those
functions, for all inputs, all runs or all reachable states.

## Where the code differs from what it is meant to do

Each of these is proved, as an exact condition or with a concrete case.

- Settings: without a `_new` file an emptied memory cannot be saved. The remove step empties the disk as
  asked, but there is nothing to rename, so save() returns false, the memory stays dirty and the timer
  retries for ever (`WriteSucceedsIff`, `EmptyWriteFails`, `EmptiedNeverSaved`, `EmptiedReached`).
- A `_new` file left behind by a failed rename is opened and written over, not replaced, so a key removed
  meanwhile comes back: memory and disk agree exactly when the last successful write found no key in
  `_new` that was missing in memory (`WriteSuccess`, `ReachableMemory`), and `RemovedKeyReturns` is a run
  in which they do not.
- Settings cache: assigning a value that is not a fixed point of the proxy function leaves the cache
  different from what a restart reads (`Assign`).
- Category tree: with subcategories on, populate() gives every node its own torrents and those of its
  children only, because a new child's count is added to its direct parent while that child is still
  without children (`PopulateCountExact`, `PopulateMissesGrandchildren`, `FreshModelInStep`). Torrent
  events keep the difference as it is; removing a category moves its parent's by what was left of the
  removed count (`DriftsCategoryRemoved`, `RemovalMovesParent`).
- A category named by the single character U+0001 is taken for "Uncategorized" (`CollidesIff`,
  `NodeTakenIff`, `UncategorizedExactIff`).
- "All" and "Uncategorized" look for their display names among the uids, so they are the two nodes that
  are not found at their own rows (`RowIffNamed`, `NodeHasRow`, `AllHasNoRow`).
- A category that is removed while a torrent with it is loading makes the assertion in torrentAdded fail
  (`LoadLegalIff`, `RemovedWhileLoading`).
- Tags a torrent is added or restored with are not checked against the session's
  (`src/webui/api/torrentscontroller.cpp:614`, `src/base/bittorrent/session.cpp:2065` and `4223-4231`).
  A torrent whose tags are all unlisted is counted as untagged for good (`AddedDrift`,
  `UnlistedTagsStick`). A tag that is listed later starts at 0 (`ListedDrift`), and when the torrents that
  carried it then go, or lose it, the assertion in decreaseTorrentsCount fires (`NeverFiresIff`,
  `AssertionFires`). A tag of one or two spaces is taken for a special row (`SpecialDrifts`).
- Messages that arrive before the application runs are appended to one parameter list, so the options
  of one are applied to the torrents of the next (`QueuedTogether`, `QueueLeaksOptions`).
- `"%%N"` is not an escaped placeholder: the name is put in behind a '%'. What the extra decrement of the
  index avoids is only that inserted text is read as the specifier of the '%' before it
  (`PairsAgreeIff`, `PairsDiffer`).
- getMessages returns nothing, instead of everything, when the id difference overflows an int and wraps
  around (`GetNewer`). In C++ that overflow is undefined; wrapping around, at each of the two
  subtractions, is the model's choice. Under it the answer is right for every id whose final difference
  fits an int, the one whose first difference is 2^31 included.
- Path validator: the search for the cursor's component goes one past it, unless that is the last one
  (`SearchGoesOnePast`), and the component before the one it stops at is tested even when it is empty.
  In a rooted path with a single name that is the empty path, for every cursor behind the root
  (`CursorMatters`, `RootedCursor`, `RootedPathRejected`).
- Log rotation: deleting some old backups frees low numbers, which the next rotation takes, so the
  numbers are no longer in order of age (`RotationOnTopIff`, `DeleteThenRotateKeepsAgeOrderIff`,
  `GapIsReused`).

## Model

| member | source | states |
|---|---|---|
| TransactionalSettings.SettingsFiles.SyncNew | src/base/settingsstorage.cpp:306-329 | a successful serialize leaves in the `_new` file the keys found there overlaid with the data, a failed one changes nothing; the disk state is recorded as a crash point |
| TransactionalSettings.SettingsFiles.RenameNewToFinal | src/base/settingsstorage.cpp:283-283 | the rename succeeds exactly when the environment lets it, there is a `_new` file, and the final one is gone |
| TransactionalSettings.SettingsFiles.Write | src/base/settingsstorage.cpp:264-284 | the sequence of disk states a write goes through, its end state, and exactly when it returns true |
| TransactionalSettings.SettingsFiles.Read | src/base/settingsstorage.cpp:234-262 | read() returns what the disk recovers (the `_new` keys if there are any, else the final file's), whatever its file operations do, and the disk states it goes through |
| TransactionalSettings.WriteIsAtomic | src/base/settingsstorage.cpp:264-284 | cut off after any step, a write with something to commit leaves a disk that recovers either the committed data or, when sync failed, exactly what it recovered before |
| TransactionalSettings.WriteSucceedsIff | src/base/settingsstorage.cpp:264-284 | a write returns true if and only if the sync succeeds, the final file is gone or can be removed, the rename is let, and there is something to rename: data, or a leftover `_new` file |
| TransactionalSettings.EmptyWriteFails | src/base/settingsstorage.cpp:264-284 | without a `_new` file a write with nothing to commit never returns true, although its remove step takes effect: the disk then recovers the empty data it was given; each step leaves what is recovered alone if and only if the sync or the remove fails, or there was nothing |
| TransactionalSettings.WriteSuccess | src/base/settingsstorage.cpp:264-284 | a successful write leaves no `_new` file and exactly the committed data, which is the data given if and only if no leftover `_new` file held a key the data does not have |
| TransactionalSettings.ReadKeepsRec | src/base/settingsstorage.cpp:234-262 | recovery, cut off after any step, does not change what the next reader recovers |
| TransactionalSettings.ReadIdempotent | src/base/settingsstorage.cpp:234-262 | a second read returns what the first one did |
| SettingsKeys.MapKeyIdempotent | src/base/settingsstorage.cpp:68-150 | over the whole table of 74 aliases, mapping twice is mapping once |
| SettingsKeys.AliasMapped | src/base/settingsstorage.cpp:68-150 | every name of the table maps to the legacy name beside it: group prefix and name to legacy prefix and legacy name, whichever group is looked up first |
| SettingsKeys.OthersKept | src/base/settingsstorage.cpp:149-149 | a name that is not in the table maps to itself |
| SettingsKeys.OneGroup | src/base/settingsstorage.cpp:71-147 | a name is in one group only, so the order of the lookups does not matter |
| SettingsKeys.AliasesApart | src/base/settingsstorage.cpp:71-147 | no two aliases share a cell |
| SettingsKeys.LegacyIsNoAlias | src/base/settingsstorage.cpp:71-147 | a legacy name is never itself an alias |
| SettingsKeys.SameCellIff | src/base/settingsstorage.cpp:68-150 | two names denote one cell if and only if they are the same or one is the other's legacy name |
| SettingsKeys.PortIsAliased | src/base/settingsstorage.cpp:88-88 | "BitTorrent/Session/Port" is kept as "Preferences/Connection/PortRangeMin" |
| SettingsStorage.SettingsStorage.constructor | src/base/settingsstorage.cpp:155-161 | a new storage holds what the disk recovers, is clean, and has no timer running |
| SettingsStorage.SettingsStorage.Save | src/base/settingsstorage.cpp:185-200 | a clean storage is not written; otherwise true is returned exactly when the write succeeded, dirty is cleared only then, and a failure arms the retry timer |
| SettingsStorage.LoadGivesLastStored | src/base/settingsstorage.cpp:202-232 | over any run of stores and removals under whichever names, a load gives what was last stored under the name, its alias or its legacy name, nothing if that was removed since, and the old value if it was never touched |
| SettingsStorage.SettingsStorage.StoreValue | src/base/settingsstorage.cpp:209-221 | an unequal or missing value is stored, marks the storage dirty and arms the timer; an equal one changes nothing |
| SettingsStorage.SettingsStorage.RemoveValue | src/base/settingsstorage.cpp:223-232 | removing a present key marks the storage dirty and arms the timer; an absent one changes nothing |
| SettingsStorage.StoreThenLoad | src/base/settingsstorage.cpp:202-221 | a stored value is read back under the name used, its alias and its legacy name, and under no other key |
| SettingsStorage.AliasCell | src/base/settingsstorage.cpp:202-232 | loading, storing and removing under an alias read, write and remove the cell of its legacy name, and that cell only |
| SettingsStorage.OwnCell | src/base/settingsstorage.cpp:202-232 | under any other name they concern the cell of that name, and that cell only |
| SettingsStorage.OthersUndisturbed | src/base/settingsstorage.cpp:202-232 | storing or removing under one name leaves what another one loads, unless one of the two is the other's legacy name |
| SettingsStorage.AliasesUndisturbed | src/base/settingsstorage.cpp:202-232 | storing or removing under one alias leaves what every other alias loads |
| SettingsMachine.StepKeepsInv | src/base/settingsstorage.cpp:185-284 | every step of every interleaving, crashes and failing file operations included, keeps: one writer at a time, a writer's `_new` file complete, a retry coming while dirty, a clean memory on disk, and each pending call's view of earlier stores |
| SettingsMachine.RunKeepsInv | src/base/settingsstorage.cpp:185-284 | the invariant holds after every run |
| SettingsMachine.ReachableMemory | src/base/settingsstorage.cpp:185-232 | from any disk, in every reachable state: dirty implies an armed timer or a pending call of the timer (an armed timer when no call is pending); not dirty implies that all of m_data is recoverable from disk, and equals what is recovered if and only if the sync behind the process's last successful write, if any, found no `_new` key outside m_data |
| SettingsMachine.DirtyAndTimer | src/base/settingsstorage.cpp:185-232 | the memory gets dirty by a change only and clean by a successful write only; the timer is armed by a change and by a failed write, and is off once it has fired |
| SettingsMachine.EveryCallReturns | src/base/settingsstorage.cpp:185-200 | no deadlock: from every reachable state every pending save() can be led to its return in at most eight steps without a crash, whatever its file operations do, and only the call that held the lock returns with it |
| SettingsMachine.HolderReturns | src/base/settingsstorage.cpp:264-284 | the call that holds the lock can always go on to its end, in at most three steps |
| SettingsMachine.StaleIsWhatSyncFound | src/base/settingsstorage.cpp:264-284 | the bookkeeping behind that condition: after a write that succeeds, whatever other threads do between its steps, it says whether the `_new` file held a key outside m_data at the write's sync |
| SettingsMachine.RemovedKeySaved | src/base/settingsstorage.cpp:264-284 | a legal run: store a key, save with a failing rename, remove the key, save successfully; the process is clean and empty, and the key is in the final file |
| SettingsMachine.RemovedKeyReturns | src/base/settingsstorage.cpp:234-262 | after that run memory and disk differ, and a crash and restart load the removed key again |
| SettingsMachine.TrueSaveIsOnDisk | src/base/settingsstorage.cpp:185-200 | at the step that makes a save() call return true, by either check or by a write, everything in m_data at the call and untouched since is on disk |
| SettingsMachine.TouchedCovers | src/base/settingsstorage.cpp:185-232 | the bookkeeping behind that statement: the snapshot is m_data at the call, and the touched keys are exactly those stored or removed since, up to aliasing |
| SettingsMachine.TrueSaveCoversEarlierStores | src/base/settingsstorage.cpp:185-232 | the same over whole runs from any disk, without bookkeeping: what was stored before the call and not stored or removed again before it returned true is recoverable from disk |
| SettingsMachine.RecStep | src/base/settingsstorage.cpp:234-329 | the recoverable settings change only when a serialize completes with something in `_new`, in one step, to the data laid over what `_new` held, or, when that is nothing, at the remove step, to the empty data |
| SettingsMachine.RecIsLastCommit | src/base/settingsstorage.cpp:234-329 | over every legal run, with failed and empty saves, crashes between any two file operations and interrupted recoveries, the disk recovers the last committed data, or the original data when nothing was committed |
| SettingsMachine.EmptyCommitIsMemory | src/base/settingsstorage.cpp:264-284 | an empty commit happens only when the memory is empty: it is what the write was given |
| SettingsMachine.EmptiedNeverSaved | src/base/settingsstorage.cpp:185-200 | once the memory is emptied and no `_new` file is there, whatever happens until something is stored or the process ends, no save() returns true and the memory stays dirty, so the retry timer keeps firing for nothing |
| SettingsMachine.EmptiedReached | src/base/settingsstorage.cpp:185-232 | a legal run that gets there: store a key, save it, remove it; a save then removes the final file, which is what was asked for, and fails |
| SettingsMachine.RecoveryLoadsRec | src/base/settingsstorage.cpp:155-161 | when recovery hands over to the running process, memory is exactly what the disk recovers |
| SettingsMachine.SavedSurvivesRestart | src/base/settingsstorage.cpp:185-262 | what a true save() covered is still recoverable after any further crashes and recoveries without another commit |
| SettingsMachine.UninterruptedSave | src/base/settingsstorage.cpp:185-200 | the split save() of the machine, run without interruption, has exactly the effect of the sequential one |
| SettingsMachine.UninterruptedRecovery | src/base/settingsstorage.cpp:155-161 | the split recovery, run without interruption, has exactly the effect of the constructor |
| CachedSetting.CachedSettingValue.constructor | src/base/settingvalue.h:71-84 | a new cache holds the proxy function of the stored value, if its cell is there and its text converts, and of the default if not |
| CachedSetting.CachedSettingValue.Assign | src/base/settingvalue.h:96-104 | an equal assignment stores nothing, another one stores under the canonical key; afterwards the cache is what a rebuild would give if and only if the value was cached already or is a fixed point of the proxy function |
| CachedSetting.UseAll | src/base/settingvalue.h:66-108 | with one cached value per canonical key, any run of fixed-point assignments to them, stores and removals of other keys, which includes other types' settings, and saves that fail or not, keeps every cache equal to what a rebuild would give |
| CachedSetting.RestartLoads | src/base/settingsstorage.cpp:155-262 | over whole runs: once the process is clean, whatever crashes and recoveries follow without another commit, the next process loads what the clean one's disk held, which covers its memory and equals it if and only if the last successful write found no key outside it in a leftover `_new` file |
| CachedSetting.RestartReadsSame | src/base/settingvalue.h:66-108 | so a cache rebuilt after the restart has the value it had before if and only if its key was in memory, or is not on disk, or what a leftover `_new` file brought back of it converts to the default |
| CategoryPaths.ExpandCategory | src/base/bittorrent/session.cpp:682-697 | the index loop yields the prefixes that end before a '/', shortest first, then the name; nothing for an invalid name |
| CategoryPaths.ExpandStep | src/base/bittorrent/session.cpp:682-697 | each prefix denotes the child, named by its short name, of the prefix before it |
| CategoryPaths.ExpandCoversAncestors | src/base/bittorrent/session.cpp:682-697 | the prefixes of a name denote exactly its node and that node's ancestors below the root |
| CategoryPaths.ExpandMembers | src/base/bittorrent/session.cpp:682-697 | the prefixes of a name are the name and exactly those texts that the name continues with a slash |
| CategoryPaths.FullNameOfPathOf | src/gui/categoryfiltermodel.cpp:74-80 | the full name of the node a name denotes is the name |
| CategoryPaths.PathOfFullName | src/gui/categoryfiltermodel.cpp:74-80 | a node whose uids are proper components has a valid full name, and that name denotes the node |
| CategoryPaths.ValidNameCleanPath | src/base/bittorrent/session.cpp:670-680 | a valid name denotes a path of non-empty components without slash or backslash |
| CategoryPaths.ValidIff | src/base/bittorrent/session.cpp:670-680 | a name is valid if and only if splitting it at the slashes gives non-empty components without backslash |
| CategoryTree.CategoryModelItem.constructor | src/gui/categoryfiltermodel.cpp:48-55 | a node without parent has its name and count and no children in either index |
| CategoryTree.CategoryModelItem.NewChild | src/gui/categoryfiltermodel.cpp:48-55 | the constructor with a parent attaches the node under its name as the last row, and only the direct parent's count grows, by the new node's |
| CategoryTree.CategoryModelItem.AddChild | src/gui/categoryfiltermodel.cpp:136-146 | both child indexes and the parent link take the item in, the forest stays well linked, and no count but this node's changes |
| CategoryTree.CategoryModelItem.IncreaseTorrentsCount | src/gui/categoryfiltermodel.cpp:92-97 | exactly the node and all its ancestors go up by one |
| CategoryTree.CategoryModelItem.DecreaseTorrentsCount | src/gui/categoryfiltermodel.cpp:99-104 | exactly the node and all its ancestors go down by one |
| CategoryTree.CategoryModelItem.Clear | src/gui/categoryfiltermodel.cpp:148-154 | in whatever order the children are deleted, although each unlinks itself, exactly the strict descendants are gone, both indexes are empty, and the count is the node's less what each child had left |
| CategoryTree.CategoryModelItem.LeaveParent | src/gui/categoryfiltermodel.cpp:60-66 | the unlinking half of the destructor: the node leaves both indexes of its parent, the siblings before and behind it close up in their order, and the parent's count drops by the node's |
| Collections.RemoveOneOrder | src/gui/categoryfiltermodel.cpp:65-65 | removeOne takes out the first occurrence, and what stands before it and behind it closes up in order |
| Collections.RemoveOneIsAt | src/base/filesystemwatcher.cpp:96-107 | so removeOne cuts at the first index of the element, and changes nothing when there is none |
| CategoryTree.CategoryModelItem.Destroy | src/gui/categoryfiltermodel.cpp:57-67 | deleting a node terminates and removes exactly its subtree, leaves the forest well linked and every other node unchanged, except that the direct parent loses the uid from both indexes, its other children closing up in their order, and the count that was left after the children were removed |
| CategoryTree.ResidueLocal | src/gui/categoryfiltermodel.cpp:57-67 | what deleting a node takes from its parent depends on the counts in its subtree only |
| CategoryTree.ParentLinksReachRoot | src/gui/categoryfiltermodel.cpp:136-146 | parent links are acyclic: from every node they reach the root after exactly its depth, without meeting the node again |
| CategoryTree.RowRoundTrip | src/gui/categoryfiltermodel.cpp:106-134 | for a node whose uid is its name, pos() is a row of its parent, childAt of it is the node, and no other row is |
| CategoryTree.RowIffNamed | src/gui/categoryfiltermodel.cpp:106-134 | a node is found again at its own row if and only if its uid is its name |
| CategoryTree.FullNameIsPathName | src/gui/categoryfiltermodel.cpp:74-80 | the recursive fullName() is the uids below the root joined by '/' |
| CategoryTree.AncestorsPresent | src/gui/categoryfiltermodel.cpp:136-146 | every ancestor of a node of the tree is in the tree |
| CategoryTree.ChildIsAt | src/gui/categoryfiltermodel.cpp:113-126 | a node has a child of a given uid exactly when the tree has a node there, and it is that node |
| CategoryCounts.UnderChanged | src/gui/categoryfiltermodel.cpp:357-382 | how the number of torrents in a subtree moves when a torrent changes its category |
| CategoryCounts.DriftsAdded | src/gui/categoryfiltermodel.cpp:339-346 | counting a torrent at its category's node, its ancestors and "All" moves every shown count as its true total moves |
| CategoryCounts.DriftsRemoved | src/gui/categoryfiltermodel.cpp:348-355 | the same for a torrent that is about to go |
| CategoryCounts.DriftsChanged | src/gui/categoryfiltermodel.cpp:357-382 | the same for a torrent that changes its category |
| CategoryCounts.DriftsCategoryAdded | src/gui/categoryfiltermodel.cpp:309-325 | a new node for a category without torrents is right, and no other node is affected |
| CategoryCounts.DriftsCategoryRemoved | src/gui/categoryfiltermodel.cpp:327-337 | removing a subtree moves only its parent's distance from the true count, by what was left of the removed node's count; in an exact tree, with no torrent in the subtree, that is nothing and the tree stays exact |
| CategoryCounts.RemovalMovesParent | src/gui/categoryfiltermodel.cpp:60-66 | in particular a wrong count of a childless node goes back into its parent's when the node is removed |
| CategoryCounts.ResidueOfDrifts | src/gui/categoryfiltermodel.cpp:57-67 | what is left of a removed node without torrents is what is left of its subtree's distances from the true counts |
| CategoryCounts.ZeroAfter | src/gui/categoryfiltermodel.cpp:309-382 | over whole runs of the law, no distance arises where there was none |
| CategoryCounts.CountedGrows | src/gui/categoryfiltermodel.cpp:421-432 | adding a missing node keeps every count at its own torrents plus those of its present children |
| CategoryCounts.PopulateCountExact | src/gui/categoryfiltermodel.cpp:391-442 | a node's count after populate() equals its subtree total if and only if no torrent's category lies two or more levels below it |
| CategoryCounts.PopulateMissesGrandchildren | src/gui/categoryfiltermodel.cpp:391-442 | a torrent in "a/b/c" is missing from the count "a" starts with |
| CategoryCounts.FiledStays | src/gui/categoryfiltermodel.cpp:309-382 | after every legal event each torrent's category still has a node |
| CategoryFilter.CategoryFilterModel.constructor | src/gui/categoryfiltermodel.cpp:175-190 | a new model is populated |
| CategoryFilter.CategoryFilterModel.FindItem | src/gui/categoryfiltermodel.cpp:444-461 | the empty name gives "Uncategorized", another its category's node if the tree has it and null otherwise; an invalid name gives the root in nested mode |
| CategoryFilter.CategoryFilterModel.FindParent | src/gui/categoryfiltermodel.cpp:309-319 | the node a new category goes under is its prefix's, or the root |
| CategoryFilter.CategoryFilterModel.FindKnown | src/gui/categoryfiltermodel.cpp:339-382 | the assertions of the torrent slots hold: the node of a torrent's category exists |
| CategoryFilter.CategoryFilterModel.CategoryAdded | src/gui/categoryfiltermodel.cpp:309-325 | the tree gains exactly the category's node as its parent's last row; no node's distance from its true count changes |
| CategoryFilter.CategoryFilterModel.CategoryRemoved | src/gui/categoryfiltermodel.cpp:327-337 | exactly the category's subtree goes, siblings keep their order, an absent category changes nothing; only the parent's distance from its true count moves, by the residue, and an exact tree stays exact |
| CategoryFilter.CategoryFilterModel.RemoveNode | src/gui/categoryfiltermodel.cpp:327-337 | deleting a category's node keeps the shape of the tree: special items first, the siblings in their order, every node named and placed as its mode demands |
| CategoryFilter.CategoryFilterModel.TorrentAdded | src/gui/categoryfiltermodel.cpp:339-346 | no node's distance from its true count changes: category nodes against their subtree, "All" against the total, "Uncategorized" against the torrents without category |
| CategoryFilter.CategoryFilterModel.TorrentAboutToBeRemoved | src/gui/categoryfiltermodel.cpp:348-355 | the same for a torrent that is about to go |
| CategoryFilter.CategoryFilterModel.TorrentCategoryChanged | src/gui/categoryfiltermodel.cpp:357-382 | the same for a change of category |
| CategoryFilter.CategoryFilterModel.Populate | src/gui/categoryfiltermodel.cpp:391-442 | whatever the order of the categories, the tree has exactly one node per category prefix (per category in flat mode) besides the special ones, and each category node counts its own torrents and those one level below |
| CategoryFilter.CategoryFilterModel.PopulateCategory | src/gui/categoryfiltermodel.cpp:415-441 | one turn of the loop adds exactly the nodes its category still lacks |
| CategoryFilter.CategoryFilterModel.ChildFor | src/gui/categoryfiltermodel.cpp:421-432 | the node for the next prefix is found, or added with its own torrents' count |
| CategoryFilter.CategoryFilterModel.PopulatePrefixes | src/gui/categoryfiltermodel.cpp:420-433 | the inner loop leaves a node for the category and adds none but for its prefixes |
| CategoryFilter.CategoryFilterModel.PopulateSpecial | src/gui/categoryfiltermodel.cpp:393-412 | after clear() the tree is the root with "All" and "Uncategorized" in front, by name and uid, counting all torrents and those without category |
| CategoryFilter.CategoryFilterModel.NameFindsNode | src/gui/categoryfiltermodel.cpp:444-461 | the full name of every category node leads findItem back to that node, in both modes |
| CategoryFilter.CategoryFilterModel.NodeHasName | src/gui/categoryfiltermodel.cpp:74-80 | the node of every present category has that category as its full name |
| CategoryFilter.CategoryFilterModel.NodeHasRow | src/gui/categoryfiltermodel.cpp:302-307 | in every tree the model can be in, a node below the root is found again at its own row if and only if it is not "All" or "Uncategorized" |
| CategoryFilter.CategoryFilterModel.AllHasNoRow | src/gui/categoryfiltermodel.cpp:106-111 | in every tree the model can be in, "All" is row 0 of the root, but its own row number is that of the category named "All", and -1 without one |
| CategoryFilter.CategoryFilterModel.HandleEvent | src/gui/categoryfiltermodel.cpp:309-382 | each legal session event changes the set of nodes as it should and moves the drifts as the law of drifts says, so an exact tree stays exact |
| CategoryFilter.CategoryFilterModel.Replay | src/gui/categoryfiltermodel.cpp:309-382 | over every legal sequence of session events, at any depth and in both modes, from whatever counts: how far each node is from its true count depends on the category events only, and exact counts stay exact |
| CategorySession.SubcategoryAbove | src/base/bittorrent/torrentimpl.cpp:675-686 | the text test "is this name or starts with it and a '/'" is the ancestor relation of the tree |
| CategorySession.UncategorizeIs | src/base/bittorrent/torrentimpl.cpp:675-686 | in every sound session, belongsToCategory() holds of a torrent with a category exactly when that is the given one or, in nested mode, continues it with a slash |
| CategorySession.CollidesIff | src/gui/categoryfiltermodel.cpp:399-412 | a name is filed at or below "Uncategorized" if and only if it is the one character U+0001 or, in nested mode, starts with it and a '/' |
| CategorySession.NodeTakenIff | src/gui/categoryfiltermodel.cpp:136-146 | the assertion that a new node's uid is not taken fails for a valid name if and only if the category is there already or is named U+0001 |
| CategorySession.UncategorizedExactIff | src/gui/categoryfiltermodel.cpp:444-461 | what is filed at or below "Uncategorized" is the torrents without category if and only if no torrent's category collides |
| CategorySession.ExpandCategories | src/base/bittorrent/session.cpp:199-215 | the result is exactly the set of all prefixes of the categories |
| CategorySession.PrefixesSound | src/base/bittorrent/session.cpp:199-215 | that set is closed under prefixes and holds valid names only, and none collides with "Uncategorized" unless one of the categories does |
| CategorySession.NewCategory | src/base/bittorrent/session.cpp:719-742 | when a category is announced, its node is new, its parent's is there, and no torrent is filed at or below it |
| CategorySession.Session.constructor | src/base/bittorrent/session.cpp:478-484 | a new session holds the stored categories, in nested mode with all their prefixes |
| CategorySession.Session.AddCategory | src/base/bittorrent/session.cpp:719-742 | a new valid name joins with its missing prefixes, anything else changes nothing; unless a name collides with "Uncategorized" the signals are legal for the model and leave it exactly the new categories' nodes |
| CategorySession.Session.AddParents | src/base/bittorrent/session.cpp:725-736 | the loop adds and announces the missing prefixes, shortest first |
| CategorySession.Session.SetCategory | src/base/bittorrent/torrentimpl.cpp:1313-1334 | an unknown category is refused, an unchanged one emits nothing, another is announced with the old one |
| CategorySession.Session.RemoveCategory | src/base/bittorrent/session.cpp:767-801 | exactly the category and, in nested mode, its subcategories go, and exactly their torrents lose their category; whatever the iteration order, and unless a name collides, the signals are legal and leave the model exactly the other categories' nodes |
| CategorySession.Session.ClearCategory | src/base/bittorrent/session.cpp:769-771 | in any order, exactly the torrents of the category or one below it lose theirs |
| CategorySession.Session.DropSubcategories | src/base/bittorrent/session.cpp:774-790 | in any order, exactly the subcategories go and are announced, and no node outside the category's subtree is lost |
| CategorySession.Session.StartLoading | src/base/bittorrent/session.cpp:2082-2115 | a torrent that is neither there nor loading starts loading with its category, which is added first when it is unknown, or without one when the name is invalid |
| CategorySession.Session.FinishLoading | src/base/bittorrent/session.cpp:4585-4638 | the loaded torrent has the category chosen for it; its signal is a legal one, and the session sound again, if and only if that category is still there |
| CategorySession.LoadLegalIff | src/gui/categoryfiltermodel.cpp:339-342 | the assertion that a loaded torrent's category has a node holds if and only if the category is empty or still a category |
| CategorySession.RemovedWhileLoading | src/base/bittorrent/session.cpp:767-801 | removing a category while a torrent with it is loading leads to a signal for which that assertion fails |
| CategorySession.Session.DeleteTorrent | src/base/bittorrent/session.cpp:1809-1815 | a known torrent goes and is announced with its category |
| CategorySession.Session.Apply | src/base/bittorrent/session.cpp:719-801 | any operation takes categories, torrents and loading torrents to the state that is written out for it, and, unless a name collides, its signals are legal and lead there too |
| CategorySession.RunConcat | src/gui/categoryfiltermodel.cpp:309-382 | runs of signals compose: legality, nodes and torrents |
| CategorySession.Drive | src/gui/categoryfiltermodel.cpp:309-382 | whatever sequence of operations the session is put through, as long as no name collides, its state is what the operations mean one after another, and a model fed with its signals keeps exactly one node per category; how far its counts are from the subtree totals depends on the category signals only, and a model in step stays in step, up to the first torrent that is loaded with a category that is gone |
| CategorySession.FreshModelInStep | src/gui/categoryfiltermodel.cpp:391-442 | when no name collides, a model just populated from the session has that property if and only if no torrent's category lies more than two levels deep |
| TagFilter.SpecialTagsInvalid | src/gui/tagfiltermodel.cpp:43-55 | the assertions on the special tags hold: neither is a valid tag |
| TagFilter.ValidTagIff | src/base/bittorrent/session.cpp:834-837 | a tag is valid if and only if it has a character that is no space and no comma |
| TagFilter.AddedDrift | src/gui/tagfiltermodel.cpp:235-245 | on any rows, for any tags: an added torrent moves no tag row's distance from its true count; "All" goes off for a tag taken for it, "Untagged" for a tag taken for it and for tags of which none has a row |
| TagFilter.RemovedDrift | src/gui/tagfiltermodel.cpp:247-256 | a removed torrent moves no distance but those of the special rows its tags are taken for |
| TagFilter.LostDrift | src/gui/tagfiltermodel.cpp:220-233 | a lost tag moves none but that of the special row it is taken for, with or without a row of its own |
| TagFilter.GainedDrift | src/gui/tagfiltermodel.cpp:206-218 | a gained tag with a row moves none |
| TagFilter.ListedDrift | src/gui/tagfiltermodel.cpp:190-196 | a new row starts as far below its true count as torrents carry the tag already, and moves no other row's distance |
| TagFilter.UnlistedDrift | src/gui/tagfiltermodel.cpp:198-204 | a removed row leaves the others' distances |
| TagFilter.StaysExactIff | src/gui/tagfiltermodel.cpp:190-256 | exact rows stay exact through an event if and only if it is safe: no torrent has a newly listed tag, a torrent comes with no tag, or with a listed one and none taken for a special row, and no tag taken for a special row goes |
| TagFilter.SpecialDrifts | src/gui/tagfiltermodel.cpp:190-256 | over every legal run, the closed form: "All" and "Untagged" are off by the change in the number of torrents with a tag taken for them, "Untagged" also by the number of torrents that came with all tags unlisted |
| TagFilter.TagDrifts | src/gui/tagfiltermodel.cpp:190-256 | over every legal run: a tag's row is off as at the start, or, when it was listed since, by minus the number of torrents that had the tag when it was last listed |
| TagFilter.ExactThroughoutIff | src/gui/tagfiltermodel.cpp:190-256 | over every legal run exact rows are exact after every event if and only if every event is safe |
| TagFilter.RemovalAssertedIff | src/gui/tagfiltermodel.cpp:247-256 | on any rows the assertion in decreaseTorrentsCount holds while a torrent is removed if and only if "All", "Untagged" where it counts, and every row of its tags show enough |
| TagFilter.LossAssertedIff | src/gui/tagfiltermodel.cpp:220-233 | the same while a torrent loses a tag |
| TagFilter.ShownAfter | src/gui/tagfiltermodel.cpp:190-256 | what every row shows after a legal run from exact rows, told from the torrents and the events alone |
| TagFilter.NeverFiresIff | src/gui/tagfiltermodel.cpp:82-86 | over every legal run from exact rows the assertion never fires if and only if at every event each row it decreases shows enough by that account: for a listed tag, more torrents carry it than did when it was last listed |
| TagFilter.SafeRunNeverFires | src/gui/tagfiltermodel.cpp:82-86 | in particular it never fires over a run of safe events |
| TagFilter.AssertionFires | src/gui/tagfiltermodel.cpp:190-256 | from any exact rows: a torrent comes with a valid tag that is not listed, the tag is listed, the torrent goes, and the assertion fires, although that last event is a safe one |
| TagFilter.UnlistedTagsStick | src/gui/tagfiltermodel.cpp:235-256 | a torrent with tags of which none has a row comes and goes, and "Untagged" stays one higher than it was |
| TagFilter.CountedPositive | src/gui/tagfiltermodel.cpp:82-86 | on exact rows "All", every row of a present torrent's tags and, for one without tags, "Untagged" is positive |
| TagFilter.TagFilterModel.constructor | src/gui/tagfiltermodel.cpp:93-106 | a new model is populated |
| TagFilter.TagFilterModel.Populate | src/gui/tagfiltermodel.cpp:267-287 | the two special rows, then one row per tag in the session's order, each equal to a recount, whatever tags the torrents carry |
| TagFilter.TagFilterModel.FindRow | src/gui/tagfiltermodel.cpp:300-308 | a row of that tag, or -1 when there is none |
| TagFilter.TagFilterModel.FindItems | src/gui/tagfiltermodel.cpp:318-331 | exactly the rows of the given tags that are in the model, each once |
| TagFilter.TagFilterModel.TagAdded | src/gui/tagfiltermodel.cpp:190-196 | on any rows: a new last row showing 0 |
| TagFilter.TagFilterModel.TagRemoved | src/gui/tagfiltermodel.cpp:198-204 | on any rows: exactly the tag's row goes |
| TagFilter.TagFilterModel.TorrentTagAdded | src/gui/tagfiltermodel.cpp:206-218 | on any rows, for a listed tag: its row goes up, and "Untagged" down when it is the first one |
| TagFilter.TagFilterModel.TorrentTagRemoved | src/gui/tagfiltermodel.cpp:220-233 | on any rows: "Untagged" goes up when it was the last tag, and the tag's row down; a tag without a row is passed over |
| TagFilter.TagFilterModel.TorrentAdded | src/gui/tagfiltermodel.cpp:235-245 | on any rows, for any tags: "All", the rows of the tags and, when there is none, "Untagged" go up |
| TagFilter.TagFilterModel.TorrentAboutToBeRemoved | src/gui/tagfiltermodel.cpp:247-256 | on any rows, for any tags: "All", the rows of the tags and, for a torrent without tags, "Untagged" go down |
| TagFilter.TagFilterModel.HandleEvent | src/gui/tagfiltermodel.cpp:190-256 | on any rows each legal event at which the assertion holds leaves the rows the laws of drifts speak of, and lists exactly the tags it should |
| TagFilter.TagFilterModel.Replay | src/gui/tagfiltermodel.cpp:190-256 | the same over every legal run throughout which the assertion holds |
| InstanceMessages.ParamList | src/app/cmdoptions.cpp:363-397 | the options that are set, in their order, then the sources |
| InstanceMessages.OptionsPrinted | src/app/cmdoptions.cpp:374-393 | exactly which option texts are printed for which fields, letter by letter |
| InstanceMessages.ClassifiedIff | src/app/application.cpp:558-598 | a text is read as an option if and only if it is that option's text, with exactly what is printed behind it; so the order of the tests does not matter |
| InstanceMessages.SourceIff | src/app/application.cpp:558-612 | a text is a source, and then as it is, if and only if it starts with none of the four option prefixes and is none of the three option words |
| InstanceMessages.Meant | src/app/application.cpp:600-612 | what a message means: each torrent with the sender's fields, the dialog shown if and only if that is asked for, or nothing is said and the setting has it on |
| InstanceMessages.Application.ProcessParams | src/app/application.cpp:540-613 | an empty list only shows the window; otherwise each source is handed on with the settings of the options before it |
| InstanceMessages.Application.ProcessMessage | src/app/application.cpp:303-312 | a running application handles the non-empty parts of the message, another one queues them |
| InstanceMessages.Application.Exec | src/app/application.cpp:680-691 | its own parameters, then the queued ones, are handed on as one list, and the queue is empty afterwards |
| InstanceMessages.MessageSplit | src/app/application.cpp:303-312 | joined with the separator and split again, options and sources come out as they went in, empty sources excepted |
| InstanceMessages.OptionsParsed | src/app/application.cpp:558-598 | each printed option is recognized as itself, with the text that was printed |
| InstanceMessages.OptionsApplied | src/app/application.cpp:558-598 | the printed options set exactly the sender's settings and hand nothing on |
| InstanceMessages.ReceivedSources | src/app/application.cpp:531-613 | a message with clean fields hands on exactly its non-empty sources in order, each with the sender's save path, paused, skip-checking, category, sequential, first/last and dialog settings |
| InstanceMessages.LosslessIff | src/app/application.cpp:531-613 | a message arrives exactly as meant if and only if, with torrents, no field contains the separator, save path and category end without a space, and the sources are non-empty, trimmed and not option strings; and, without torrents, nothing that reads as a source follows a separator in the save path or the category |
| InstanceMessages.NothingReceivedIff | src/app/application.cpp:531-613 | a message without torrents hands on nothing if and only if neither text spills such a part |
| InstanceMessages.QueuedTogether | src/app/application.cpp:685-690 | two queued messages are handled as separately if and only if the second has no source, or each setting is left at its default by the last option for it in the first or is set by the second before its first source |
| InstanceMessages.HandedOnAlikeIff | src/app/application.cpp:552-612 | from any two settings a list is handed on alike if and only if it has no source, or sets everything they disagree on before its first one |
| InstanceMessages.LeavesDefaultIff | src/app/application.cpp:558-598 | whether a setting is at its default after a list can be read off the last option for it |
| InstanceMessages.SourcesLeaveNothing | src/app/application.cpp:685-690 | a queued message of sources only leaves no settings behind |
| InstanceMessages.QueueLeaksOptions | src/app/application.cpp:685-690 | two queued messages, the first with "@skipChecking", are not handled as separately |
| InstanceMessages.LeakExample | src/app/application.cpp:570-574 | such messages exist: they are read as an option and a source, and as a source |
| Strings.JoinOfSplit | src/app/application.cpp:303-312 | joining what split gave restores the text |
| Strings.SplitOfJoin | src/app/application.cpp:531-534 | splitting a join of separator-free parts restores the parts, empty ones included |
| Strings.SplitAt | src/app/application.cpp:303-312 | splitting at any separator splits both sides |
| Strings.TrimmedIs | src/app/application.cpp:553-556 | trimming cuts off spaces only, at both ends, and leaves none there |
| ExternalProgram.SubstitutePlaceholders | src/app/application.cpp:325-388 | the in-place right-to-left loop ends, reads only inside the text even when a replacement is empty, never looks at inserted text, and gives the pure expansion of the template |
| ExternalProgram.ReplaceStep | src/app/application.cpp:333-384 | replacing the rightmost placeholder not yet handled expands the template from there on |
| ExternalProgram.ExpandIsSimultaneous | src/app/application.cpp:325-388 | the expansion replaces all placeholders of the template at once, position by position |
| ExternalProgram.PlaceholderIff | src/app/application.cpp:333-384 | a placeholder is a '%' and one of the ten letters of the switch |
| ExternalProgram.ExpandLeftmost | src/app/application.cpp:325-388 | the leftmost '%' of a template becomes the text of its letter, or stays when the letter is none of them, and the rest is expanded; a template without '%' stays |
| ExternalProgram.PairsAgreeIff | src/app/application.cpp:325-388 | the expansion equals ordinary left-to-right single-pass substitution for all texts if and only if no run of '%' of even, positive length is directly followed by a specifier |
| ExternalProgram.PairsAgree | src/app/application.cpp:386-387 | in particular it does for templates without "%%" |
| ExternalProgram.PairsDiffer | src/app/application.cpp:386-387 | for "%%N" it does not |
| WrapText.Wrap | src/app/cmdoptions.cpp:512-532 | the lines are the words in order, only a single word may reach a line's limit, a line ends only where the next word would not have fitted, and stripping the indentation and rejoining with spaces gives the text back |
| WrapText.WrapDescription | src/app/cmdoptions.cpp:55-56 | with the default columns only a single word reaches column 49 of the first line or 80 of the others, and those start with 31 spaces |
| WrapText.TextRestored | src/app/cmdoptions.cpp:512-532 | every wrapping of that form loses nothing |
| WrapText.FewestLines | src/app/cmdoptions.cpp:518-529 | no wrapping of the same words within the same limits has fewer lines |
| Logger.LoadFromBuffer | src/base/logger.cpp:38-45 | the copy is the ring from the offset on |
| Logger.Logger.constructor | src/base/logger.cpp:50-54 | a new logger has empty rings and starts both counters at 0 |
| Logger.Logger.AddMessage | src/base/logger.cpp:73-81 | the next id is given, and the ring holds the last min(counter, 20000) messages with consecutive ids ending at counter - 1 |
| Logger.Logger.AddPeer | src/base/logger.cpp:83-91 | the same for peers, and messages are untouched |
| Logger.NewerIsSuffix | src/base/logger.cpp:97-106 | on consecutive ids, filtering by "id > k" is slicing by arithmetic |
| Logger.GetNewer | src/base/logger.cpp:93-107 | with its two subtractions wrapping around in a 32-bit int: the retained entries newer than k in order, unless the final difference does not fit, and then nothing; right if and only if it fits or nothing was ever added |
| Logger.Logger.GetMessages | src/base/logger.cpp:93-107 | the retained messages with an id above the given one, in order, and nothing when the id difference overflows |
| Logger.Logger.GetPeers | src/base/logger.cpp:109-123 | the retained peers with an id above the given one, in order, and nothing when the id difference overflows |
| Logger.NewerInHistory | src/base/logger.cpp:93-123 | those are the history from the first id on that is newer than the given one and among the last 20000 |
| Logger.PollGets | src/base/logger.cpp:93-107 | one poll hands over exactly the entries not yet seen that are still retained |
| Logger.PollingIsSound | src/base/logger.cpp:73-123 | whatever is added between polls, a client sees only entries of the history, in order and none twice |
| Logger.PollingIsComplete | src/base/logger.cpp:73-123 | a client that never lets more than 20000 additions pass between polls has received exactly the history up to its last poll |
| SavePathHistory.SavePathSettings.SetSavePathHistoryLength | src/gui/addnewtorrentdialog.cpp:193-203 | the clamped limit is stored and the history cut to it, and it stays duplicate-free and in order of recency |
| SavePathHistory.Bound | src/gui/addnewtorrentdialog.cpp:195-195 | a length from 0 to 99 is kept, any other becomes the nearer end |
| SavePathHistory.SavePathSettings.SaveSavePathHistory | src/gui/addnewtorrentdialog.cpp:366-384 | the selected directory moves or is put to the front, compared as directories, and the list is cut to the limit; it stays a prefix of the directories by recency |
| SavePathHistory.RecentFacts | src/gui/addnewtorrentdialog.cpp:366-384 | the order by recency holds every used directory once, later uses first |
| SavePathHistory.HistoryStep | src/gui/addnewtorrentdialog.cpp:366-384 | removeAt, push_front and mid on the path list are a move to the front on directories |
| SavePathHistory.ConstantLimit | src/gui/addnewtorrentdialog.cpp:366-384 | with a constant limit, cutting after every save is cutting once at the end |
| SavePathHistory.FromEmpty | src/gui/addnewtorrentdialog.cpp:366-384 | from an empty history, after any saves, the history is the first L entries of the de-duplicated reverse |
| PathValidator.ComponentsWithin | src/gui/fspathedit_p.cpp:110-110 | the components are the slices of the input between its separators, the last one ending at its end |
| PathValidator.FileSystemPathValidator.FindCursorComponent | src/gui/fspathedit_p.cpp:111-123 | the index is in range, and it is the first component all of whose predecessors end at or past the cursor, or the last one |
| PathValidator.OneComponent | src/gui/fspathedit_p.cpp:110-123 | every cursor position in the input belongs to exactly one component, its ends included |
| PathValidator.SearchGoesOnePast | src/gui/fspathedit_p.cpp:111-123 | the search stops at the component after the cursor's, or at the last; at the first only for a cursor at the very beginning |
| PathValidator.FileSystemPathValidator.Validate | src/gui/fspathedit_p.cpp:103-131 | Acceptable if and only if the file system grants what is asked of every non-empty component's prefix, the one just before the cursor component, and the whole input, spelled out; Invalid if and only if in strict mode one before the cursor component fails; otherwise the recorded path and result are those of the first failing prefix |
| PathValidator.FileSystemPathValidator.ValidateRange | src/gui/fspathedit_p.cpp:133-167 | a range is acceptable if and only if its tested components pass, and else the first failing one is recorded |
| PathValidator.TestPasses | src/gui/fspathedit_p.cpp:169-191 | a path passes if and only if it exists when it has to, is a directory when it is incomplete or directories are wanted, and, when complete, is of the right kind and has the permissions asked for |
| PathValidator.TestReports | src/gui/fspathedit_p.cpp:169-191 | each error result is given exactly for the defect it names, the earlier ones ruled out |
| PathValidator.AcceptedIff | src/gui/fspathedit_p.cpp:103-191 | acceptable, by what the file system says of each tested prefix of the input |
| PathValidator.CursorMatters | src/gui/fspathedit_p.cpp:103-131 | the cursor changes what is acceptable only through an empty component just before the cursor component, whose prefix then has to pass too |
| PathValidator.VerdictByFirstFailure | src/gui/fspathedit_p.cpp:103-131 | for a cursor not behind an empty component: acceptable when nothing fails; otherwise invalid, in strict mode, when the index its search stops at lies past the first failing component, and intermediate when it does not |
| PathValidator.CursorIrrelevant | src/gui/fspathedit_p.cpp:103-131 | two cursors not behind an empty component agree on what is acceptable; their verdicts are the same if and only if the mode is not strict or their indexes lie on the same side of the first failing component |
| PathValidator.RootedCursor | src/gui/fspathedit_p.cpp:111-123 | the component before the one the search stops at is the empty one before the root if and only if the cursor is behind the root of a path with a single name |
| PathValidator.RootedPathRejected | src/gui/fspathedit_p.cpp:103-165 | a rooted path with one name, when the empty path is no directory, is acceptable if and only if the cursor is at the very beginning and the other components pass |
| FileLogger.FirstFree | src/app/filelogger.cpp:152-160 | the search ends and gives the first free name in `.bak`, `.bak1`, `.bak2`, … |
| FileLogger.DecimalIs | src/app/filelogger.cpp:156-159 | the number behind `.bak` is written in digits, of the right value and without a leading zero |
| FileLogger.BackupNamesDiffer | src/app/filelogger.cpp:153-160 | the backup names are pairwise different, and none is the log file's |
| FileLogger.FileLogger.OpenLogFile | src/app/filelogger.cpp:176-184 | opening keeps an existing file and creates a missing one; the logger is open only when the permissions could be set too |
| FileLogger.FileLogger.AddLogMessage | src/app/filelogger.cpp:124-168 | a closed logger writes nothing; otherwise the line is appended, and a full file is moved to the first free backup name, overwriting none, before logging goes on in a new file |
| FileLogger.RotationKeepsLog | src/app/filelogger.cpp:150-163 | a rotation leaves backups and current file, read in order, the same |
| FileLogger.FileLogger.LogAll | src/app/filelogger.cpp:124-168 | over any run of messages, with renames and reopenings failing or not, the numbered backups followed by the current file are exactly the earlier log and the accepted lines in order |
| FileLogger.FileLogger.DeleteOld | src/app/filelogger.cpp:87-112 | on the oldest-first list, for any monotone ageing function, stopping early deletes exactly the backups whose aged date is not after now, as far as they can be removed |
| FileLogger.RotationOnTopIff | src/app/filelogger.cpp:152-162 | for all file sets: a rotation writes to a number above every existing backup if and only if the numbers have no gap |
| FileLogger.RotationKeepsAgeOrderIff | src/app/filelogger.cpp:152-162 | from numbers in the order of age a rotation keeps them so if and only if there is no gap |
| FileLogger.DeleteLeavesNoGapIff | src/app/filelogger.cpp:87-112 | from gapless numbers in the order of age, deletion leaves no gap if and only if the youngest backup is expired or the oldest is not |
| FileLogger.DeleteThenRotateKeepsAgeOrderIff | src/app/filelogger.cpp:87-162 | so deletion and a rotation keep the numbers in the order of age if and only if all backups were expired or none was |
| FileLogger.GapIsReused | src/app/filelogger.cpp:152-162 | once `.bak` was deleted before `.bak1`, the next rotation takes it and puts newer lines before older ones |
| Algorithm.RemoveIf | src/base/algorithm.h:47-55 | in some order every entry is shown to the stateful predicate exactly once, each with the state its predecessors left, and what stays is the fold of its answers along that order |
| Algorithm.KeptAt | src/base/algorithm.h:47-55 | entry by entry: one stays exactly when the predicate, in the state reached there, does not ask to erase it, and with the value it gave it |
| Algorithm.KeptStateless | src/base/algorithm.h:47-55 | when the answers do not depend on the state, what stays does not depend on the order |
| FileSystemWatcher.WalkPartitions | src/base/filesystemwatcher.cpp:120-144 | whatever the order of the walk, the announced paths are those that load and the rejected ones those out of retries, each once |
| FileSystemWatcher.FileSystemWatcher.ProcessPartialTorrents | src/base/filesystemwatcher.cpp:120-161 | one pass splits the entries into gone, announced, rejected and kept with one more retry; afterwards the timer is armed if and only if entries are left, and counters are in 0..5 |
| FileSystemWatcher.FileSystemWatcher.ProcessTorrentsInDir | src/base/filesystemwatcher.cpp:163-183 | exactly the magnet files and the torrents that load are announced, each at the position given by how many such files precede it; the others join the partial torrents; timer and counters stay as required |
| FileSystemWatcher.AnnouncedInOrder | src/base/filesystemwatcher.cpp:163-176 | the same of the announced list alone: as long as there are such files, each at its position among them |
| FileSystemWatcher.FileSystemWatcher.AddPath | src/base/filesystemwatcher.cpp:70-94 | an existing network folder is appended and the watch timer runs exactly while folders are watched; an existing local one goes to Qt's watcher and gets one delayed scan; any other path changes nothing |
| FileSystemWatcher.FileSystemWatcher.ScanDue | src/base/filesystemwatcher.cpp:109-112 | the delayed scan treats the folder's files as a rescan does, even when the folder was removed meanwhile |
| FileSystemWatcher.FileSystemWatcher.RemovePath | src/base/filesystemwatcher.cpp:96-107 | the first occurrence among the network folders goes, the others keep their order, and the watch timer stops with the last; otherwise the local folder goes |
| FileSystemWatcher.RescanKeepsCounters | src/base/filesystemwatcher.cpp:163-176 | a rescan resets no counter and adds exactly the files that do not load yet, at 0 |
| FileSystemWatcher.KeptThroughRetries | src/base/filesystemwatcher.cpp:120-183 | a path that stays invalid is kept with its counter counting the timer checks, whatever rescans come between, until its retries are used up |
| FileSystemWatcher.RejectedOnSixthCheck | src/base/filesystemwatcher.cpp:136-143 | such a new path is rejected at the check after five others, and at no earlier one |
| FileSystemWatcher.SixChecksEmptyTheMap | src/base/filesystemwatcher.cpp:120-161 | six checks without rescans leave no partial torrent |

## Left out

- Partially written `_new` files and QSettings' own file format: sync() is taken to replace the file's
  contents all-or-nothing. QFile::rename is taken to fail on a missing source and an existing target.
- Invalid QVariants and QVariant's converting equality: stored values are texts compared exactly;
  reading a typed value goes through a decoder that may fail.
- TransactionalSettings.SettingsFiles.Write: after a failed serialize the source calls forceRemove with the
  empty path that reports the failure; the model takes that to do nothing.
- CachedSetting.UseAll: takes every type's encoding to round-trip, because QVariant conversions are not
  part of this model.
- The rest of `Session` and `Torrent`: tag signals are events with contracts (a tag is listed once and
  before a present torrent gains it), save paths of categories are dropped, and so is switching
  subcategories on or off while the session lives.
- CategoryFilter.CategoryFilterModel.Populate: leaves out categories that collide with "Uncategorized",
  because for those addChild's assertion or the counts fail; CategorySession.NodeTakenIff and
  CategorySession.UncategorizedExactIff say exactly when.
- TagFilter.TagFilterModel.Replay: leaves out what follows a failed assertion in decreaseTorrentsCount,
  because that ends the program; TagFilter.NeverFiresIff says exactly when there is none.
- QModelIndex, row insertion and removal signals, data() and painting of both filter models.
- CategoryTree.CategoryModelItem.Clear: QHash's iteration order is arbitrary here, so nothing is said about
  the order in which children are deleted.
- QString::toInt is a function of the text that reads "0" as zero and "1" as non-zero; the other numbers
  a message could hold after "@addPaused=" are left to it.
- Paths of torrent, replacement texts and the trimmed command line of runExternalProgram are parameters;
  starting the process and the Windows branches are not part of this model.
- parseCommandLine, makeUsage, environment variables and unquoting.
- Logger.Logger.AddMessage: requires the id counter to be below the largest int, because the source leaves
  its overflow undefined. Locking and the signals are left out.
- Logger.GetNewer: takes an overflowing id difference to wrap around, because the source leaves it undefined.
- QDir's comparison and absolutePath are functions; only what the code needs of them is required.
- The file system a path is tested against is a function, so it does not change during one validation.
- The size a log file reports is a parameter, because buffering decides it; encoding, timestamps and
  message prefixes are part of the given line.
- The notifications of Qt's own folder watcher and QDir's comparison of watched folders, which are
  compared by their paths.
- The renaming of a rejected file is reported as a result; whether the rename succeeds is not modelled.
- Integer widths, except in the log's id arithmetic.
- Preferences, transfer list filters, index ranges, cookies, migrations and everything that only draws.
