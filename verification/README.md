# A model of the swoval file cache

The `files` library keeps a cache of parts of the file system in memory, watches them for changes, and
tells observers what has changed. This project models the parts of it that decide what the cache holds,
and proves that they hold it:

* **The cached tree** (`CacheTree`, `CachedDirectories`). A cached directory has a depth limit, a map of
  the entries it keeps as files, a map of cached subdirectories and an entry of its own. `init`, `update`,
  `remove`, `find` and `list` are given twice: as functions on a value of type `Cached`, and as methods of
  a class whose objects are updated in place. Each method is proved equal to its function; the laws are
  proved of the functions. Every tree node carries the value it stands for as ghost state, and a change of
  one node is threaded up the path from the root.
* **The registration of directories** (`DirectoryRegistries`, `FileCacheTree`, `FileCacheDirectoryTrees`).
  Which paths are accepted and to which depth, which cached directories are kept for them, and which
  paths were missing and are awaited. Depth arithmetic is Java `int` arithmetic: differences wrap around,
  and `Integer.MAX_VALUE` means no limit.
* **Watching** (`MacOSXWatchServices`, `AppleFileSystem`, `PollingPathWatchers`). The bounded event queues
  of the macOS watch service as interleaved steps, the pruning of native event streams, and the watcher
  that polls.

The file system is a finite tree of files, links and directories (`Snapshots.Node`), held fixed during one
call and free to change between calls. The converter is a pure function of the path. Paths are sequences
of names, absolute ones from the root.

## How the results fit together

`CacheInvariants.Struct` holds in every state that `init`, `update` and `remove` reach, in any order: a
child is one level shallower than its parent, nothing lies below the depth limit, and every stored key
resolves to the path of what is stored. `Clean` says more: no name is stored both as a file and as a
directory. An update keeps `Clean` exactly when the guard `KeepsSlotsApart` holds, a condition on the
tree and the reported kind before the call. The same guard decides whether the events of the update tell
the truth: replaying them on the old contents gives the new contents if and only if it holds
(`CacheRuns.UpdateIsCoherent`). Three things are shown to break it: a directory that becomes something
else without a removal in between (`CacheDeliveries.FlippedStaysWrong`), a file that becomes a directory
(`CacheSettlesListing.FileStaysListed`), and an ancestor that is no directory
(`ReplayTheorem.StrayAncestor`).

What an update leaves to be found is stated for every path, every filter and any file system
(`CacheFinds.UpdateFinds`, `CacheFinds.RescanFinds`, `CacheRuns.UpdateItself`): where a directory is
missing or rescanned, exactly what a filtered scan finds; at its own path, the new entry, unless
something that is no directory is still cached as one; everywhere else, what was found before. So
nothing gets into the cache that the filters reject, but for the directories on the way to a path
(`CacheFinds.OnlyAccepted`, `FileCacheFinds.ActionWanted`).

When the file system stays as it is, the event for a path makes what `find` returns for it right, in any
tree in order, if and only if the path is a directory now or is not cached as one
(`CacheDeliveries.DeliverRight`), and no path that was right becomes wrong. So after one event for each
path that differs, in any order, `find` returns what it returns after a fresh scan if and only if every
cached directory that has become something else was rescanned from a path above it, and the own entry of
the directory was right or got an event without a rescan, which is the only thing that replaces it
(`CacheSettles.Settles`, `CacheSettles.SettlesToScan`). A path below one that is gone or rescanned needs
no event of its own. Listings ask for more. A file that has become a directory is found as one, but its
old entry is listed beside it, until a path above is rescanned. So the cache lists what a fresh scan
lists if and only if everything that has flipped between file and directory, either way, was rescanned
from above, and the own entry is right (`CacheSettlesListing.SettlesToListing`;
`CacheSettlesListing.FileBecomesDirectory` is the smallest input). A fresh scan lists as the file system
does, path by path and count by count (`CachedDirectories.ListAfterScan`).

Over every run of `register` on directories the kept directories cover what is registered and no more of
them are kept than needed (`FileCacheCoverage.RunsCover`), and what is registered is what was asked for,
of two depths the greater one (`FileCacheCoverage.RunsRecord`, `FileCacheCoverage.RequestsCovered`). So
listing any accepted path, for any filter, reports exactly what exists within its registered depth and
passes the filter or is not put to it (`FileCacheListing.RegisteredListing`,
`FileCacheListing.RequestedListing`). After changes, and the events for all that the stored directories
have wrong, every stored directory mirrors the file system again if and only if all that has flipped was
rescanned from above and the own entries are right, provided that each event reaches the directory that
has the path wrong (`FileCacheSettles.EventsSettle`, `FileCacheSettles.SettledListing`). An event for an
existing path updates only the directory that `find` returns, so that is a condition on the depths:
delivering all that differs is enough, whatever the directories hold, if and only if no stored directory
lies within the levels that another one caches (`FileCacheOverlaps.SettlesExactly`,
`FileCacheOverlaps.EventSettlesPath`). A directory registered to depth 2 with a child registered to
depth 5 shows how it fails: what appears in the child is missing from the listing of the parent
(`FileCacheOverlaps.NestedStaysStale`).

Over every run that has file events as well no registered path is forgotten
(`FileCacheRemembers.RunsRemember`), although its depth can be left uncovered. A path that was missing
when it was registered is looked for among the pending ones only when `find` has no directory for it, so
its appearance covers it if and only if `find` has none, or it was covered anyway
(`FileCacheRemembers.PendingResolved`). When it is looked for, the observers hear of everything that is
stored (`FileCacheEvents.PendingIsTold`). Below a shallower directory it is overlooked
(`FileCacheRemembers.PendingOverlooked`), and no number of later events for existing paths that `find`
has another directory for changes that (`FileCacheRemembers.StaysUncovered`).

The callbacks of an event tell how the directory that it updates changed, if and only if the guard of
the update holds (`FileCacheEvents.UpdateIsTold`), and those of a deletion tell it of every directory at
or above the path (`FileCacheEvents.DeleteIsTold`). An update that throws is different. It throws when a
stored directory is rescanned and cannot be listed (`FileCacheEvents.ThrowsAtItself`), and has emptied
the directory before it is dropped; so of all that the directory held, observers hear only of its own
path and of what another directory above it holds (`FileCacheEvents.ThrowIsTold`).

## Where code and documentation differ

* Relativizing a path against itself gives one empty name in Java. So `remove` of a directory's own path
  removes nothing and the branch of `removeImpl` for no names is never reached
  (`CacheRemove.RemoveSelf`), and the depth computed for an equal path in `register` is zero.
* `listImpl` reports the entry of a directory of negative depth without asking the filter, and reports it
  a second time when the filter accepts it (`CacheRefinesListing.ListCountMeans`).
* Pruning compares stream paths as strings: the stream of `/a`, started after that of `/ab`, replaces it
  (`AppleFileSystem.NotADirectoryPrefix`; `AppleFileSystem.PruningKeepsWatch` says exactly when pruning
  is harmless).
* `accept` and `maxDepthFor` agree at a path if and only if some registered directory leaves at least -1
  levels there, or the path is registered exactly when a difference overflows
  (`DirectoryRegistries.QueriesAgree`). So they agree for depths of at least -1
  (`QueriesAgreeOnDepths`), and can disagree for lower ones (`QueriesDisagree`, `QueriesOverflow`).
## Model

Each row names the member whose contract states the property.

| member | source | states |
|---|---|---|
| `CacheInvariants.InitTreeStruct` | files/jvm/src/main/java/com/swoval/files/CachedDirectoryImpl.java:556-604 | A scan leaves a tree whose depths, keys and paths are in order, and in which no name is both a file and a directory. |
| `CacheInvariants.RemovePartsStruct` | files/jvm/src/main/java/com/swoval/files/CachedDirectoryImpl.java:510-554 | Removing a path keeps the structure, the own entry and the depth of the directory, and keeps files and directories apart. |
| `CacheInvariants.AddDirectoryStruct` | files/jvm/src/main/java/com/swoval/files/CachedDirectoryImpl.java:284-332 | Adding a directory keeps the structure, whether it replaces one, is new, is missing or turns out not to be one. |
| `CacheInvariants.AddDirectoryClean` | files/jvm/src/main/java/com/swoval/files/CachedDirectoryImpl.java:284-332 | It keeps files and directories apart if and only if the path is a directory whose name is not kept as a file, or one that is gone. |
| `CacheInvariants.LeafTreeStruct` | files/jvm/src/main/java/com/swoval/files/CachedDirectoryImpl.java:361-403 | Storing a file, or a directory at the depth limit, keeps the structure. |
| `CacheInvariants.LeafTreeClean` | files/jvm/src/main/java/com/swoval/files/CachedDirectoryImpl.java:378-394 | It keeps files and directories apart if and only if what is no directory is not cached as one. |
| `CacheInvariants.UpdatePartsStruct` | files/jvm/src/main/java/com/swoval/files/CachedDirectoryImpl.java:344-420 | Every update below the directory, in any branch and with either rescan flag, keeps the structure; it keeps files and directories apart if and only if a guard on the tree before the call holds. |
| `CacheRuns.UpdateStruct` | files/jvm/src/main/java/com/swoval/files/CachedDirectoryImpl.java:238-257 | The same for whole calls of `update`, including removals, rejected paths and the directory itself. |
| `CacheRuns.UpdateItself` | files/jvm/src/main/java/com/swoval/files/CachedDirectoryImpl.java:421-433 | An update of the own path without a rescan stores the new entry, reports exactly that one change and leaves all else as it is; a rescan leaves the own entry alone, and throws exactly when the directory cannot be listed. |
| `CacheRuns.RunsKeepStructure` | files/jvm/src/main/java/com/swoval/files/CachedDirectoryImpl.java:279-604 | In every state reached by `init`, `update` and `remove` in any order: child depths, keys and paths are in order, and nothing listed is more than depth + 1 levels down. |
| `CacheRuns.ListedWithin` | files/jvm/src/main/java/com/swoval/files/CachedDirectoryImpl.java:476-508 | Whatever the depth argument and filter, a listing reports the own entry or paths strictly below within depth + 1 levels. |
| `CacheListing.AtStruct` | files/jvm/src/main/java/com/swoval/files/CachedDirectoryImpl.java:441-460 | What is found at a path has that path, exists, and lies within the depth limit. |
| `CacheListing.FlatLook` | files/jvm/src/main/java/com/swoval/files/CachedDirectoryImpl.java:441-474 | The finite map of a tree from path to entry is what looking up each path finds. |
| `CacheListing.ListSetReports` | files/jvm/src/main/java/com/swoval/files/CachedDirectoryImpl.java:476-508 | A listing holds exactly the entries found strictly below within the levels asked for that the filter accepts, and the unfiltered entries of directories of negative depth that it descends into. |
| `CacheListing.AllEntriesFlat` | files/jvm/src/main/java/com/swoval/files/CachedDirectoryImpl.java:320-324 | The own entry and an unlimited listing are exactly the entries of the map. |
| `CacheListing.ListLevels` | files/jvm/src/main/java/com/swoval/files/CachedDirectoryImpl.java:476-508 | In every reachable state an unfiltered listing holds exactly what is stored within the levels asked for. |
| `CacheListing.ListingComposes` | files/jvm/src/main/java/com/swoval/files/CachedDirectoryImpl.java:441-508 | Listing a cached subdirectory equals the part of the full listing of the root that lies strictly below it within the levels asked for. |
| `CachePut.ListCountSet` | files/jvm/src/main/java/com/swoval/files/CachedDirectoryImpl.java:476-508 | The set of listed entries is the set of those reported at least once. |
| `CacheInit.InitTreeAt` | files/jvm/src/main/java/com/swoval/files/CachedDirectoryImpl.java:560-604 | A scan caches a path if and only if it exists within the depth limit and the filter accepts it and every directory on the way. |
| `CacheInit.InitIsRestriction` | files/jvm/src/main/java/com/swoval/files/CachedDirectoryImpl.java:565-597 | Under a filter closed under ancestors a scan caches exactly what the unfiltered scan caches and the filter accepts. |
| `CacheInit.InitIsSnapshot` | files/jvm/src/main/java/com/swoval/files/CachedDirectoryImpl.java:560-604 | Without a filter a scan caches the file system down to the depth limit. |
| `CacheFilters.InitTreeSame` | files/jvm/src/main/java/com/swoval/files/CachedDirectoryImpl.java:560-604 | A filter that accepts everything within the depth limit makes no difference to a scan ... |
| `CacheFilters.UpdateSame` | files/jvm/src/main/java/com/swoval/files/CachedDirectoryImpl.java:238-257 | ... nor to an update. |
| `CacheFinds.InitFinds` | files/jvm/src/main/java/com/swoval/files/CachedDirectoryImpl.java:556-604 | What a scan finds below the directory: what exists within the depth, when the filter accepts it and every directory on the way. |
| `CacheFinds.RescanFinds` | files/jvm/src/main/java/com/swoval/files/CachedDirectoryImpl.java:421-433 | After a rescan of the directory itself, what is found below it is what a filtered scan finds, and nothing else. |
| `CacheFinds.UpdateFinds` | files/jvm/src/main/java/com/swoval/files/CachedDirectoryImpl.java:344-420 | After any update below the directory, for every filter and any file system: a directory that was missing on the way, was new or is rescanned holds exactly what a filtered scan finds there, or is gone when it is none; any other path gets its new entry unless it is still cached as a directory; everything else, and everything at the depth limit, is found as before. |
| `CacheFinds.OnlyAccepted` | files/jvm/src/main/java/com/swoval/files/CachedDirectoryImpl.java:238-257 | Whatever an update newly caches passes the filter, or is a directory on the way to its path. |
| `CacheRemove.RemovePartsLook` | files/jvm/src/main/java/com/swoval/files/CachedDirectoryImpl.java:526-548 | After a removal nothing is found at or below the path, and everything else as before. |
| `CacheRemove.RemovedPartsExactly` | files/jvm/src/main/java/com/swoval/files/CachedDirectoryImpl.java:526-548 | In every tree in order: the entries returned are exactly the stored ones that are taken away, marked as not existing; of a name kept both as a file and as a directory it is both. |
| `CacheRemove.RemovedEverything` | files/jvm/src/main/java/com/swoval/files/CachedDirectoryImpl.java:526-548 | What is stored at or below the path is what is taken away, but for an entry kept under its absolute path; all else stays. |
| `CacheRemove.RemoveIsExact` | files/jvm/src/main/java/com/swoval/files/CachedDirectoryImpl.java:266-272 | `remove` of a path strictly below the directory, in every tree in order: nothing is found at or below the path any more and all else as before; exactly what is taken away is returned; and a second removal finds nothing. |
| `CacheRemove.RemoveFound` | files/jvm/src/main/java/com/swoval/files/CachedDirectoryImpl.java:266-272 | Where files and directories are apart, the entries returned are exactly those found at or below the path, marked as not existing. |
| `CacheRemove.RemoveSelf` | files/jvm/src/main/java/com/swoval/files/CachedDirectoryImpl.java:266-272 | `remove` of the directory's own path removes nothing. |
| `CacheRemove.RemoveOutside` | files/jvm/src/main/java/com/swoval/files/CachedDirectoryImpl.java:266-272 | Nor does `remove` of a path outside it. |
| `Replays.ReplayExplained` | files/jvm/src/main/java/com/swoval/files/FileTreeViews.java:185-199 | Events that are truthful about every path they concern, and concern every path that changed, lead from the old map to the new one in whatever order they are replayed. |
| `CacheUpdates.AddDirectoryExplains` | files/jvm/src/main/java/com/swoval/files/CachedDirectoryImpl.java:304-331 | The events of adding a directory explain the change of every path, when it is added cleanly. |
| `CacheUpdates.LeafExplains` | files/jvm/src/main/java/com/swoval/files/CachedDirectoryImpl.java:364-403 | So do the events of storing a file or a directory at the depth limit. |
| `CacheUpdates.LeafTold` | files/jvm/src/main/java/com/swoval/files/CachedDirectoryImpl.java:361-403 | In every tree in order that step reports its entry as an update of the file entry it replaces, and of the directory entry it replaces in place or when there is no file; as created when it replaces nothing; and nothing else. |
| `CacheUpdates.UpdatePartsExplains` | files/jvm/src/main/java/com/swoval/files/CachedDirectoryImpl.java:344-420 | So do the events of every update below the directory, when the guard holds. |
| `CacheRuns.UpdateRootExplains` | files/jvm/src/main/java/com/swoval/files/CachedDirectoryImpl.java:421-433 | So do the events of updating the directory itself. |
| `ReplayTheorem.ReplayIsCoherent` | files/jvm/src/main/java/com/swoval/files/CachedDirectoryImpl.java:344-420 | For every update below the directory: replaying its events on the old contents gives the new contents if and only if the guard holds. |
| `CacheRuns.UpdateIsCoherent` | files/jvm/src/main/java/com/swoval/files/CachedDirectoryImpl.java:238-257 | The same for every call of `update`, in any branch. |
| `CacheRuns.ObserverMirrors` | files/jvm/src/main/java/com/swoval/files/FileTreeViews.java:185-199 | Over any run of updates that meet the guard, against any file systems, an observer that replays all events mirrors the cache. |
| `ReplayTheorem.StrayAncestor` | files/jvm/src/main/java/com/swoval/files/CachedDirectoryImpl.java:289-299 | A missing ancestor that turns out not to be a directory is listed but never found, and no event tells of it. |
| `CacheUnflipped.DeliverKeeps` | files/jvm/src/main/java/com/swoval/files/CachedDirectoryImpl.java:344-420 | Against a fixed file system an update of an existing path keeps the tree free of flipped kinds, and the guard holds. |
| `CacheDeliveries.DeliverRight` | files/jvm/src/main/java/com/swoval/files/CachedDirectoryImpl.java:344-420 | In every tree in order and with either flag: the update of an existing path makes it right if and only if it is a directory, or is not cached as one. No path that was right becomes wrong. |
| `CacheDeliveries.RemovedRight` | files/jvm/src/main/java/com/swoval/files/CachedDirectoryImpl.java:510-554 | The event of a path that is gone makes that path and all below it right, and no other path wrong, in every tree in order. |
| `CacheSettles.Settles` | files/jvm/src/main/java/com/swoval/files/CachedDirectoryImpl.java:220-257 | After one event for each path that differs, in any order and each with either flag (or for a path above it that is gone or rescanned), what `find` returns at a path is right if and only if it is no non-directory cached as a directory, or a path strictly above it is gone or was rescanned. The own entry is right exactly when it was, or was delivered without a rescan. |
| `CacheSettles.SettlesToScan` | files/jvm/src/main/java/com/swoval/files/CachedDirectoryImpl.java:441-474 | So `find` returns what it returns after a fresh scan, at every path, the directory's own included, if and only if every directory that has become something else was rescanned from above and the own entry was right or delivered. |
| `CacheSettlesListing.SettlesToListing` | files/jvm/src/main/java/com/swoval/files/CachedDirectoryImpl.java:304-326 | From any tree that keeps files and directories apart, and any that such events left behind: the own entry and the listing are those of a fresh scan if and only if, besides, every file that has become a directory was rescanned from above: adding the directory leaves the file entry where it is, and `listImpl` reports it. |
| `CacheSettlesListing.StaysTidy` | files/jvm/src/main/java/com/swoval/files/CachedDirectoryImpl.java:344-420 | No event of a fixed file system keeps a name as a file and as a directory, except where it has become the one or the other, and none keeps a file under an absolute path. |
| `CacheSettlesListing.FileStaysListed` | files/jvm/src/main/java/com/swoval/files/CachedDirectoryImpl.java:304-326 | A file at any depth that became a directory without a removal in between: its event breaks the guard, `find` returns the directory, and the file is still listed under the same path. |
| `CacheSettlesListing.FileBecomesDirectory` | files/jvm/src/main/java/com/swoval/files/CachedDirectoryImpl.java:304-326 | The input: one cached file that becomes an empty directory. After its event `find` agrees with a fresh scan, and the listing does not. |
| `CacheDeliveries.FlippedStaysWrong` | files/jvm/src/main/java/com/swoval/files/CachedDirectoryImpl.java:378-394 | A directory at any depth that became a file without a removal in between stays cached as a directory, and becomes a file as well, whatever the flag of its event. |
| `SimpleFileTreeView.DirectCountMeans` | files/jvm/src/main/java/com/swoval/files/SimpleFileTreeView.java:146-193 | Listing the file system directly reports a path once when it exists within the levels asked for and passes the filter, and otherwise not at all. |
| `CacheRefinesListing.ListCountMeans` | files/jvm/src/main/java/com/swoval/files/CachedDirectoryImpl.java:476-508 | How often the cache reports an entry: once when in range and accepted, and once more when it is a directory of negative depth that is descended into. |
| `CacheRefinesListing.ListRefinesDirect` | files/jvm/src/main/java/com/swoval/files/CachedDirectoryImpl.java:476-508 | After a scan to depth d, `list` to m levels reports every path as often as listing the file system to min(m, d) levels, for every filter, saturating counter or not. |
| `CacheRefinesListing.CacheEqualsDirect` | files/jvm/src/main/java/com/swoval/files/SimpleFileTreeView.java:116-193 | So both listings are the same multiset. |
| `CachedDirectories.CachedDirectory.constructor` | files/jvm/src/main/java/com/swoval/files/CachedDirectoryImpl.java:55-68 | A new directory is empty and valid. |
| `CachedDirectories.FoundIsLook` | files/jvm/src/main/java/com/swoval/files/CachedDirectoryImpl.java:462-474 | A path that is looked for, absolute or relative, is found where the laws of looking up have it. |
| `CachedDirectories.CachedDirectory.Find` | files/jvm/src/main/java/com/swoval/files/CachedDirectoryImpl.java:462-474 | Finds the cached directory or file at an absolute path inside the directory or at a relative one, and nothing in a directory that does not exist. |
| `CachedDirectories.CachedDirectory.FindImpl` | files/jvm/src/main/java/com/swoval/files/CachedDirectoryImpl.java:441-460 | A directory wins over a file of the same name. |
| `CachedDirectories.CachedDirectory.ListImpl` | files/jvm/src/main/java/com/swoval/files/CachedDirectoryImpl.java:476-508 | Reports every entry exactly as often as its count in the tree. |
| `CachedDirectories.CachedDirectory.ListEntries` | files/jvm/src/main/java/com/swoval/files/CachedDirectoryImpl.java:192-195 | The same for the directory's own path, and nothing when it does not exist. |
| `CachedDirectories.CachedDirectory.ListEntriesAt` | files/jvm/src/main/java/com/swoval/files/CachedDirectoryImpl.java:153-190 | `listEntries` of any path: a directory lists itself, a file reports itself if the filter accepts it. |
| `CachedDirectories.CachedDirectory.List` | files/jvm/src/main/java/com/swoval/files/CachedDirectoryImpl.java:111-151 | `list` of any path: a file reports itself only for depth -1. |
| `CachedDirectories.CachedDirectory.GoneEntries` | files/jvm/src/main/java/com/swoval/files/CachedDirectoryImpl.java:531-543 | What one name of a directory loses when it is removed. |
| `CachedDirectories.CachedDirectory.RemoveImpl` | files/jvm/src/main/java/com/swoval/files/CachedDirectoryImpl.java:526-548 | Removes the names from the tree in place, and returns what the function returns. |
| `CachedDirectories.CachedDirectory.Remove` | files/jvm/src/main/java/com/swoval/files/CachedDirectoryImpl.java:266-272 | The same for an absolute path; one outside the directory removes nothing. |
| `CachedDirectories.CachedDirectory.Init` | files/jvm/src/main/java/com/swoval/files/CachedDirectoryImpl.java:556-604 | Scans in place; the result is the tree of the scan, and the error that of listing the directory itself. |
| `CachedDirectories.CachedDirectory.AddDirectory` | files/jvm/src/main/java/com/swoval/files/CachedDirectoryImpl.java:284-332 | Adds a child directory in place, in each of its four outcomes, and returns its events. |
| `CachedDirectories.CachedDirectory.UpdateDirectory` | files/jvm/src/main/java/com/swoval/files/CachedDirectoryImpl.java:338-342 | Gives a child a new entry in place, with the one event for it. |
| `CachedDirectories.CachedDirectory.PutLeaf` | files/jvm/src/main/java/com/swoval/files/CachedDirectoryImpl.java:378-394 | Stores the new entry in the right map, and takes it out of the other where the source does. |
| `CachedDirectories.CachedDirectory.UpdateLeaf` | files/jvm/src/main/java/com/swoval/files/CachedDirectoryImpl.java:361-403 | The leaf branch in place, with its events. |
| `CachedDirectories.CachedDirectory.UpdateBranch` | files/jvm/src/main/java/com/swoval/files/CachedDirectoryImpl.java:404-411 | The branch above the depth limit in place, with its events. |
| `CachedDirectories.CachedDirectory.Walk` | files/jvm/src/main/java/com/swoval/files/CachedDirectoryImpl.java:353-420 | The walk stops at a negative depth, an empty name, the last name or a missing directory. |
| `CachedDirectories.CachedDirectory.UpdateImpl` | files/jvm/src/main/java/com/swoval/files/CachedDirectoryImpl.java:350-420 | The whole update below the directory equals the function, in tree and events. |
| `CachedDirectories.CachedDirectory.UpdateSelf` | files/jvm/src/main/java/com/swoval/files/CachedDirectoryImpl.java:421-433 | So does the update of the directory itself, including a rescan that fails. |
| `CachedDirectories.CachedDirectory.Update` | files/jvm/src/main/java/com/swoval/files/CachedDirectoryImpl.java:238-257 | `update` records exactly the events of the function, and leaves exactly its tree. |
| `CachedDirectories.ListAfterScan` | files/jvm/src/main/java/com/swoval/files/CachedDirectoryImpl.java:111-151 | After a scan, what `list` returns for any filter and what listing the file system returns are the same multiset. |
| `CachedDirectories.ListOfFile` | files/jvm/src/main/java/com/swoval/files/CachedDirectoryImpl.java:153-190 | After a scan, a cached path that is no directory reports itself once if the filter accepts it, and not when only directories are asked for. |
| `CacheListing.OwnDepthListing` | files/jvm/src/main/java/com/swoval/files/CachedDirectoryImpl.java:422-424 | Listing a directory to its own depth reports all it holds but itself. |
| `SimpleFileTreeView.Lister.Impl` | files/jvm/src/main/java/com/swoval/files/SimpleFileTreeView.java:146-193 | Appends to the result as often as the count says, or fails exactly when a directory it opens cannot be read. |
| `SimpleFileTreeView.Lister.AppendDirectories` | files/jvm/src/main/java/com/swoval/files/SimpleFileTreeView.java:151-164 | The same for the subdirectories of one directory. |
| `SimpleFileTreeView.Lister.AppendAll` | files/jvm/src/main/java/com/swoval/files/SimpleFileTreeView.java:165-180 | The same for its files or its links. |
| `SimpleFileTreeView.List` | files/jvm/src/main/java/com/swoval/files/SimpleFileTreeView.java:44-56 | `list`: a negative depth reports the path itself. |
| `MapOps.FromList` | files/jvm/src/main/java/com/swoval/files/MapOps.java:25-36 | A list of entries as a map: of the entries of one path the last wins. |
| `MapOps.DiffDirectoryEntries` | files/jvm/src/main/java/com/swoval/files/MapOps.java:40-63 | Exactly one event for each key of the union of the maps, and the right one. |
| `FileTreeViews.Updates.OnCreate` | files/jvm/src/main/java/com/swoval/files/FileTreeViews.java:201-204 | Records one more creation. |
| `FileTreeViews.Updates.OnDelete` | files/jvm/src/main/java/com/swoval/files/FileTreeViews.java:206-209 | Records one more deletion. |
| `FileTreeViews.Updates.OnUpdate` | files/jvm/src/main/java/com/swoval/files/FileTreeViews.java:211-215 | Records one more update. |
| `FileTreeViews.Updates.OnEvents` | files/jvm/src/main/java/com/swoval/files/FileTreeViews.java:179-215 | Records all calls of a difference, and nothing else. |
| `FileTreeViews.Updates.Observe` | files/jvm/src/main/java/com/swoval/files/FileTreeViews.java:185-199 | Replays all creations, then all updates, then all deletions, marked as not existing, each in the order recorded. |
| `Callbacks.Sort` | files/jvm/src/main/java/com/swoval/files/FileCacheDirectoryTree.java:263-283 | Callbacks are put in order of their paths; those of one path keep their order, and none is lost. |
| `Callbacks.PrecedesTransitive` | files/jvm/src/main/java/com/swoval/files/FileTreeRepositoryImpl.java:139-142 | The order of paths is transitive ... |
| `Callbacks.PrecedesTotal` | files/jvm/src/main/java/com/swoval/files/FileTreeRepositoryImpl.java:139-142 | ... and total. |
| `Callbacks.PrecedesMeans` | files/jvm/src/main/java/com/swoval/files/FileTreeRepositoryImpl.java:139-142 | A path comes before another when its string is a prefix, or has the smaller character at the first difference ... |
| `Callbacks.TextInjective` | files/jvm/src/main/java/com/swoval/files/FileTreeRepositoryImpl.java:139-142 | ... and different paths have different strings, when no name is empty or holds a separator. |
| `Callbacks.AboveFirst` | files/jvm/src/main/java/com/swoval/files/FileCacheDirectoryTree.java:263-283 | So the callbacks for a directory run before those for what lies below it. |
| `Callbacks.SortingIsHarmless` | files/jvm/src/main/java/com/swoval/files/FileCacheDirectoryTree.java:263-283 | When updates keep their paths, replaying the sorted callbacks yields the same map as replaying them as recorded. |
| `FileCacheEvents.ToldKeepsPaths` | files/jvm/src/main/java/com/swoval/files/FileCacheDirectoryTree.java:286-372 | Every update among the callbacks of an event keeps its path. |
| `DirectoryRegistries.DepthForUnique` | files/jvm/src/main/java/com/swoval/files/DirectoryRegistry.java:116-138 | The answer of `maxDepthFor` does not depend on the order in which the directories are visited. |
| `DirectoryRegistries.DepthsStayInts` | files/jvm/src/main/java/com/swoval/files/DirectoryRegistry.java:125 | With depths of at least -1 no difference overflows, at whatever path. |
| `DirectoryRegistries.QueriesAgree` | files/jvm/src/main/java/com/swoval/files/DirectoryRegistry.java:116-198 | For all int depths: a path is accepted exactly when at least -1 levels are left for it, if and only if some registered directory leaves at least -1 levels there, or the path is registered exactly when a difference overflows. |
| `DirectoryRegistries.QueriesAgreeOnDepths` | files/jvm/src/main/java/com/swoval/files/DirectoryRegistry.java:116-198 | With depths of at least -1: accepted if and only if at least -1 levels are left. |
| `DirectoryRegistries.QueriesDisagree` | files/jvm/src/main/java/com/swoval/files/DirectoryRegistry.java:242-245 | With depth -2 its own path is accepted although no level is left: an input at which the two disagree. |
| `DirectoryRegistries.QueriesOverflow` | files/jvm/src/main/java/com/swoval/files/DirectoryRegistry.java:125 | With the lowest int a child path is not accepted, and is left the greatest depth: another. |
| `DirectoryRegistries.PrefixesClosed` | files/jvm/src/main/java/com/swoval/files/DirectoryRegistry.java:170-203 | In every state of the registry, what `acceptPrefix` accepts is closed under ancestors. |
| `DirectoryRegistries.WatcherRootHolds` | files/jvm/src/main/java/com/swoval/files/NioPathWatcher.java:285-300 | A watcher root of unlimited depth caches exactly the existing directories below it, not links, that `acceptPrefix` accepts. |
| `FileCacheFinds.WatcherRootGains` | files/jvm/src/main/java/com/swoval/files/NioPathWatcher.java:285-300 | And whatever an update adds to it is a directory, not a link, that `acceptPrefix` accepts. |
| `DirectoryRegistries.DepthForGrows` | files/jvm/src/main/java/com/swoval/files/DirectoryRegistry.java:97-113 | Registering more, or deeper, never leaves fewer levels for a path. |
| `DirectoryRegistries.DirectoryRegistry.AddDirectory` | files/jvm/src/main/java/com/swoval/files/DirectoryRegistry.java:97-113 | Adds a path that is not registered, or raises its depth to a greater one, and says whether it did; otherwise nothing changes. |
| `DirectoryRegistries.DirectoryRegistry.RemoveDirectory` | files/jvm/src/main/java/com/swoval/files/DirectoryRegistry.java:160-168 | Removes that path alone. |
| `DirectoryRegistries.DirectoryRegistry.MaxDepthFor` | files/jvm/src/main/java/com/swoval/files/DirectoryRegistry.java:116-138 | Computes the greatest remaining depth, whatever the order of the map. |
| `DirectoryRegistries.DirectoryRegistry.AcceptImpl` | files/jvm/src/main/java/com/swoval/files/DirectoryRegistry.java:170-193 | Computes whether any registered directory accepts the path, whatever the order of the map. |
| `FileCacheTree.FindKey` | files/jvm/src/main/java/com/swoval/files/FileCacheDirectoryTree.java:234-261 | `find`: the longest stored path that reaches the path, if there is any. |
| `FileCacheTree.ExistingFor` | files/jvm/src/main/java/com/swoval/files/FileCacheDirectoryTree.java:442-461 | The shortest stored path that caches more levels below the path than are asked for, if there is any. |
| `FileCacheCoverage.ExceedsMeans` | files/jvm/src/main/java/com/swoval/files/FileCacheDirectoryTree.java:456-459 | The test of `register` never overflows, and what it means without the detour over name counts. |
| `FileCacheCoverage.ReachesMeans` | files/jvm/src/main/java/com/swoval/files/FileCacheDirectoryTree.java:249-257 | What the test of `find` means. |
| `FileCacheCoverage.RedundantMeans` | files/jvm/src/main/java/com/swoval/files/FileCacheDirectoryTree.java:496-504 | The test of the clean-up never overflows, and what it means. |
| `FileCacheCoverage.NewNotCovered` | files/jvm/src/main/java/com/swoval/files/FileCacheDirectoryTree.java:453-461 | A new directory is covered by none that is kept, and covers none. |
| `FileCacheCoverage.CleanKeepsCover` | files/jvm/src/main/java/com/swoval/files/FileCacheDirectoryTree.java:491-511 | What covers the registered path covers all that the clean-up drops. |
| `FileCacheCoverage.FindIsDeepEnough` | files/jvm/src/main/java/com/swoval/files/FileCacheDirectoryTree.java:234-261 | For an accepted path `find` returns a directory that caches at least `maxDepthFor` levels below it. |
| `FileCacheCoverage.RegisterStep` | files/jvm/src/main/java/com/swoval/files/FileCacheDirectoryTree.java:429-489 | One registration keeps every registered path covered and no kept directory covered by another. |
| `FileCacheCoverage.RunsCover` | files/jvm/src/main/java/com/swoval/files/FileCacheDirectoryTree.java:429-511 | Over every run of `register` on directories: no kept directory is covered by another, every registered path is covered to its depth, and `find` is deep enough for every accepted path; MAX_INT is no limit, and nothing overflows. |
| `FileCacheCoverage.RegisterRecords` | files/jvm/src/main/java/com/swoval/files/FileCacheDirectoryTree.java:429-437 | After one registration, watched or not, the path is registered at least as deep as asked for; it is added if and only if it was not before; nothing else changes. |
| `FileCacheCoverage.RunsRecord` | files/jvm/src/main/java/com/swoval/files/DirectoryRegistry.java:97-113 | Over every run whatever was asked for is registered, at least as deep, and every registered depth was asked for. |
| `FileCacheCoverage.RequestsCovered` | files/jvm/src/main/java/com/swoval/files/FileCacheDirectoryTree.java:429-511 | So over every run on directories each depth that was asked for is covered by a stored directory. |
| `FileCacheCoverage.RegisterDrops` | files/jvm/src/main/java/com/swoval/files/FileCacheDirectoryTree.java:466-511 | A registration that does not fail drops exactly the stored directories below the path that it covers now, whether the path gets a directory, is left to an existing one, or is missing. |
| `FileCacheRemembers.RegisterRemembers` | files/jvm/src/main/java/com/swoval/files/FileCacheDirectoryTree.java:429-489 | A registration forgets no registered path, whether the path exists, is no directory or is missing. |
| `FileCacheRemembers.DeleteRemembers` | files/jvm/src/main/java/com/swoval/files/FileCacheDirectoryTree.java:374-410 | Nor does a deletion: a directory stored under the path leaves it pending. |
| `FileCacheRemembers.UpdateRemembers` | files/jvm/src/main/java/com/swoval/files/FileCacheDirectoryTree.java:295-309 | Nor does an update, nor one that throws. |
| `FileCacheRemembers.PendingRemembers` | files/jvm/src/main/java/com/swoval/files/FileCacheDirectoryTree.java:310-345 | Nor does the appearance of a pending path. |
| `FileCacheRemembers.RunsRemember` | files/jvm/src/main/java/com/swoval/files/FileCacheDirectoryTree.java:286-511 | Over every run of registrations and events each registered path has itself or an ancestor cached or pending, and nothing is cached or pending that was not registered. |
| `FileCacheRemembers.PendingResolved` | files/jvm/src/main/java/com/swoval/files/FileCacheDirectoryTree.java:295-345 | A path that was missing and appears as a readable directory is covered to its registered depth if and only if `find` had no directory for it, or it was covered before. |
| `FileCacheRemembers.PendingOverlooked` | files/jvm/src/main/java/com/swoval/files/FileCacheDirectoryTree.java:295-345 | The input: below a directory registered to depth 0 a missing path is registered and appears; its registered depth is not covered. |
| `FileCacheRemembers.StaysUncovered` | files/jvm/src/main/java/com/swoval/files/FileCacheDirectoryTree.java:295-309 | However many events follow for existing paths that `find` has another directory for: the depths stay, and what is uncovered stays uncovered. |
| `FileCacheRemembers.RegisterStores` | files/jvm/src/main/java/com/swoval/files/FileCacheDirectoryTree.java:462-489 | A path that no stored directory caches deep enough: a directory is stored to the depth, anything else as itself alone, and a path that is missing or cannot be read is awaited; only stored directories below it are dropped. |
| `FileCacheRemembers.AppearedAlone` | files/jvm/src/main/java/com/swoval/files/FileCacheDirectoryTree.java:638-663 | What is stored for a path that is no directory finds that path and nothing else. |
| `FileCacheRemembers.RegisterReturns` | files/jvm/src/main/java/com/swoval/files/FileCacheDirectoryTree.java:462-489 | A registration that does not fail returns the stored directory that answers for the path from now on, or the path alone when it is awaited. |
| `FileCacheFinds.RegisterRescans` | files/jvm/src/main/java/com/swoval/files/FileCacheDirectoryTree.java:456-479 | A path that a stored directory caches deep enough is rescanned there: below it is found exactly what a scan with the filters of the caller and the registry finds now. |
| `FileCacheFinds.EventFinds` | files/jvm/src/main/java/com/swoval/files/FileCacheDirectoryTree.java:295-309 | After an event, what is found at every path of the directory that `find` takes for it; all other stored directories stay. |
| `FileCacheFinds.LinkFinds` | files/jvm/src/main/java/com/swoval/files/FileCacheDirectoryTree.java:298-307 | An event for a symbolic link stores it as a link, whatever it leads to, and changes nothing else. |
| `FileCacheFinds.ActionWanted` | files/jvm/src/main/java/com/swoval/files/FileCacheDirectoryTree.java:286-489 | No registration and no event newly caches, below a stored directory, what the filter of the caller or the registry rejects, but for directories on the way to its path. |
| `FileCacheListing.UpdateMirrors` | files/jvm/src/main/java/com/swoval/files/FileCacheDirectoryTree.java:475-478 | Rescanning a path within a directory that mirrors the file system leaves it a mirror. |
| `FileCacheListing.ListAtMirror` | files/jvm/src/main/java/com/swoval/files/FileCacheDirectoryTree.java:576-577 | Listing a path that such a directory covers reports exactly what exists. |
| `FileCacheListing.ListIsNow` | files/jvm/src/main/java/com/swoval/files/FileCacheDirectoryTree.java:563-586 | `listEntries` of an accepted path, for every filter: exactly what exists within the depth asked for and the depth registered, and either passes the filter or is not put to it. |
| `FileCacheListing.ListAtFiltered` | files/jvm/src/main/java/com/swoval/files/FileCacheDirectoryTree.java:576-577 | The filter keeps back what it rejects, but for what it is not asked about: a directory that reports itself, because its own depth or the depth of the listing is negative. |
| `FileCacheListing.RunsMirror` | files/jvm/src/main/java/com/swoval/files/FileCacheDirectoryTree.java:429-489 | While the file system stays as it is, registrations leave every stored directory a mirror of it, no deeper than registered. |
| `FileCacheListing.RegisteredListing` | files/jvm/src/main/java/com/swoval/files/FileCacheDirectoryTree.java:429-586 | So after any such run the listing of any accepted path, to any depth and for every filter of the listing, is never short and never too long. |
| `FileCacheListing.RequestedListing` | files/jvm/src/main/java/com/swoval/files/FileCacheDirectoryTree.java:429-586 | In particular each path that was registered is listed to the depth asked for. |
| `FileCacheEvents.UpdateIsTold` | files/jvm/src/main/java/com/swoval/files/FileCacheDirectoryTree.java:295-309 | The callbacks of an event, in whatever order they run, tell an observer how the directory found for it changed, if and only if the guard of the update holds. |
| `FileCacheEvents.DeleteIsTold` | files/jvm/src/main/java/com/swoval/files/FileCacheDirectoryTree.java:374-410 | The callbacks of a deletion tell how every directory at or above the path changed. |
| `FileCacheEvents.LostAll` | files/jvm/src/main/java/com/swoval/files/FileCacheDirectoryTree.java:381-398 | Everything such a directory holds at or below the path is reported. |
| `FileCacheEvents.DeleteElsewhere` | files/jvm/src/main/java/com/swoval/files/FileCacheDirectoryTree.java:374-410 | A deletion of a path at or above which no directory is stored changes nothing and tells nothing. |
| `FileCacheEvents.PendingIsTold` | files/jvm/src/main/java/com/swoval/files/FileCacheDirectoryTree.java:310-345 | A path that was awaited and appears is stored, and the callbacks, creations all, tell an observer everything that is stored; otherwise it stays awaited and nothing is told. |
| `FileCacheEvents.ThrowsAtItself` | files/jvm/src/main/java/com/swoval/files/CachedDirectoryImpl.java:421-433 | An update throws only when it rescans the stored directory itself and that cannot be listed; it is left with its own entry alone. |
| `FileCacheEvents.ThrowIsTold` | files/jvm/src/main/java/com/swoval/files/FileCacheDirectoryTree.java:295-309 | Then the directory is dropped, and awaited if it is registered; but the observers hear only of its path and of what other directories above it hold. |
| `FileCacheSettles.EventsSettle` | files/jvm/src/main/java/com/swoval/files/FileCacheDirectoryTree.java:286-409 | After the events, in any order, for all that the stored directories have wrong, each reaching the directory that has it wrong, every stored directory mirrors the file system, its own entry included, if and only if all that has flipped between file and directory was rescanned from above and every own entry was right or delivered without a rescan. |
| `FileCacheSettles.SettledListing` | files/jvm/src/main/java/com/swoval/files/FileCacheDirectoryTree.java:563-586 | Then the listing of any accepted path, to any depth and for every filter of the listing, reports exactly what exists within the depth registered for it. |
| `FileCacheOverlaps.SettlesExactly` | files/jvm/src/main/java/com/swoval/files/FileCacheDirectoryTree.java:295-309 | For given depths of the stored directories: delivering every path that differs, and rescanning what has flipped, leaves them all mirrors of the file system, whatever they held, if and only if none of them lies within the levels that another one caches. |
| `FileCacheOverlaps.OverlapMissed` | files/jvm/src/main/java/com/swoval/files/FileCacheDirectoryTree.java:295-309 | Whenever another directory than the one that `find` returns can cache an existing path, there is a state with these depths that has the path alone wrong, and its event leaves it so. |
| `FileCacheOverlaps.EventSettlesPath` | files/jvm/src/main/java/com/swoval/files/FileCacheDirectoryTree.java:295-309 | The event for an existing path makes every stored directory right about it, whatever they held, if and only if `find` returns the only one whose depth reaches it. |
| `FileCacheOverlaps.StaysUnlisted` | files/jvm/src/main/java/com/swoval/files/FileCacheDirectoryTree.java:563-586 | A path that a stored directory lacks is in none of its listings. |
| `FileCacheOverlaps.NestedStaysStale` | files/jvm/src/main/java/com/swoval/files/FileCacheDirectoryTree.java:286-309 | The input: a directory registered to depth 2 and a child of it to depth 5; a path that appears in the child is missing from the listing of the parent. |
| `FileCacheDirectoryTrees.ListAtIsListed` | files/jvm/src/main/java/com/swoval/files/FileCacheDirectoryTree.java:576-577 | What `listEntries` takes from a stored directory is what the object of that value reports. |
| `FileCacheDirectoryTrees.Sorted` | files/jvm/src/main/java/com/swoval/files/FileCacheDirectoryTree.java:236-245 | Paths in an order in which none comes before one that it extends. |
| `FileCacheDirectoryTrees.FileCacheDirectoryTree.Find` | files/jvm/src/main/java/com/swoval/files/FileCacheDirectoryTree.java:234-261 | The loop over the directories in descending order finds what the function says. |
| `FileCacheDirectoryTrees.FileCacheDirectoryTree.FindExisting` | files/jvm/src/main/java/com/swoval/files/FileCacheDirectoryTree.java:442-461 | The loop in ascending order finds what the function says. |
| `FileCacheDirectoryTrees.FileCacheDirectoryTree.CleanupDirectories` | files/jvm/src/main/java/com/swoval/files/FileCacheDirectoryTree.java:491-511 | Removes exactly the redundant directories. |
| `FileCacheDirectoryTrees.FileCacheDirectoryTree.NewCachedDirectory` | files/jvm/src/main/java/com/swoval/files/FileCacheDirectoryTree.java:638-663 | Three attempts while access is denied; then the directory counts as missing. |
| `FileCacheDirectoryTrees.FileCacheDirectoryTree.Register` | files/jvm/src/main/java/com/swoval/files/FileCacheDirectoryTree.java:429-489 | The new state and the result are those of the function, also when the watcher or the scan fails; a path that is registered as deep already changes nothing. |
| `FileCacheDirectoryTrees.FileCacheDirectoryTree.HandleUpdate` | files/jvm/src/main/java/com/swoval/files/FileCacheDirectoryTree.java:296-309 | An event with a directory found for it; when the update throws, the path is deleted. |
| `FileCacheDirectoryTrees.FileCacheDirectoryTree.HandlePending` | files/jvm/src/main/java/com/swoval/files/FileCacheDirectoryTree.java:310-345 | An event for a pending path. |
| `FileCacheDirectoryTrees.FileCacheDirectoryTree.HandleDelete` | files/jvm/src/main/java/com/swoval/files/FileCacheDirectoryTree.java:374-410 | A deletion, directory by directory, in any order. |
| `FileCacheDirectoryTrees.FileCacheDirectoryTree.HandleEvent` | files/jvm/src/main/java/com/swoval/files/FileCacheDirectoryTree.java:286-372 | The new state is that of the function; the callbacks are those of the changes, stably sorted by path, and replaying them yields the same map as replaying them as recorded. |
| `FileCacheDirectoryTrees.FileCacheDirectoryTree.ListEntries` | files/jvm/src/main/java/com/swoval/files/FileCacheDirectoryTree.java:563-586 | The depth is cut to what is registered; a directory of depth -1 reports itself. |
| `MacOSXWatchServices.StepSafe` | files/jvm/src/main/java/com/swoval/files/MacOSXWatchService.java:342-383 | Every step of `addEvent`, `pollEvents` and `take` keeps the invariants. |
| `MacOSXWatchServices.NoLostWakeUp` | files/jvm/src/main/java/com/swoval/files/MacOSXWatchService.java:342-383 | Over every interleaving a key with events or overflow is ready, or taken and not yet polled, or inside `addEvent`; it is ready at most once; its queue is bounded; overflow means a non-empty queue. |
| `MacOSXWatchServices.EventsReturned` | files/jvm/src/main/java/com/swoval/files/MacOSXWatchService.java:342-383 | Every accepted event is returned exactly once and in order, or still queued. |
| `MacOSXWatchServices.EventsCounted` | files/jvm/src/main/java/com/swoval/files/MacOSXWatchService.java:342-383 | Every other event is counted in exactly one OVERFLOW count, modulo 2^32, and exactly while fewer than 2^31 were lost. |
| `MacOSXWatchServices.AddEventAlone` | files/jvm/src/main/java/com/swoval/files/MacOSXWatchService.java:373-383 | The steps of `addEvent` taken without interruption do what the method does. |
| `MacOSXWatchServices.ReadyKeys.Poll` | files/jvm/src/main/java/com/swoval/files/MacOSXWatchService.java:167-173 | Takes the first ready key, if there is one. |
| `MacOSXWatchServices.MacOSXWatchKey.AddEvent` | files/jvm/src/main/java/com/swoval/files/MacOSXWatchService.java:373-383 | Queues the event and makes the key ready once, or counts an overflow. |
| `MacOSXWatchServices.MacOSXWatchKey.PollEvents` | files/jvm/src/main/java/com/swoval/files/MacOSXWatchService.java:342-353 | Returns the queue and one OVERFLOW event, and clears both. |
| `AppleFileSystem.SurvivorsApart` | files/js/npm/src/swoval_apple_file_system.hpp:196-208 | Of the surviving streams none has a path that is a string prefix of another, nor the same path. |
| `AppleFileSystem.SomePrefixSurvives` | files/js/npm/src/swoval_apple_file_system.hpp:196-208 | For every stream one survives whose path is a string prefix of its own. |
| `AppleFileSystem.PruningKeepsWatch` | files/js/npm/src/swoval_apple_file_system.hpp:200-206 | Pruning keeps every path below a stream watched if and only if a shortest string prefix is always a directory prefix. |
| `AppleFileSystem.StartKeepsApart` | files/js/npm/src/swoval_apple_file_system.hpp:86-91 | A stream is started only when no running one has a string prefix of its path; so no stream has a string prefix of one started later. |
| `AppleFileSystem.OnlyEarlierPruned` | files/js/npm/src/swoval_apple_file_system.hpp:193-208 | So of two streams only the earlier one is ever pruned in favour of the other. |
| `AppleFileSystem.NotADirectoryPrefix` | files/js/npm/src/swoval_apple_file_system.hpp:86-91 | The input: `/ab` is started, then `/a`, which replaces it and does not report it. |
| `AppleFileSystem.Handle.StartStream` | files/js/npm/src/swoval_apple_file_system.hpp:77-113 | The id of a running stream with a string prefix of the path, a new stream, or -1 when the run loop was stopped or the system refuses. |
| `AppleFileSystem.Handle.FindRedundant` | files/js/npm/src/swoval_apple_file_system.hpp:196-208 | The two nested loops collect exactly the redundant ids. |
| `AppleFileSystem.Handle.StopStreams` | files/js/npm/src/swoval_apple_file_system.hpp:211-217 | Stops the streams with the given ids that are still running. |
| `AppleFileSystem.Handle.Cleanup` | files/js/npm/src/swoval_apple_file_system.hpp:182-220 | Stops all streams of a run loop that was stopped; otherwise exactly the redundant streams and those queued for removal. |
| `AppleFileSystem.PrunedStreams` | files/js/npm/src/swoval_apple_file_system.hpp:193-217 | With nothing queued for removal: the survivors are apart, and each stream has a surviving string prefix. |
| `PollingPathWatchers.EntriesVisible` | files/jvm/src/main/java/com/swoval/files/PollingPathWatcher.java:114-130 | What is found for a registered path exists within its depth, with the kind that a lister reports and the value of its path (the registered path itself with its own attributes) ... |
| `PollingPathWatchers.VisibleEntry` | files/jvm/src/main/java/com/swoval/files/PollingPathWatcher.java:114-130 | ... and everything that does is found, but a directory that cannot be read. |
| `PollingPathWatchers.PollFindsAccepted` | files/jvm/src/main/java/com/swoval/files/PollingPathWatcher.java:132-147 | A poll finds exactly what exists and the registry accepts, when the registered directories can be read. |
| `PollingPathWatchers.PollReplays` | files/jvm/src/main/java/com/swoval/files/PollingPathWatcher.java:149-184 | Replaying the events of one poll leads from the old entries to the new ones. |
| `PollingPathWatchers.DifferenceReports` | files/jvm/src/main/java/com/swoval/files/PollingPathWatcher.java:150-175 | What the observers receive of one difference: a creation, deletion or modification for a path if and only if it is new, gone or has another value; each path once. |
| `PollingPathWatchers.PollsTelescope` | files/jvm/src/main/java/com/swoval/files/PollingPathWatcher.java:178-184 | Over any sequence of polls the events replayed on the first entries give the last ones. |
| `PollingPathWatchers.PollingPathWatcher.EntriesOf` | files/jvm/src/main/java/com/swoval/files/PollingPathWatcher.java:114-130 | Scans and lists a registered path with the cached directory, or reports the path itself when it is no directory. |
| `PollingPathWatchers.PollingPathWatcher.AddAll` | files/jvm/src/main/java/com/swoval/files/PollingPathWatcher.java:104-112 | Entries of the list replace those of the map. |
| `PollingPathWatchers.PollingPathWatcher.GetEntries` | files/jvm/src/main/java/com/swoval/files/PollingPathWatcher.java:132-147 | Collects the entries of all registered paths, in any order. |
| `PollingPathWatchers.PollingPathWatcher.Register` | files/jvm/src/main/java/com/swoval/files/PollingPathWatcher.java:65-74 | Adds the entries of the path silently, and registers it; of two depths the greater one counts. |
| `PollingPathWatchers.PollingPathWatcher.Run` | files/jvm/src/main/java/com/swoval/files/PollingPathWatcher.java:178-184 | Replaces the entries, and the observers receive one event for each path that is new, gone or has another value, of that kind and with the typed path of its entry, and no other event. |
| `PollingPathWatchers.PollingPathWatcher.NotifyObservers` | files/jvm/src/main/java/com/swoval/files/PollingPathWatcher.java:150-175 | Creations, deletions and the updates that change a value are emitted, in order; other updates are not. |

## Left out

What the repository does and the model does not:

- Following symbolic links: `isLoop`, `visited` sets, `SymlinkWatcher` and `SymlinkFollowingPathWatcher`. Links are listed as links; listing the path of a link counts as `NotDirectory`.
- `unregister`: dropping a root can uncover a registered path that is stored only through it, so what is proved of coverage and of remembered paths does not hold with it.
- `MacOSXWatchKey.addOverflow`: it takes no lock, and counts both an event and an overflow.
- `NioPathWatcher` but for the filter of its directories, and the lifetimes of watch keys.
- The race between polls and registrations of `PollingPathWatcher`, whose two `synchronized` blocks lock different objects: both are atomic here.
- Native streams themselves, run loops, callbacks into the run loop and all other foreign calls: whether the system starts a stream is a parameter, ids do not wrap around, and `memcmp` with a path shorter than that of the stream counts as a difference.
- Threads, executors, time-outs of locks (a lock is always obtained), loggers, `close`, and observers as lists of handles.
- A converter that depends on anything but the path, or whose exceptions differ between calls.
- `close` of a directory that has been replaced: the detached objects are not looked at again.
- `update` for a path outside the directory; callers supply absolute paths inside.
- `FileCacheDirectoryTree.list`, which does not cut the depth, and the `symlinks` lists of `handleEvent`.
- The order of events within one update and of entries within one listing, which follow hash maps: events are compared as sets, listings as multisets.
- FileCacheDirectoryTrees.FileCacheDirectoryTree.Register: the stored directories are values here, so in-place change of a stored directory seen through the object that `register` returned is not modelled; `CachedDirectories` relates the values to objects. The events of the update within an existing directory are dropped, as the source drops them.
- FileCacheCoverage.RunsCover: covers directories that can be read and depths of at least -1. A path that is no directory is stored with depth -1 whatever depth it was registered with, and a missing one is not stored.
- FileCacheListing.RegisteredListing: is stated for caches that were created without a filter of the caller's (the filter of the listing is any), and for a file system that stays as it is during the run.
- CacheSettles.Settles: is stated without a filter; `CacheFilters.UpdateSame` carries it over to any filter that accepts all within the depth limit.
- CacheSettlesListing.SettlesToListing: compares what is listed as sets. How often the settled cache and the scan list an entry can differ, since a directory at the depth limit is stored as a file by a scan and as a directory by an update (`CacheRefinesListing.ListCountMeans` counts both).
- FileCacheSettles.SettledListing: likewise for caches without a filter of the caller's, and for stored directories that still exist, and can be read when their own rescan is asked for (otherwise `handleEvent` drops them). Events for paths that no stored directory reaches are those of unregistered paths.
- CachedDirectories.CachedDirectory.AddDirectory: its events are stated for trees in which no name is both a file and a directory. In others two entries have one path, and which of them the source's maps keep depends on the order of a hash map; what becomes of the tree is stated for all.
- CachedDirectories.CachedDirectory.UpdateBranch: the same.
- CachedDirectories.CachedDirectory.UpdateImpl: the same.
- CachedDirectories.CachedDirectory.UpdateSelf: the same.
- CachedDirectories.CachedDirectory.Update: the same; its loop over the names is split into a walk and the step where it stops.
- FileCacheDirectoryTrees.Sorted: says only that no path comes before one that it extends, which is all the loops depend on.
- FileCacheDirectoryTrees.FileCacheDirectoryTree.HandleEvent: the order in which callbacks are recorded, and how often one callback is recorded for several directories, are left open: the source walks hash maps. What is recorded is stated as a set.
- FileCacheDirectoryTrees.FileCacheDirectoryTree.ListEntries: returns the set of the entries that the source returns as a list.
- CacheListing.OwnDepthListing: is about such trees as well.
