# GhostSaver backup engine in Dafny

GhostSaver watches a directory of save-game files. A background worker runs once
a minute. Each run ("tick") copies the watched directory into a new folder of
the backup root, named by a timestamp, and keeps only five folders. On the `R`
key, the program copies one backup folder back over the watched directory. This
project models the tick, the eviction and the restore of
`GhostSaver/Program.cs` as one sequential state machine and proves what each of
them does.

- `StringOrder.dfy`: the ordinal lexicographic order on folder names (`Less`).
  It has lemmas that `Less` is a strict total order, that it is decided at the
  first differing character, and that a set of names has a unique smallest name
  and some greatest name.
- `Linq.dfy`: the LINQ operators the engine applies to directory listings.
  `OrderBy` is a stable insertion sort for both the ascending and the descending
  direction. It also holds `Skip`, `FirstOrDefault` and `Lists`, which says that
  a sequence lists each member of a set exactly once, as a directory enumeration
  does.
- `Snapshots.dfy`: the data (file contents, snapshots, the backup root).
  `Take` and `FirstFailure` describe what the tick's copy loop writes before it
  stops.
- `Retention.dfy`: the eviction step.
  - `OldBackupFolders` is `OrderByDescending().Skip(5)`.
  - `Survivors` and `Retain` give the reference definition of eviction: keep a
    folder when fewer than five names sort after it.
  - `AfterTicks` is the backup root after a run of completed ticks.
- `Restoration.dfy`: `RestoreChoice`, which is `OrderBy().FirstOrDefault()`.
- `GhostSaver.dfy`: the class `BackupManager`. Its field `backups` maps folder
  names to snapshots, and its field `saves` is the watched directory. The
  methods are `Tick` (with its loops `CopySaves` and `EvictOldFolders`) and
  `Restore` (with its loop `CopyBack`). `RestoreAfterDelete` is a client that
  walks through a tick, a deletion and a restore.

Behaviour the model keeps as the code has it:

- **Restore takes the smallest name.** `OrderBy(x => x).FirstOrDefault()`
  selects the name that sorts FIRST. That is the oldest snapshot only while
  names sort in time order, and the 12-hour clock (next item) breaks this: a
  1 pm folder sorts before a 12 pm one. The console text at Program.cs:20 and
  Program.cs:42 speaks of the "most recent" save, which the choice is not
  either. `RestoreChoice` and `Restore` state the smallest name, and
  `RestoreChoiceNotOldest` shows a newer folder being chosen over an older one.
- **Folder names are ordered as strings, not by time.** The tick's name format
  `yyyyMMddhhmm` (Program.cs:86) uses a 12-hour hour. Name order is therefore
  not chronological, and a morning tick and an afternoon tick can produce the
  same name. Once a folder has been evicted, its name can come back on a later
  tick. The model treats the timestamp as an arbitrary string and orders
  folders only by `Less`.
- **One failing copy stops the whole tick.** The tick's copy loop has no
  per-file `catch`. The first failing `File.Copy` ends the tick at the `catch`
  of Program.cs:122. The partly filled folder stays, and eviction is skipped
  for that tick. Restore, in contrast, catches failures per file.

Inputs that the running program takes from the environment are parameters
here:

- the timestamp string, which comes from `DateTime.Now`;
- the order in which the watched directory is enumerated (`files` of `Tick`).
  The file system decides this order, and it decides which files a failing tick
  has already copied;
- the set of file names whose copy throws (`failing`).

The order in which backup folders are enumerated is chosen inside `Enumerate`
by an arbitrary pick. Eviction and restore are proved not to depend on it.

## Model

| member | source | states |
|---|---|---|
| `StringOrder.LessIrreflexive` | GhostSaver/Program.cs:110-113 | no folder name sorts before itself |
| `StringOrder.LessAsymmetric` | GhostSaver/Program.cs:110-113 | two names are never each sorted before the other |
| `StringOrder.LessTransitive` | GhostSaver/Program.cs:110-113 | the name order used by `OrderBy`/`OrderByDescending` is transitive |
| `StringOrder.LessTotal` | GhostSaver/Program.cs:110-113 | any two distinct folder names are ordered one way or the other, so sorting a listing is well defined |
| `StringOrder.LessAtFirstDifference` | GhostSaver/Program.cs:110-113 | two names are ordered by their first differing character |
| `StringOrder.SmallestUnique` | GhostSaver/Program.cs:46-48 | a set of folder names has at most one smallest name, so the restore choice is fixed by the set of folders |
| `StringOrder.GreatestExists` | GhostSaver/Program.cs:110-113 | every nonempty set of folder names has a greatest name |
| `Linq.Insert` | GhostSaver/Program.cs:111 | one insertion step of the sort adds exactly the inserted name (multiset) |
| `Linq.InsertSorted` | GhostSaver/Program.cs:111 | inserting into a sorted listing keeps it sorted |
| `Linq.OrderBy` | GhostSaver/Program.cs:47 | `OrderBy`/`OrderByDescending` return a permutation of the listing (same multiset) |
| `Linq.OrderBySorted` | GhostSaver/Program.cs:111 | the result of `OrderBy`/`OrderByDescending` is sorted in the requested direction |
| `Linq.OrderByLists` | GhostSaver/Program.cs:110-111 | sorting a directory listing yields a sorted listing of the same folders, each once |
| `Linq.DistinctCard` | GhostSaver/Program.cs:110-113 | a listing without repeats has as many distinct folders as entries |
| `Linq.SomeListing` | GhostSaver/Program.cs:110 | every set of folders has some enumeration order |
| `Retention.RankIsIndex` | GhostSaver/Program.cs:110-112 | in a descending listing, the names that sort after entry i are exactly the i entries before it |
| `Retention.OldBackupFoldersByRank` | GhostSaver/Program.cs:110-113 | for any enumeration order, the folders after `Skip(5)` of the descending sort are exactly those that at least five other names sort after |
| `Retention.EvictionRetains` | GhostSaver/Program.cs:110-118 | deleting the eviction list leaves exactly `Retain` of the root |
| `Retention.SurvivorsCount` | GhostSaver/Program.cs:112 | eviction keeps min(5, number of folders) folders |
| `Retention.SurvivorsUpwardClosed` | GhostSaver/Program.cs:110-113 | a folder whose name sorts after a kept folder is also kept |
| `Retention.RetainIsTopFive` | GhostSaver/Program.cs:110-118 | after eviction at most five folders remain (exactly min(5, n)), every kept name sorts after every evicted one, and kept folders keep their contents |
| `Retention.SurvivorsAbove` | GhostSaver/Program.cs:110-113 | among the names above any name, the kept ones number as many as all of them, up to five |
| `Retention.SurvivorsAbsorb` | GhostSaver/Program.cs:110-118 | adding a name that is not kept (new or evicted earlier) to the kept folders and evicting again keeps the same names as one eviction over all folders |
| `Retention.SurvivorsAbsorbAt` | GhostSaver/Program.cs:110-118 | the same fact as `SurvivorsAbsorb`, for one name |
| `Retention.RetainAbsorbs` | GhostSaver/Program.cs:110-118 | a completed tick whose folder is absent from an evicted root (never created, or evicted before) leaves what a single eviction over all folders, with the new contents for that name, would leave |
| `Retention.Created` | GhostSaver/Program.cs:96-102 | a run of ticks creates a folder for every tick's name and for no other name |
| `Retention.AfterTicksRetains` | GhostSaver/Program.cs:89-119 | after any nonempty run of completed ticks, each of whose names was absent when it ran (names may recur after eviction), the backup root is `Retain` of every folder ever present: the five greatest names, each with the contents of the last tick that created it |
| `Snapshots.TakeStep` | GhostSaver/Program.cs:104-108 | copying the next listed file adds exactly that file, which the folder did not yet hold (the no-overwrite copy never collides) |
| `Snapshots.FirstFailure` | GhostSaver/Program.cs:104-108 | the copy loop stops at the first file whose copy fails; every file before it was copied |
| `Snapshots.FirstFailureIs` | GhostSaver/Program.cs:104-108 | a loop that copied every file before `k` and fails at `k` stopped where `FirstFailure` says |
| `Restoration.RestoreChoice` | GhostSaver/Program.cs:46-48 | the restore choice is None exactly when there are no folders; otherwise it is the smallest listed name (`IsSmallest`) |
| `Restoration.RestoreChoiceNotOldest` | GhostSaver/Program.cs:86 | with the 12-hour format, the folder of a 1:00 pm tick ("202401010100") is chosen over the older one of 12:58 pm ("202401011258") |
| `Restoration.SortedFirstIsSmallest` | GhostSaver/Program.cs:46-48 | the first entry of the ascending sort is the smallest listed name |
| `Restoration.RestoreChoiceDeterministic` | GhostSaver/Program.cs:46-48 | two enumerations of the same folders give the same choice, so repeated restores with no tick in between pick the same folder |
| `GhostSaver.Enumerate` | GhostSaver/Program.cs:110 | a directory enumeration lists every name exactly once, in an arbitrary order |
| `GhostSaver.CopiedOverEverything` | GhostSaver/Program.cs:56-68 | a restore with no failing copy, over a watched directory whose files all occur in the snapshot, leaves exactly the snapshot |
| `GhostSaver.BackupManager.constructor` | GhostSaver/Program.cs:13-14 | the engine starts from a given backup root and watched directory |
| `GhostSaver.BackupManager.Tick` | GhostSaver/Program.cs:93-119 | an existing folder name leaves everything unchanged; otherwise a failing copy leaves the new folder holding exactly the files listed before it, with no eviction; a completed tick leaves `Retain` of the old root plus the new folder, which holds exactly the watched directory; the watched directory never changes |
| `GhostSaver.BackupManager.CopySaves` | GhostSaver/Program.cs:104-108 | the copy loop fills the new folder with the files listed before the first failure, with their watched contents, and touches no other folder |
| `GhostSaver.BackupManager.EvictOldFolders` | GhostSaver/Program.cs:110-118 | deleting the folders of `OldBackupFolders` one by one leaves exactly `Retain` of the root |
| `GhostSaver.BackupManager.Restore` | GhostSaver/Program.cs:44-72 | with no folders, it reports NoBackup and changes nothing; otherwise it restores from the smallest-named folder; the backup root never changes |
| `GhostSaver.BackupManager.CopyBack` | GhostSaver/Program.cs:56-68 | every snapshot file whose copy succeeds now has the snapshot's bytes; a failed copy leaves its watched file as it was; files not in the snapshot are untouched; no other file appears |
| `GhostSaver.RestoreAfterDelete` | GhostSaver/Program.cs:44-72 | after one tick on an empty root, deleting `save1.dat` and restoring gives back both saves with the snapshotted bytes |

## Left out

- Console output and `Console.ReadKey`. The outcome datatypes `TickOutcome` and `RestoreOutcome` stand for the messages.
- The key loop of `Main` (Program.cs:33-78) is not modelled: `X` exits, anything other than `R` prints "Invalid key". It only reads keys. Its `R` branch is `Restore`.
- Configuration loading (`SaveGameLocation`) and the backup path built from `Environment.GetFolderPath`: the model starts from two maps. Path construction with `Path.Combine` is replaced by map keys.
- The background `Task`, its one-minute `Task.Delay`, and cancellation are not modelled. `AfterTicksRetains` describes a run of completed ticks as a sequence.
- The lock is not modelled: each operation runs to completion, which is what the lock guarantees between them.
- `DateTime.Now` and the rendering of the `yyyyMMddhhmm` format are not modelled. The timestamp is an input string.
- .NET's default string comparison for `OrderBy` is culture-sensitive. `Less` is ordinal (code-point) order. The two agree on names made of digits, such as the tick's timestamps.
- Failures other than a failing `File.Copy` are not modelled. This covers `Directory.CreateDirectory` and a missing watched directory, which end the tick at the same `catch`.
- A failing `Directory.Delete` during eviction would skip the remaining deletions. The model does not include it.
- When the backup root does not exist, restore's `Directory.EnumerateDirectories` throws outside any `try` and ends the program. The model does not include this: its backup root always exists.
- A failed `File.Copy` is modelled as writing nothing. A partly written destination file is not modelled.
- The watched directory is taken as fixed during a tick. Files added or removed while the tick copies are not modelled.
