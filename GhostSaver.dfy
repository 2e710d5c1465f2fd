/**
 The backup engine of GhostSaver/Program.cs as a sequential state machine:
 a backup root (folder name to snapshot) and the watched save-game directory
 (file name to bytes). `Tick` is one iteration of the background worker's
 loop body, `Restore` is the restore branch of the key loop; the lock both
 take makes each one atomic, so each runs here to completion.

 Copy failures are inputs: `failing` names the files whose `File.Copy` throws.
 */
module GhostSaver {
  import opened StringOrder
  import opened Linq
  import opened Snapshots
  import opened Retention
  import opened Restoration

  /** What a tick did, standing for what it writes to the console. */
  datatype TickOutcome =
    | AlreadyExists         // a folder of that name exists: nothing done
    | Completed             // folder created, every file copied, old folders evicted
    | CopyFailed(file: string)  // copying `file` threw; the tick stopped there

  /** What a restore did: "No backup to restore" or "Restored backup <folder>". */
  datatype RestoreOutcome = NoBackup | Restored(folder: string)

  /** A directory enumeration: every name once, in whatever order the file system yields. */
  method Enumerate(names: set<string>) returns (listing: seq<string>)
    ensures Lists(listing, names)
  {
    listing := [];
    var rest := names;
    while rest != {}
      invariant Distinct(listing)
      invariant forall x :: x in listing <==> x in names && x !in rest
      invariant rest <= names
      decreases rest
    {
      var x :| x in rest;
      listing := listing + [x];
      rest := rest - {x};
    }
  }

  /** The watched directory went from `before` to `after` by copying `snapshot` over
      it with overwrite, except for the files in `failing`: every copied file now
      holds the snapshot's bytes, every other file is as it was, nothing else appears. */
  ghost predicate CopiedOver(before: Snapshot, after: Snapshot, snapshot: Snapshot, failing: set<string>)
  {
    && after.Keys == before.Keys + (snapshot.Keys - failing)
    && (forall f :: f in snapshot && f !in failing ==> after[f] == snapshot[f])
    && (forall f :: f in before && (f !in snapshot || f in failing) ==> after[f] == before[f])
  }

  /** Copying a whole snapshot with no failure over a directory whose files all
      occur in the snapshot leaves exactly the snapshot. */
  lemma CopiedOverEverything(before: Snapshot, after: Snapshot, snapshot: Snapshot)
    requires CopiedOver(before, after, snapshot, {})
    requires before.Keys <= snapshot.Keys
    ensures after == snapshot
  {
  }

  class BackupManager {
    /** The backup root: one folder per snapshot. */
    var backups: Root
    /** The watched save-game directory. */
    var saves: Snapshot

    constructor (backups: Root, saves: Snapshot)
      ensures this.backups == backups && this.saves == saves
    {
      this.backups := backups;
      this.saves := saves;
    }

    /** One tick of the worker. `timestamp` is the folder name the clock gives;
        `files` is the order in which the watched directory is enumerated.
        A folder that already exists makes the tick a no-op. Otherwise the folder
        is created and the files copied into it without overwrite; the first
        failing copy ends the tick, leaving the partial folder and skipping eviction.
        When every copy succeeds, all but the five greatest folder names are deleted. */
    method Tick(timestamp: string, files: seq<string>, failing: set<string>) returns (outcome: TickOutcome)
      requires Lists(files, saves.Keys)
      modifies this`backups
      ensures saves == old(saves)
      ensures timestamp in old(backups) ==> outcome == AlreadyExists && backups == old(backups)
      ensures timestamp !in old(backups) ==>
        var k := FirstFailure(files, failing);
        if k < |files| then
          outcome == CopyFailed(files[k]) && backups == old(backups)[timestamp := Take(saves, files[..k])]
        else
          outcome == Completed && backups == Retain(old(backups)[timestamp := saves])
    {
      if timestamp in backups {
        return AlreadyExists;
      }
      backups := backups[timestamp := map[]];
      var k := CopySaves(timestamp, files, failing);
      if k < |files| {
        return CopyFailed(files[k]);
      }
      assert files[..k] == files;
      assert Take(saves, files) == saves;
      assert backups == old(backups)[timestamp := saves];
      EvictOldFolders();
      outcome := Completed;
    }

    /** The copy loop of a tick: each watched file, in enumeration order, is copied
        into the new folder `timestamp` without overwrite, until a copy fails.
        Returns how many files were copied. */
    method CopySaves(timestamp: string, files: seq<string>, failing: set<string>) returns (k: nat)
      requires Lists(files, saves.Keys)
      requires timestamp in backups && backups[timestamp] == map[]
      modifies this`backups
      ensures k == FirstFailure(files, failing)
      ensures backups == old(backups)[timestamp := Take(saves, files[..k])]
    {
      k := 0;
      while k < |files| && files[k] !in failing
        invariant k <= |files|
        invariant forall j :: 0 <= j < k ==> files[j] !in failing
        invariant backups == old(backups)[timestamp := Take(saves, files[..k])]
      {
        TakeStep(saves, files, k);
        // no overwrite: the fresh folder never holds a file of this name yet
        assert files[k] !in backups[timestamp];
        backups := backups[timestamp := backups[timestamp][files[k] := saves[files[k]]]];
        k := k + 1;
      }
      FirstFailureIs(files, failing, k);
    }

    /** The eviction of a tick: the folders listed by `OldBackupFolders` are deleted one by one. */
    method EvictOldFolders()
      modifies this`backups
      ensures backups == Retain(old(backups))
    {
      var listing := Enumerate(backups.Keys);
      var doomed := OldBackupFolders(listing);
      EvictionRetains(backups, listing);
      for i := 0 to |doomed|
        invariant backups == old(backups) - Elements(doomed[..i])
      {
        backups := backups - {doomed[i]};
        assert Elements(doomed[..i + 1]) == Elements(doomed[..i]) + {doomed[i]} by {
          assert doomed[..i + 1] == doomed[..i] + [doomed[i]];
        }
      }
      assert doomed[..|doomed|] == doomed;
    }

    /** Restore: the folder whose name sorts first is copied over the watched
        directory, file by file with overwrite; a failing copy is skipped and the
        rest go on. The backup root is only read. */
    method Restore(failing: set<string>) returns (outcome: RestoreOutcome)
      modifies this`saves
      ensures backups == old(backups)
      ensures outcome == NoBackup <==> backups == map[]
      ensures outcome == NoBackup ==> saves == old(saves)
      ensures outcome.Restored? ==>
        && IsSmallest(outcome.folder, backups.Keys)
        && CopiedOver(old(saves), saves, backups[outcome.folder], failing)
    {
      var listing := Enumerate(backups.Keys);
      var choice := RestoreChoice(listing);
      if choice == None {
        assert backups.Keys == {};
        return NoBackup;
      }
      var folder := choice.value;
      CopyBack(backups[folder], failing);
      outcome := Restored(folder);
    }

    /** The copy loop of a restore: each file of `snapshot` is copied over the
        watched directory with overwrite; a failing copy is skipped. */
    method CopyBack(snapshot: Snapshot, failing: set<string>)
      modifies this`saves
      ensures CopiedOver(old(saves), saves, snapshot, failing)
    {
      var files := Enumerate(snapshot.Keys);
      for i := 0 to |files|
        invariant saves.Keys == old(saves).Keys + (Elements(files[..i]) - failing)
        invariant forall f :: f in files[..i] && f !in failing ==> saves[f] == snapshot[f]
        invariant forall f :: f in old(saves) && (f !in files[..i] || f in failing) ==> saves[f] == old(saves)[f]
      {
        if files[i] !in failing {
          saves := saves[files[i] := snapshot[files[i]]];
        }
        assert files[..i + 1] == files[..i] + [files[i]];
      }
      assert files[..|files|] == files;
    }
  }

  /** A client of the contracts above: starting from an empty backup root, one tick
      snapshots `save1.dat` and `save2.dat`; `save1.dat` is then deleted from the
      watched directory and a restore brings it back with its original bytes, while
      `save2.dat` is overwritten with the same bytes. */
  method RestoreAfterDelete(save1: Bytes, save2: Bytes, timestamp: string) returns (restored: Snapshot)
    ensures restored == map["save1.dat" := save1, "save2.dat" := save2]
  {
    var saves := map["save1.dat" := save1, "save2.dat" := save2];
    var manager := new BackupManager(map[], saves);
    assert Lists(["save1.dat", "save2.dat"], saves.Keys);
    var ticked := manager.Tick(timestamp, ["save1.dat", "save2.dat"], {});
    assert FirstFailure(["save1.dat", "save2.dat"], {}) == 2;
    RetainIsTopFive(map[timestamp := saves]);
    assert manager.backups == map[timestamp := saves];
    manager.saves := manager.saves - {"save1.dat"};
    var outcome := manager.Restore({});
    assert outcome == Restored(timestamp);
    CopiedOverEverything(map["save2.dat" := save2], manager.saves, saves);
    restored := manager.saves;
  }
}
