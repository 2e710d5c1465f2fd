/**
 The data the backup engine (GhostSaver/Program.cs) works on, and what the
 tick's copy loop has written when it stops. File and folder names are map
 keys; a snapshot maps file names to their bytes.
 */
module Snapshots {
  import opened Linq

  type Bytes = seq<bv8>
  /** A directory of files: file name to contents. */
  type Snapshot = map<string, Bytes>
  /** The backup root: folder name to the snapshot stored under it. */
  type Root = map<string, Snapshot>

  /** The files named in `names`, with their contents in `dir`: what a copy loop
      has written once it has visited `names`. */
  function Take(dir: Snapshot, names: seq<string>): Snapshot
  {
    map f | f in names && f in dir :: dir[f]
  }

  /** Copying one more file of a listing adds exactly that file, which was not
      there before. */
  lemma TakeStep(dir: Snapshot, files: seq<string>, k: nat)
    requires Distinct(files) && k < |files| && files[k] in dir
    ensures files[k] !in Take(dir, files[..k])
    ensures Take(dir, files[..k + 1]) == Take(dir, files[..k])[files[k] := dir[files[k]]]
  {
  }

  /** Where a copy loop over `files` stops: the index of the first file whose copy
      fails, or |files| when every copy succeeds. */
  function FirstFailure(files: seq<string>, failing: set<string>): (k: nat)
    ensures k <= |files|
    ensures forall j :: 0 <= j < k ==> files[j] !in failing
    ensures k < |files| ==> files[k] in failing
  {
    if files == [] || files[0] in failing then 0
    else 1 + FirstFailure(files[1..], failing)
  }

  /** A copy loop that stopped at `k`, having copied every file before it, stopped
      where `FirstFailure` says. */
  lemma FirstFailureIs(files: seq<string>, failing: set<string>, k: nat)
    requires k <= |files|
    requires forall j :: 0 <= j < k ==> files[j] !in failing
    requires k < |files| ==> files[k] in failing
    ensures FirstFailure(files, failing) == k
  {
  }
}
