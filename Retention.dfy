/**
 The eviction step of the backup worker (GhostSaver/Program.cs): which folders
 a completed tick deletes, and what the backup root holds after a run of ticks.
 */
module Retention {
  import opened StringOrder
  import opened Linq
  import opened Snapshots

  /** How many folders a tick keeps (`Skip(5)`). */
  const Kept: nat := 5

  /** The folders a completed tick deletes, given a listing of the backup root:
      sorted by name descending, the first five skipped. */
  function OldBackupFolders(listing: seq<string>): seq<string>
  {
    Skip(OrderBy(listing, true), Kept)
  }

  /** The names among `names` that sort after `n`. */
  function Outranked(n: string, names: set<string>): set<string>
  {
    set m | m in names && Less(n, m)
  }

  /** The names that fewer than five other names sort after: the ones eviction keeps. */
  function Survivors(names: set<string>): set<string>
  {
    set n | n in names && |Outranked(n, names)| < Kept
  }

  /** The backup root as eviction leaves it. */
  function Retain(root: Root): Root
  {
    map n | n in Survivors(root.Keys) :: root[n]
  }

  /** In a descending listing, the names sorting after the i-th entry are exactly
      the entries before it. */
  lemma RankIsIndex(r: seq<string>, names: set<string>, i: int)
    requires Lists(r, names) && Sorted(r, true)
    requires 0 <= i < |r|
    ensures Outranked(r[i], names) == Elements(r[..i])
    ensures |Outranked(r[i], names)| == i
  {
    forall m | m in names
      ensures Less(r[i], m) <==> m in r[..i]
    {
      var j :| 0 <= j < |r| && r[j] == m;
      if j < i {
        LessTotal(r[i], r[j]);
      } else if j == i {
        LessIrreflexive(m);
      }
    }
    assert Outranked(r[i], names) == Elements(r[..i]);
    DistinctCard(r[..i]);
  }

  /** The eviction list, whatever order the enumeration yields, holds exactly the
      names that at least five other names sort after. */
  lemma OldBackupFoldersByRank(listing: seq<string>, names: set<string>)
    requires Lists(listing, names)
    ensures Distinct(OldBackupFolders(listing))
    ensures forall n :: n in OldBackupFolders(listing) <==> n in names && n !in Survivors(names)
  {
    var r := OrderBy(listing, true);
    OrderByLists(listing, names, true);
    var doomed := OldBackupFolders(listing);
    assert doomed == Skip(r, Kept);
    forall n
      ensures n in doomed <==> n in names && n !in Survivors(names)
    {
      if n in names {
        var i :| 0 <= i < |r| && r[i] == n;
        RankIsIndex(r, names, i);
        if i >= Kept {
          assert doomed[i - Kept] == n;
        }
        if n in doomed {
          var j :| 0 <= j < |doomed| && doomed[j] == n;
          assert r[j + Kept] == n;
        }
      }
    }
  }

  /** Deleting the eviction list leaves exactly `Retain` of the root. */
  lemma EvictionRetains(root: Root, listing: seq<string>)
    requires Lists(listing, root.Keys)
    ensures root - Elements(OldBackupFolders(listing)) == Retain(root)
  {
    OldBackupFoldersByRank(listing, root.Keys);
  }

  /** A subset has no more names than its superset. */
  lemma SubsetCard(a: set<string>, b: set<string>)
    requires a <= b
    ensures |a| <= |b|
  {
    assert b == a + (b - a);
  }

  /** Eviction keeps the five greatest names, or all of them when there are fewer. */
  lemma SurvivorsCount(names: set<string>)
    ensures |Survivors(names)| == if |names| < Kept then |names| else Kept
  {
    var r := OrderBy(SomeListing(names), true);
    OrderByLists(SomeListing(names), names, true);
    var top := if |r| < Kept then |r| else Kept;
    forall n
      ensures n in Survivors(names) <==> n in r[..top]
    {
      if n in names {
        var i :| 0 <= i < |r| && r[i] == n;
        RankIsIndex(r, names, i);
      }
    }
    assert Survivors(names) == Elements(r[..top]);
    DistinctCard(r[..top]);
    DistinctCard(r);
    assert Elements(r) == names;
  }

  /** A name sorting after a survivor is itself a survivor. */
  lemma SurvivorsUpwardClosed(names: set<string>, k: string, e: string)
    requires k in Survivors(names) && e in names && Less(k, e)
    ensures e in Survivors(names)
  {
    forall m | m in Outranked(e, names)
      ensures m in Outranked(k, names)
    {
      LessTransitive(k, e, m);
    }
    SubsetCard(Outranked(e, names), Outranked(k, names));
  }

  /** Retention: at most five folders remain, they are the five greatest names
      (every survivor sorts after every evicted name), and each keeps its contents. */
  lemma RetainIsTopFive(root: Root)
    ensures |Retain(root)| == if |root| < Kept then |root| else Kept
    ensures forall n :: n in Retain(root) ==> n in root && Retain(root)[n] == root[n]
    ensures forall k, e :: k in Retain(root) && e in root && e !in Retain(root) ==> Less(e, k)
  {
    var names := root.Keys;
    SurvivorsCount(names);
    assert Retain(root).Keys == Survivors(names);
    forall k, e | k in Retain(root) && e in root && e !in Retain(root)
      ensures Less(e, k)
    {
      LessTotal(e, k);
      if Less(k, e) {
        SurvivorsUpwardClosed(names, k, e);
      }
    }
  }

  /** Among the names sorting after `x`, the survivors number as many as all of
      them, up to five. */
  lemma SurvivorsAbove(names: set<string>, x: string)
    ensures |Outranked(x, Survivors(names))| >= if |Outranked(x, names)| < Kept then |Outranked(x, names)| else Kept
  {
    var s := Survivors(names);
    var above := Outranked(x, names);
    var missing := above - s;
    if missing == {} {
      forall y | y in above
        ensures y in Outranked(x, s)
      {
        assert y !in missing;
      }
      SubsetCard(above, Outranked(x, s));
    } else {
      GreatestExists(missing);
      var m :| IsGreatest(m, missing);
      assert m in names && m !in s;
      assert |Outranked(m, names)| >= Kept;
      forall y | y in Outranked(m, names)
        ensures y in Outranked(x, s)
      {
        LessTransitive(x, m, y);
        assert y in above;
        assert y !in missing;
      }
      SubsetCard(Outranked(m, names), Outranked(x, s));
    }
  }

  /** Adding a name `t` that is not a survivor (new, or evicted earlier) to the
      survivors of `names` and evicting again keeps the same names as adding `t`
      to all of `names` and evicting once. */
  lemma SurvivorsAbsorb(names: set<string>, t: string)
    requires t !in Survivors(names)
    ensures Survivors(Survivors(names) + {t}) == Survivors(names + {t})
  {
    var s := Survivors(names);
    forall n | n in names + {t}
      ensures n in Survivors(s + {t}) <==> n in Survivors(names + {t})
    {
      SurvivorsAbsorbAt(names, t, n);
    }
  }

  lemma SurvivorsAbsorbAt(names: set<string>, t: string, n: string)
    requires t !in Survivors(names) && n in names + {t}
    ensures n in Survivors(Survivors(names) + {t}) <==> n in Survivors(names + {t})
  {
    var s := Survivors(names);
    var small := Outranked(n, s + {t});
    var big := Outranked(n, names + {t});
    SurvivorsAbove(names, n);
    if Less(n, t) {
      assert small == Outranked(n, s) + {t};
      assert big == Outranked(n, names) + {t};
    } else {
      assert small == Outranked(n, s);
      assert big == Outranked(n, names);
    }
    SubsetCard(small, big);
    if n != t && n in Survivors(names + {t}) {
      SubsetCard(Outranked(n, names), big);
    }
  }

  /** Evicting after every tick keeps the same folders as evicting once at the end:
      a tick that creates folder `t` on an evicted root (where `t` is absent: never
      created, or created and evicted before) leaves what one eviction over every
      folder, with `t` holding its new contents, would leave. */
  lemma RetainAbsorbs(root: Root, t: string, snapshot: Snapshot)
    requires t !in Retain(root)
    ensures Retain(Retain(root)[t := snapshot]) == Retain(root[t := snapshot])
  {
    assert Retain(root)[t := snapshot].Keys == Survivors(root.Keys) + {t};
    assert root[t := snapshot].Keys == root.Keys + {t};
    SurvivorsAbsorb(root.Keys, t);
  }

  /** Every folder a run of ticks creates: each tick's folder name with the watched
      directory it copied. */
  function Created(ticks: seq<(string, Snapshot)>): (r: Root)
    ensures forall i :: 0 <= i < |ticks| ==> ticks[i].0 in r
    ensures forall n :: n in r ==> exists i :: 0 <= i < |ticks| && ticks[i].0 == n
  {
    if ticks == [] then map[]
    else
      var last := ticks[|ticks| - 1];
      Created(ticks[..|ticks| - 1])[last.0 := last.1]
  }

  lemma MergeUpdate(a: Root, b: Root, k: string, v: Snapshot)
    ensures a + b[k := v] == (a + b)[k := v]
  {
  }

  /** The backup root after a run of ticks that each created their folder and completed. */
  function AfterTicks(root: Root, ticks: seq<(string, Snapshot)>): Root
  {
    if ticks == [] then root
    else
      var last := ticks[|ticks| - 1];
      Retain(AfterTicks(root, ticks[..|ticks| - 1])[last.0 := last.1])
  }

  /** After a nonempty run of completed ticks, each of whose names was absent from
      the backup root when it ran (a name may come back once its folder was
      evicted, as the 12-hour clock makes it do), the backup root is what a single
      eviction over every folder ever present would leave: with RetainIsTopFive,
      the five greatest names among them (all of them when fewer), each with the
      contents of the last tick that created it. */
  lemma {:induction false} AfterTicksRetains(root: Root, ticks: seq<(string, Snapshot)>)
    requires ticks != []
    requires forall i :: 0 <= i < |ticks| ==> ticks[i].0 !in AfterTicks(root, ticks[..i])
    ensures AfterTicks(root, ticks) == Retain(root + Created(ticks))
  {
    var n := |ticks|;
    var init, last := ticks[..n - 1], ticks[n - 1];
    var all := root + Created(init);
    assert AfterTicks(root, ticks) == Retain(AfterTicks(root, init)[last.0 := last.1]);
    assert Created(ticks) == Created(init)[last.0 := last.1];
    MergeUpdate(root, Created(init), last.0, last.1);
    if init == [] {
      assert all == root;
      assert ticks[..0] == [];
    } else {
      forall i | 0 <= i < |init|
        ensures init[i].0 !in AfterTicks(root, init[..i])
      {
        assert init[..i] == ticks[..i];
      }
      AfterTicksRetains(root, init);
      assert ticks[..n - 1] == init;
      RetainAbsorbs(all, last.0, last.1);
    }
  }
}
