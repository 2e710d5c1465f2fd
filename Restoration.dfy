/**
 Which backup folder the restore branch of GhostSaver/Program.cs copies back.
 */
module Restoration {
  import opened StringOrder
  import opened Linq

  /** The folder a restore copies back: `OrderBy(x => x).FirstOrDefault()` on the
      listing of the backup root. It is the name that sorts FIRST; none when the
      root is empty. That is the oldest snapshot only while names sort in time
      order, which the 12-hour timestamp breaks (see RestoreChoiceNotOldest). */
  function RestoreChoice(listing: seq<string>): (r: Option<string>)
    ensures r == None <==> listing == []
    ensures r.Some? ==> IsSmallest(r.value, Elements(listing))
  {
    SortedFirstIsSmallest(listing);
    FirstOrDefault(OrderBy(listing, false))
  }

  lemma SortedFirstIsSmallest(listing: seq<string>)
    ensures var r := OrderBy(listing, false);
      |r| == |listing| &&
      (r != [] ==> r[0] in listing && forall x :: x in listing ==> !Less(x, r[0]))
  {
    var r := OrderBy(listing, false);
    OrderBySorted(listing, false);
    assert |r| == |multiset(r)| == |multiset(listing)| == |listing|;
    if r != [] {
      assert r[0] in multiset(listing);
      forall x | x in listing
        ensures !Less(x, r[0])
      {
        assert x in multiset(r);
        var j :| 0 <= j < |r| && r[j] == x;
        if j == 0 {
          LessIrreflexive(x);
        }
      }
    }
  }

  /** The restore choice depends only on which folders exist, not on the order
      the enumeration lists them: repeated restores with no tick in between pick
      the same folder. */
  lemma RestoreChoiceDeterministic(a: seq<string>, b: seq<string>)
    requires forall x :: x in a <==> x in b
    ensures RestoreChoice(a) == RestoreChoice(b)
  {
    var ra, rb := RestoreChoice(a), RestoreChoice(b);
    if ra.Some? {
      assert a != [] && b != [] by { assert ra.value in a; }
      assert Elements(a) == Elements(b);
      SmallestUnique(Elements(a), ra.value, rb.value);
    }
  }

  /** The timestamp format `yyyyMMddhhmm` writes the hour on a 12-hour clock. The
      tick at 12:58 pm names its folder "202401011258" and the tick two minutes
      later, at 1:00 pm, names it "202401010100". With both folders kept, restore
      copies back the NEWER one, because its name sorts first. */
  lemma RestoreChoiceNotOldest()
    ensures RestoreChoice(["202401011258", "202401010100"]) == Some("202401010100")
  {
    var older, newer := "202401011258", "202401010100";
    LessAtFirstDifference(newer, older, 8);
    LessAsymmetric(newer, older);
    var r := RestoreChoice([older, newer]);
    assert r.value == older || r.value == newer;
  }
}
