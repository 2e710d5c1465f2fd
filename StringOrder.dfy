/**
 The order in which the backup engine sorts folder names. Both the restore
 choice (`OrderBy(x => x)`) and the eviction (`OrderByDescending(x => x)`)
 sort the full paths enumerated under the backup root; all of them share the
 root's prefix, so the order is that of the folder names themselves.

 `Less` is ordinal (code-point) lexicographic order: characters are compared
 one by one, and a proper prefix sorts before its extensions.
 */
module StringOrder {

  /** `a` sorts strictly before `b`. */
  predicate Less(a: string, b: string)
    decreases |a|
  {
    if |a| == 0 then |b| > 0
    else if |b| == 0 then false
    else a[0] < b[0] || (a[0] == b[0] && Less(a[1..], b[1..]))
  }

  lemma {:induction false} LessIrreflexive(a: string)
    ensures !Less(a, a)
    decreases |a|
  {
    if |a| > 0 {
      LessIrreflexive(a[1..]);
    }
  }

  lemma {:induction false} LessAsymmetric(a: string, b: string)
    requires Less(a, b)
    ensures !Less(b, a)
    decreases |a|
  {
    if |a| > 0 && |b| > 0 && a[0] == b[0] {
      LessAsymmetric(a[1..], b[1..]);
    }
  }

  lemma {:induction false} LessTransitive(a: string, b: string, c: string)
    requires Less(a, b) && Less(b, c)
    ensures Less(a, c)
    decreases |a|
  {
    if |a| > 0 && |b| > 0 && |c| > 0 && a[0] == b[0] && b[0] == c[0] {
      LessTransitive(a[1..], b[1..], c[1..]);
    }
  }

  /** Any two distinct names are ordered one way or the other. */
  lemma {:induction false} LessTotal(a: string, b: string)
    ensures a == b || Less(a, b) || Less(b, a)
    decreases |a|
  {
    if |a| > 0 && |b| > 0 && a[0] == b[0] {
      LessTotal(a[1..], b[1..]);
      if a[1..] == b[1..] {
        assert a == [a[0]] + a[1..];
        assert b == [b[0]] + b[1..];
      }
    }
  }

  /** Names are compared at their first differing character. */
  lemma {:induction false} LessAtFirstDifference(a: string, b: string, k: nat)
    requires k < |a| && k < |b| && a[..k] == b[..k] && a[k] < b[k]
    ensures Less(a, b)
    decreases k
  {
    if k > 0 {
      assert a[0] == a[..k][0] == b[..k][0] == b[0];
      assert a[1..][..k - 1] == a[..k][1..] == b[..k][1..] == b[1..][..k - 1];
      LessAtFirstDifference(a[1..], b[1..], k - 1);
    }
  }

  /** `n` is the name that sorts first among `names`. */
  ghost predicate IsSmallest(n: string, names: set<string>)
  {
    n in names && forall m :: m in names ==> !Less(m, n)
  }

  /** `n` is the name that sorts last among `names`. */
  ghost predicate IsGreatest(n: string, names: set<string>)
  {
    n in names && forall m :: m in names ==> !Less(n, m)
  }

  /** A set of names has at most one smallest name: the choice is determined by the set alone. */
  lemma SmallestUnique(names: set<string>, a: string, b: string)
    requires IsSmallest(a, names) && IsSmallest(b, names)
    ensures a == b
  {
    LessTotal(a, b);
  }

  /** Every nonempty set of names has a greatest one. */
  lemma {:induction false} GreatestExists(names: set<string>)
    requires names != {}
    ensures exists n :: IsGreatest(n, names)
    decreases |names|
  {
    var x :| x in names;
    var rest := names - {x};
    if rest == {} {
      assert names == {x};
      LessIrreflexive(x);
      assert IsGreatest(x, names);
    } else {
      GreatestExists(rest);
      var m :| IsGreatest(m, rest);
      LessTotal(m, x);
      if Less(m, x) {
        forall y | y in names
          ensures !Less(x, y)
        {
          if y == x {
            LessIrreflexive(x);
          } else if Less(x, y) {
            LessTransitive(m, x, y);
          }
        }
        assert IsGreatest(x, names);
      } else {
        assert IsGreatest(m, names);
      }
    }
  }
}
