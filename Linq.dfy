/**
 The LINQ operators the backup engine applies to directory listings:
 `OrderBy` / `OrderByDescending` keyed on the name itself, `Skip` and
 `FirstOrDefault`. A listing is what a directory enumeration yields: every
 name in the directory, once, in an order the file system decides.
 */
module Linq {
  import opened StringOrder

  datatype Option<T> = None | Some(value: T)

  /** `a` goes strictly before `b` in an ascending (or descending) sort. */
  predicate Before(a: string, b: string, descending: bool)
  {
    if descending then Less(b, a) else Less(a, b)
  }

  ghost predicate Sorted(s: seq<string>, descending: bool)
  {
    forall i, j :: 0 <= i < j < |s| ==> !Before(s[j], s[i], descending)
  }

  ghost predicate Distinct(s: seq<string>)
  {
    forall i, j :: 0 <= i < j < |s| ==> s[i] != s[j]
  }

  /** `s` lists every member of `names` exactly once. */
  ghost predicate Lists(s: seq<string>, names: set<string>)
  {
    Distinct(s) && forall x :: x in s <==> x in names
  }

  function Elements(s: seq<string>): set<string>
  {
    set x | x in s
  }

  lemma BeforeTotal(a: string, b: string, descending: bool)
    ensures a == b || Before(a, b, descending) || Before(b, a, descending)
  {
    LessTotal(a, b);
  }

  lemma BeforeAsymmetric(a: string, b: string, descending: bool)
    requires Before(a, b, descending)
    ensures !Before(b, a, descending)
  {
    if descending { LessAsymmetric(b, a); } else { LessAsymmetric(a, b); }
  }

  /** "May go before" is transitive. */
  lemma NotBeforeTransitive(a: string, b: string, c: string, descending: bool)
    requires !Before(b, a, descending) && !Before(c, b, descending)
    ensures !Before(c, a, descending)
  {
    BeforeTotal(a, b, descending);
    if Before(c, a, descending) && a != b {
      if descending { LessTransitive(b, a, c); } else { LessTransitive(c, a, b); }
    }
  }

  /** One insertion step: `x` goes in front of the first element it need not follow,
      so that it stays ahead of equal elements that came later in the input (a stable sort). */
  function Insert(x: string, s: seq<string>, descending: bool): (r: seq<string>)
    ensures multiset(r) == multiset(s) + multiset{x}
  {
    if s == [] || !Before(s[0], x, descending) then [x] + s
    else
      assert s == [s[0]] + s[1..];
      [s[0]] + Insert(x, s[1..], descending)
  }

  /** `OrderBy(x => x)` (ascending) or `OrderByDescending(x => x)` (descending). */
  function OrderBy(s: seq<string>, descending: bool): (r: seq<string>)
    ensures multiset(r) == multiset(s)
  {
    if s == [] then []
    else
      assert s == [s[0]] + s[1..];
      Insert(s[0], OrderBy(s[1..], descending), descending)
  }

  lemma {:induction false} InsertSorted(x: string, s: seq<string>, descending: bool)
    requires Sorted(s, descending)
    ensures Sorted(Insert(x, s, descending), descending)
  {
    var r := Insert(x, s, descending);
    if s == [] || !Before(s[0], x, descending) {
      forall j | 0 < j < |r|
        ensures !Before(r[j], r[0], descending)
      {
        assert r[j] == s[j - 1];
        if j > 1 {
          NotBeforeTransitive(x, s[0], s[j - 1], descending);
        }
      }
    } else {
      var t := Insert(x, s[1..], descending);
      InsertSorted(x, s[1..], descending);
      assert r == [s[0]] + t;
      forall j | 0 < j < |r|
        ensures !Before(r[j], r[0], descending)
      {
        assert r[j] == t[j - 1];
        assert t[j - 1] in multiset(t);
        if t[j - 1] == x {
          BeforeAsymmetric(s[0], x, descending);
        } else {
          assert t[j - 1] in multiset(s[1..]);
          var k :| 0 <= k < |s[1..]| && s[1..][k] == t[j - 1];
          assert s[k + 1] == t[j - 1];
        }
      }
    }
  }

  lemma {:induction false} OrderBySorted(s: seq<string>, descending: bool)
    ensures Sorted(OrderBy(s, descending), descending)
  {
    if s != [] {
      OrderBySorted(s[1..], descending);
      InsertSorted(s[0], OrderBy(s[1..], descending), descending);
    }
  }

  lemma DistinctByMultiset(s: seq<string>, r: seq<string>)
    requires multiset(r) == multiset(s) && Distinct(s)
    ensures Distinct(r)
  {
    forall i, j | 0 <= i < j < |r|
      ensures r[i] != r[j]
    {
      if r[i] == r[j] {
        var rest := r[..j] + r[j + 1..];
        assert r == rest[..j] + [r[j]] + rest[j..];
        assert r[i] == rest[i];
        assert multiset(r)[r[i]] >= 2;
        DistinctCountsOnce(s, r[i]);
        assert false;
      }
    }
  }

  /** A name occurs at most once in a sequence without repetitions. */
  lemma {:induction false} DistinctCountsOnce(s: seq<string>, x: string)
    requires Distinct(s)
    ensures multiset(s)[x] <= 1
  {
    if s != [] {
      assert s == [s[0]] + s[1..];
      DistinctCountsOnce(s[1..], x);
      if x == s[0] {
        assert x !in s[1..];
      }
    }
  }

  /** Sorting a listing of `names` gives a listing of `names`, now in sorted order. */
  lemma OrderByLists(s: seq<string>, names: set<string>, descending: bool)
    requires Lists(s, names)
    ensures Lists(OrderBy(s, descending), names)
    ensures Sorted(OrderBy(s, descending), descending)
  {
    var r := OrderBy(s, descending);
    OrderBySorted(s, descending);
    DistinctByMultiset(s, r);
    forall x
      ensures x in r <==> x in names
    {
      assert x in r <==> x in multiset(r);
      assert x in s <==> x in multiset(s);
    }
  }

  /** A sequence without repetitions has as many distinct elements as entries. */
  lemma {:induction false} DistinctCard(s: seq<string>)
    requires Distinct(s)
    ensures |Elements(s)| == |s|
  {
    if s != [] {
      DistinctCard(s[1..]);
      assert Elements(s) == {s[0]} + Elements(s[1..]);
      assert s[0] !in Elements(s[1..]);
    }
  }

  /** `Skip(n)`: everything after the first `n` entries. */
  function Skip(s: seq<string>, n: nat): seq<string>
  {
    if |s| <= n then [] else s[n..]
  }

  function FirstOrDefault(s: seq<string>): Option<string>
  {
    if s == [] then None else Some(s[0])
  }

  /** Some listing of a set exists (the order an enumeration happens to yield). */
  ghost function SomeListing(names: set<string>): (r: seq<string>)
    ensures Lists(r, names)
    decreases |names|
  {
    if names == {} then []
    else
      var x :| x in names;
      [x] + SomeListing(names - {x})
  }
}
