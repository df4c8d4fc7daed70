/**
 * Python's `sorted` on a list of strings, and the one strictly ascending
 * listing of a finite set of strings that every such sort must produce.
 */
module Sorting {
  import opened Text

  predicate Distinct(s: seq<string>) {
    forall i, j :: 0 <= i < j < |s| ==> s[i] != s[j]
  }

  predicate Sorted(s: seq<string>) {
    forall i, j :: 0 <= i < j < |s| ==> Le(s[i], s[j])
  }

  predicate StrictlySorted(s: seq<string>) {
    forall i, j :: 0 <= i < j < |s| ==> Less(s[i], s[j])
  }

  /** A strictly ascending list has no repetitions. */
  lemma StrictlySortedDistinct(s: seq<string>)
    requires StrictlySorted(s)
    ensures Distinct(s)
  {
    forall i, j | 0 <= i < j < |s| ensures s[i] != s[j] {
      LessIrreflexive(s[i]);
    }
  }

  /** A suffix of a strictly ascending list is strictly ascending. */
  lemma StrictlySortedSuffix(s: seq<string>, j: nat)
    requires StrictlySorted(s) && j <= |s|
    ensures StrictlySorted(s[j..])
  {
  }

  /** Putting an element in front of a sorted list keeps it sorted if it is no larger than the head. */
  lemma SortedCons(x: string, s: seq<string>)
    requires Sorted(s)
    requires |s| > 0 ==> Le(x, s[0])
    ensures Sorted([x] + s)
  {
    forall j | 0 <= j < |s| ensures Le(x, s[j]) {
      LeTransitive(x, s[0], s[j]);
    }
  }

  /** Inserts `x` before the first element it does not exceed. */
  function Insert(x: string, s: seq<string>): (r: seq<string>)
    ensures multiset(r) == multiset(s) + multiset{x}
  {
    if |s| == 0 then [x]
    else if Le(x, s[0]) then [x] + s
    else
      assert s == [s[0]] + s[1..];
      [s[0]] + Insert(x, s[1..])
  }

  /** `sorted(s)` */
  function InsertionSort(s: seq<string>): (r: seq<string>)
    ensures multiset(r) == multiset(s)
  {
    if |s| == 0 then []
    else
      assert s == [s[0]] + s[1..];
      Insert(s[0], InsertionSort(s[1..]))
  }

  lemma {:induction false} InsertSorted(x: string, s: seq<string>)
    requires Sorted(s)
    ensures Sorted(Insert(x, s))
  {
    if |s| == 0 {
    } else if Le(x, s[0]) {
      SortedCons(x, s);
    } else {
      var rest := Insert(x, s[1..]);
      InsertSorted(x, s[1..]);
      LessTotal(x, s[0]);
      assert s == [s[0]] + s[1..];
      assert Le(s[0], rest[0]) by {
        assert rest[0] in multiset(rest);
        if rest[0] != x {
          var m :| 0 <= m < |s[1..]| && s[1..][m] == rest[0];
          assert s[m + 1] == rest[0];
        }
      }
      SortedCons(s[0], rest);
    }
  }

  /** `sorted` puts its result in ascending order. */
  lemma {:induction false} InsertionSortSorted(s: seq<string>)
    ensures Sorted(InsertionSort(s))
  {
    if |s| > 0 {
      InsertionSortSorted(s[1..]);
      InsertSorted(s[0], InsertionSort(s[1..]));
    }
  }

  /** A list has no repeated element exactly when no element occurs twice in its multiset. */
  lemma {:induction false} DistinctIffSingleOccurrences(s: seq<string>)
    ensures Distinct(s) <==> forall x :: multiset(s)[x] <= 1
  {
    if |s| > 0 {
      var t := s[1..];
      assert s == [s[0]] + t;
      DistinctIffSingleOccurrences(t);
      if Distinct(s) {
        assert s[0] !in t;
        assert Distinct(t) by {
          forall i, j | 0 <= i < j < |t| ensures t[i] != t[j] {
            assert s[i + 1] != s[j + 1];
          }
        }
      }
      if forall x :: multiset(s)[x] <= 1 {
        assert multiset(s)[s[0]] == multiset(t)[s[0]] + 1;
        assert forall x :: multiset(t)[x] <= multiset(s)[x];
        forall i, j | 0 <= i < j < |s| ensures s[i] != s[j] {
          if i == 0 {
            assert s[j] in t;
          }
        }
      }
    }
  }

  /** Sorting a list without repetitions gives a strictly ascending list of the same elements. */
  lemma SortDistinct(s: seq<string>)
    requires Distinct(s)
    ensures StrictlySorted(InsertionSort(s))
    ensures |InsertionSort(s)| == |s|
    ensures forall x :: x in InsertionSort(s) <==> x in s
  {
    var r := InsertionSort(s);
    InsertionSortSorted(s);
    DistinctIffSingleOccurrences(s);
    DistinctIffSingleOccurrences(r);
    assert |multiset(r)| == |multiset(s)|;
    forall x ensures x in r <==> x in s {
      assert x in r <==> x in multiset(r);
      assert x in s <==> x in multiset(s);
    }
  }

  /** Two strictly ascending lists with the same elements are the same list. */
  lemma {:induction false} StrictlySortedUnique(a: seq<string>, b: seq<string>)
    requires StrictlySorted(a) && StrictlySorted(b)
    requires forall x :: x in a <==> x in b
    ensures a == b
  {
    if |a| > 0 {
      assert a[0] in b;
    }
    if |b| > 0 {
      assert b[0] in a;
    }
    if |a| > 0 && |b| > 0 {
      assert a[0] in a && b[0] in b;
      assert a == [a[0]] + a[1..] && b == [b[0]] + b[1..];
      var i :| 0 <= i < |b| && b[i] == a[0];
      var j :| 0 <= j < |a| && a[j] == b[0];
      if i > 0 && j > 0 {
        LessAsymmetric(a[0], a[j]);
      }
      if i > 0 && j == 0 {
        LessIrreflexive(b[0]);
      }
      if i == 0 && j > 0 {
        LessIrreflexive(a[0]);
      }
      assert a[0] == b[0];
      forall x ensures x in a[1..] <==> x in b[1..] {
        if x in a[1..] {
          var k :| 1 <= k < |a| && a[k] == x;
          LessIrreflexive(a[0]);
          assert x != b[0] && x in b;
        }
        if x in b[1..] {
          var k :| 1 <= k < |b| && b[k] == x;
          LessIrreflexive(b[0]);
          assert x != a[0] && x in a;
        }
      }
      StrictlySortedUnique(a[1..], b[1..]);
    }
  }

  /** The least element of a non-empty finite set of strings. */
  ghost function Least(s: set<string>): (m: string)
    requires s != {}
    ensures m in s && forall x :: x in s ==> Le(m, x)
    decreases |s|
  {
    var y :| y in s;
    var rest := s - {y};
    if rest == {} then
      assert forall x :: x in s ==> x !in rest;
      y
    else
      var m := Least(rest);
      LessTotal(y, m);
      if Less(y, m) then
        assert forall x :: x in s && x != y ==> x in rest && Le(m, x);
        LeTransitiveFrom(y, m, rest);
        y
      else
        assert forall x :: x in s && x != y ==> x in rest;
        m
  }

  /** Below the least element of a set lies below all of it. */
  lemma LeTransitiveFrom(y: string, m: string, rest: set<string>)
    requires Less(y, m) && forall x :: x in rest ==> Le(m, x)
    ensures forall x :: x in rest ==> Le(y, x)
  {
    forall x | x in rest ensures Le(y, x) {
      LeTransitive(y, m, x);
    }
  }

  /** The elements of a finite set of strings in ascending order. */
  ghost function SortedSet(s: set<string>): (r: seq<string>)
    ensures StrictlySorted(r)
    ensures forall x :: x in r <==> x in s
    ensures |r| == |s|
    decreases |s|
  {
    if s == {} then []
    else
      var m := Least(s);
      var rest := SortedSet(s - {m});
      assert forall x :: x in rest ==> Less(m, x);
      [m] + rest
  }
}
