/**
 * `years.stream().sorted().toList()` on a list of `Integer`: ascending natural
 * order. The model sorts by insertion and proves the result is the unique
 * ascending arrangement of the same multiset of years.
 */
module YearSort {

  predicate IsSorted(xs: seq<int>) {
    forall i, j :: 0 <= i < j < |xs| ==> xs[i] <= xs[j]
  }

  /** `x` placed before the first element of `xs` that is not smaller. */
  function Insert(x: int, xs: seq<int>): seq<int>
  {
    if xs == [] || x <= xs[0] then [x] + xs else [xs[0]] + Insert(x, xs[1..])
  }

  /** The ascending arrangement of `xs`. */
  function SortYears(xs: seq<int>): seq<int>
  {
    if xs == [] then [] else Insert(xs[0], SortYears(xs[1..]))
  }

  lemma {:induction false} InsertPermutes(x: int, xs: seq<int>)
    ensures multiset(Insert(x, xs)) == multiset{x} + multiset(xs)
  {
    if xs != [] && x > xs[0] {
      InsertPermutes(x, xs[1..]);
      assert xs == [xs[0]] + xs[1..];
    }
  }

  lemma {:induction false} InsertSorted(x: int, xs: seq<int>)
    requires IsSorted(xs)
    ensures IsSorted(Insert(x, xs))
  {
    if xs != [] && x > xs[0] {
      var r := Insert(x, xs[1..]);
      InsertSorted(x, xs[1..]);
      InsertPermutes(x, xs[1..]);
      forall k | 0 <= k < |r| ensures xs[0] <= r[k] {
        assert r[k] in multiset(r);
        if r[k] != x {
          assert r[k] in multiset(xs[1..]);
          var m :| 0 <= m < |xs[1..]| && xs[1..][m] == r[k];
          assert xs[m + 1] == r[k];
        }
      }
      var t := [xs[0]] + r;
      forall i, j | 0 <= i < j < |t| ensures t[i] <= t[j] {
        if i > 0 {
          assert t[i] == r[i - 1] && t[j] == r[j - 1];
        } else {
          assert t[j] == r[j - 1];
        }
      }
    }
  }

  /** The sorted list is ascending and holds the same years, duplicates included. */
  lemma {:induction false} SortYearsSortsAndPermutes(xs: seq<int>)
    ensures IsSorted(SortYears(xs))
    ensures multiset(SortYears(xs)) == multiset(xs)
  {
    if xs != [] {
      SortYearsSortsAndPermutes(xs[1..]);
      InsertSorted(xs[0], SortYears(xs[1..]));
      InsertPermutes(xs[0], SortYears(xs[1..]));
      assert xs == [xs[0]] + xs[1..];
    }
  }

  lemma SortedHeadIsLeast(a: seq<int>, y: int)
    requires IsSorted(a) && y in multiset(a)
    ensures a[0] <= y
  {
    var k :| 0 <= k < |a| && a[k] == y;
  }

  /** Two ascending lists with the same elements are the same list. */
  lemma {:induction false} SortedUnique(a: seq<int>, b: seq<int>)
    requires IsSorted(a) && IsSorted(b) && multiset(a) == multiset(b)
    ensures a == b
  {
    assert |a| == |multiset(a)| == |multiset(b)| == |b|;
    if a != [] {
      assert a[0] in multiset(a) && b[0] in multiset(b);
      SortedHeadIsLeast(a, b[0]);
      SortedHeadIsLeast(b, a[0]);
      SameTails(a, b);
      SortedUnique(a[1..], b[1..]);
      assert a == [a[0]] + a[1..];
      assert b == [b[0]] + b[1..];
    }
  }

  lemma SameTails(a: seq<int>, b: seq<int>)
    requires a != [] && b != [] && a[0] == b[0] && multiset(a) == multiset(b)
    ensures multiset(a[1..]) == multiset(b[1..])
  {
    assert a == [a[0]] + a[1..];
    assert b == [b[0]] + b[1..];
    calc {
      multiset(a[1..]);
      multiset(a) - multiset{a[0]};
      multiset(b) - multiset{b[0]};
      multiset(b[1..]);
    }
  }

  /** Sorting depends only on which years there are: reordering the input does not change the output. */
  lemma SortYearsIgnoresOrder(xs: seq<int>, ys: seq<int>)
    requires multiset(xs) == multiset(ys)
    ensures SortYears(xs) == SortYears(ys)
  {
    SortYearsSortsAndPermutes(xs);
    SortYearsSortsAndPermutes(ys);
    SortedUnique(SortYears(xs), SortYears(ys));
  }

  /** A year that occurs twice in an ascending list occurs in two adjacent places. */
  lemma {:induction false} RepeatedYearIsAdjacent(s: seq<int>, y: int)
    requires IsSorted(s) && multiset(s)[y] >= 2
    ensures exists i :: 0 <= i < |s| - 1 && s[i] == y && s[i + 1] == y
  {
    assert s == [s[0]] + s[1..];
    if s[0] == y {
      assert y in multiset(s[1..]);
      var k :| 0 <= k < |s[1..]| && s[1..][k] == y;
      assert s[1] <= s[k + 1];
      assert s[0] == y && s[1] == y;
    } else {
      RepeatedYearIsAdjacent(s[1..], y);
      var i :| 0 <= i < |s[1..]| - 1 && s[1..][i] == y && s[1..][i + 1] == y;
      assert s[i + 1] == y && s[i + 2] == y;
    }
  }
}
