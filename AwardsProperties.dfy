/**
 * What `getProducersAwardIntervals` promises about its result, stated over
 * the win years and interval lists defined in `AwardsService`.
 */
module AwardsProperties {
  import opened JavaText
  import opened CreditParser
  import opened Entities
  import opened YearSort
  import opened AwardsService

  // ----- Win years -----

  lemma {:induction false} CountPositive(names: seq<string>, p: string)
    ensures Count(names, p) > 0 <==> p in names
  {
    if names != [] {
      CountPositive(names[..|names| - 1], p);
      assert names == names[..|names| - 1] + [names[|names| - 1]];
    }
  }

  lemma {:induction false} RepeatMembers(z: int, k: nat, y: int)
    ensures y in Repeat(z, k) <==> k > 0 && y == z
  {
    if k > 0 {
      RepeatMembers(z, k - 1, y);
    }
  }

  /** `y` is a win year of `p` exactly when some winner of year `y` credits `p`. */
  lemma {:induction false} YearsByMembers(names: string -> seq<string>, winners: seq<Movie>, p: string, y: int)
    ensures y in YearsBy(names, winners, p) <==>
            exists k :: 0 <= k < |winners| && winners[k].year == y && p in names(winners[k].producers)
  {
    if winners != [] {
      var n := |winners|;
      var front := winners[..n - 1];
      var last := winners[n - 1];
      var own := Repeat(last.year, Count(names(last.producers), p));
      assert YearsBy(names, winners, p) == YearsBy(names, front, p) + own;
      assert y in own <==> last.year == y && p in names(last.producers) by {
        CountPositive(names(last.producers), p);
        RepeatMembers(last.year, Count(names(last.producers), p), y);
      }
      YearsByMembers(names, front, p, y);
      if y in YearsBy(names, front, p) {
        var k :| 0 <= k < n - 1 && front[k].year == y && p in names(front[k].producers);
        assert winners[k] == front[k];
      } else {
        forall k | 0 <= k < n - 1 ensures front[k] == winners[k] {
        }
      }
    }
  }

  /** Lines 26-34: `y` is a win year of `p` exactly when some winner of year `y` names `p` in its credits. */
  lemma YearsOfMembers(winners: seq<Movie>, p: string, y: int)
    ensures y in YearsOf(winners, p) <==>
            exists k :: 0 <= k < |winners| && winners[k].year == y && p in ProducerNames(winners[k].producers)
  {
    YearsByMembers(ProducerNames, winners, p, y);
  }

  lemma {:induction false} YearsByAppend(names: string -> seq<string>, a: seq<Movie>, b: seq<Movie>, p: string)
    ensures YearsBy(names, a + b, p) == YearsBy(names, a, p) + YearsBy(names, b, p)
  {
    if b == [] {
      assert a + b == a;
    } else {
      var c := b[..|b| - 1];
      var w := b[|b| - 1];
      var own := Repeat(w.year, Count(names(w.producers), p));
      YearsByAppend(names, a, c, p);
      assert (a + b)[..|a + b| - 1] == a + c && (a + b)[|a + b| - 1] == w;
      calc {
        YearsBy(names, a + b, p);
        YearsBy(names, a + c, p) + own;
        (YearsBy(names, a, p) + YearsBy(names, c, p)) + own;
        YearsBy(names, a, p) + (YearsBy(names, c, p) + own);
      }
    }
  }

  /** Taking the last element of `w1` and its match in `w2` out of both keeps the multisets equal. */
  lemma RemoveMatched<T>(w1: seq<T>, w2: seq<T>, k: nat)
    requires multiset(w1) == multiset(w2) && w1 != [] && k < |w2| && w2[k] == w1[|w1| - 1]
    ensures multiset(w1[..|w1| - 1]) == multiset(w2[..k] + w2[k + 1..])
  {
    var x := w2[k];
    var u, b, c := w1[..|w1| - 1], w2[..k], w2[k + 1..];
    assert multiset(u) + multiset{x} == multiset(w1) by {
      assert w1 == u + [x];
    }
    assert multiset(b + c) + multiset{x} == multiset(w2) by {
      assert w2 == (b + c)[..k] + [x] + (b + c)[k..];
      assert (b + c) == (b + c)[..k] + (b + c)[k..];
    }
    CancelOne(multiset(u), multiset(b + c), x);
  }

  lemma CancelOne<T>(m1: multiset<T>, m2: multiset<T>, x: T)
    requires m1 + multiset{x} == m2 + multiset{x}
    ensures m1 == m2
  {
    assert m1 == (m1 + multiset{x}) - multiset{x};
    assert m2 == (m2 + multiset{x}) - multiset{x};
  }

  lemma {:induction false} YearsByIgnoresOrder(names: string -> seq<string>, w1: seq<Movie>, w2: seq<Movie>, p: string)
    requires multiset(w1) == multiset(w2)
    ensures multiset(YearsBy(names, w1, p)) == multiset(YearsBy(names, w2, p))
  {
    if w1 == [] {
      assert |w2| == |multiset(w2)| == 0;
    } else {
      var k := FindLast(w1, w2);
      var rest := w2[..k] + w2[k + 1..];
      RemoveMatched(w1, w2, k);
      YearsByIgnoresOrder(names, w1[..|w1| - 1], rest, p);
      YearsByWithout(names, w1, |w1| - 1, p);
      YearsByWithout(names, w2, k, p);
    }
  }

  /** Where the last element of `w1` occurs in `w2`, when both hold the same elements. */
  lemma FindLast<T>(w1: seq<T>, w2: seq<T>) returns (k: nat)
    requires multiset(w1) == multiset(w2) && w1 != []
    ensures k < |w2| && w2[k] == w1[|w1| - 1]
  {
    assert w1 == w1[..|w1| - 1] + [w1[|w1| - 1]];
    assert w1[|w1| - 1] in multiset(w2);
    k :| 0 <= k < |w2| && w2[k] == w1[|w1| - 1];
  }

  /** The win years of a list are those of the list without its `k`-th winner, plus that winner's own. */
  lemma YearsByWithout(names: string -> seq<string>, w: seq<Movie>, k: nat, p: string)
    requires k < |w|
    ensures multiset(YearsBy(names, w, p)) ==
            multiset(YearsBy(names, w[..k] + w[k + 1..], p)) + multiset(YearsBy(names, [w[k]], p))
  {
    var before, after := w[..k], w[k + 1..];
    assert w == before + [w[k]] + after;
    YearsByAppend(names, before + [w[k]], after, p);
    YearsByAppend(names, before, [w[k]], p);
    YearsByAppend(names, before, after, p);
  }

  // ----- Intervals -----

  /** No element of `years` lies strictly between `lo` and `hi`. */
  predicate NoneBetween(years: seq<int>, lo: int, hi: int) {
    forall y <- years :: !(lo < y < hi)
  }

  lemma GapOfSorted(p: string, s: seq<int>, x: ProducerInterval)
    requires IsSorted(s) && x in Gaps(p, s)
    ensures x.producer == p && x.previousWin in s && x.followingWin in s
    ensures x.previousWin <= x.followingWin && NoneBetween(s, x.previousWin, x.followingWin)
    ensures x.interval == Int32Wrap(x.followingWin - x.previousWin)
  {
    var g := Gaps(p, s);
    GapsLength(p, s);
    var k :| 0 <= k < |g| && g[k] == x;
    GapsAt(p, s, k);
    assert x.previousWin == s[k] && x.followingWin == s[k + 1];
    forall y <- s ensures !(x.previousWin < y < x.followingWin) {
      var m :| 0 <= m < |s| && s[m] == y;
      if m < k {
        assert s[m] <= s[k];
      } else if m > k + 1 {
        assert s[k + 1] <= s[m];
      }
    }
  }

  /**
   * Lines 39-51: a producer with `k` >= 2 wins has `k - 1` intervals, and none
   * otherwise; each interval joins two of its wins with no win of the producer
   * strictly between them, and when both years lie in 0..`MaxInt32` its value
   * is their difference. `IntervalsJoinSortedNeighbours` gives the exact pairing.
   */
  lemma IntervalsAreConsecutiveWins(winners: seq<Movie>, p: string)
    ensures |IntervalsOf(winners, p)| ==
            if |YearsOf(winners, p)| < 2 then 0 else |YearsOf(winners, p)| - 1
    ensures forall x <- IntervalsOf(winners, p) ::
              x.producer == p && x.previousWin in YearsOf(winners, p) && x.followingWin in YearsOf(winners, p)
              && x.previousWin <= x.followingWin && NoneBetween(YearsOf(winners, p), x.previousWin, x.followingWin)
              && (0 <= x.previousWin && x.followingWin <= MaxInt32 ==> x.interval == x.followingWin - x.previousWin)
  {
    var ys := YearsOf(winners, p);
    var s := SortYears(ys);
    SortYearsSortsAndPermutes(ys);
    assert |s| == |multiset(s)| == |multiset(ys)| == |ys|;
    if |s| >= 2 {
      GapsAt(p, s, 0);
    }
    forall x <- IntervalsOf(winners, p)
      ensures x.producer == p && x.previousWin in ys && x.followingWin in ys
              && x.previousWin <= x.followingWin && NoneBetween(ys, x.previousWin, x.followingWin)
              && (0 <= x.previousWin && x.followingWin <= MaxInt32 ==> x.interval == x.followingWin - x.previousWin)
    {
      GapOfSorted(p, s, x);
      assert x.previousWin in multiset(s) && x.followingWin in multiset(s);
      forall y <- ys ensures !(x.previousWin < y < x.followingWin) {
        assert y in multiset(ys);
        assert y in s;
      }
    }
  }

  /**
   * Lines 41-48, exactly: interval `i` of a producer joins the `i`-th and the
   * next of its win years in ascending order, and carries their wrapped
   * difference.
   */
  lemma IntervalsJoinSortedNeighbours(winners: seq<Movie>, p: string, i: nat)
    requires i < |IntervalsOf(winners, p)|
    ensures var s := SortYears(YearsOf(winners, p));
            i + 1 < |s| &&
            IntervalsOf(winners, p)[i] == ProducerInterval(p, Int32Wrap(s[i + 1] - s[i]), s[i], s[i + 1])
  {
    var s := SortYears(YearsOf(winners, p));
    GapsLength(p, s);
    GapsAt(p, s, i);
  }

  lemma {:induction false} OfProducerCount(xs: seq<ProducerInterval>, x: ProducerInterval)
    ensures multiset(OfProducer(xs, x.producer))[x] == multiset(xs)[x]
  {
    if xs != [] {
      var n := |xs|;
      OfProducerCount(xs[..n - 1], x);
      assert xs == xs[..n - 1] + [xs[n - 1]];
    }
  }

  /**
   * An interval list holds each interval of each producer, as often as the
   * producer has it, and nothing else.
   */
  lemma IntervalListCounts(winners: seq<Movie>, all: seq<ProducerInterval>)
    requires IsIntervalList(winners, all)
    ensures forall x :: multiset(all)[x] == multiset(IntervalsOf(winners, x.producer))[x]
  {
    forall x ensures multiset(all)[x] == multiset(IntervalsOf(winners, x.producer))[x] {
      OfProducerCount(all, x);
    }
  }

  /** Two interval lists of the same winners differ only in order (the map's iteration order). */
  lemma IntervalListsAgree(winners: seq<Movie>, a: seq<ProducerInterval>, b: seq<ProducerInterval>)
    requires IsIntervalList(winners, a) && IsIntervalList(winners, b)
    ensures multiset(a) == multiset(b)
  {
    IntervalListCounts(winners, a);
    IntervalListCounts(winners, b);
    assert forall x :: multiset(a)[x] == multiset(b)[x];
  }

  // ----- The response -----

  /** Lines 53-55: the response lists are empty exactly when no producer has won twice. */
  lemma EmptyResponse(winners: seq<Movie>, all: seq<ProducerInterval>)
    requires IsIntervalList(winners, all)
    ensures SelectExtremes(all).min == [] <==> forall p :: |YearsOf(winners, p)| < 2
    ensures SelectExtremes(all).max == [] <==> forall p :: |YearsOf(winners, p)| < 2
  {
    SelectExtremesSpec(all);
    if all == [] {
      forall p ensures |YearsOf(winners, p)| < 2 {
        IntervalsAreConsecutiveWins(winners, p);
        assert OfProducer(all, p) == [];
      }
    } else {
      var x := all[0];
      IntervalListCounts(winners, all);
      assert multiset(all)[x] > 0;
      IntervalsAreConsecutiveWins(winners, x.producer);
      assert |YearsOf(winners, x.producer)| >= 2;
    }
  }

  /**
   * The response depends neither on the order of the winners nor on the
   * map's iteration order, except for the order within each list.
   */
  lemma ResponseIgnoresOrder(w1: seq<Movie>, w2: seq<Movie>, a1: seq<ProducerInterval>, a2: seq<ProducerInterval>)
    requires multiset(w1) == multiset(w2)
    requires IsIntervalList(w1, a1) && IsIntervalList(w2, a2)
    ensures multiset(SelectExtremes(a1).min) == multiset(SelectExtremes(a2).min)
    ensures multiset(SelectExtremes(a1).max) == multiset(SelectExtremes(a2).max)
  {
    forall p ensures OfProducer(a1, p) == IntervalsOf(w2, p) {
      YearsByIgnoresOrder(ProducerNames, w1, w2, p);
      SortYearsIgnoresOrder(YearsOf(w1, p), YearsOf(w2, p));
    }
    IntervalListsAgree(w2, a1, a2);
    SelectExtremesIgnoresOrder(a1, a2);
  }

  /** A year credited twice to a producer yields an interval of 0 from that year to itself. */
  lemma RepeatedYearGivesZeroInterval(winners: seq<Movie>, p: string, y: int)
    requires multiset(YearsOf(winners, p))[y] >= 2
    ensures exists x <- IntervalsOf(winners, p) :: x.interval == 0 && x.previousWin == y && x.followingWin == y
  {
    RepeatedYearGivesZeroGap(p, YearsOf(winners, p), y);
  }

  lemma RepeatedYearGivesZeroGap(p: string, ys: seq<int>, y: int)
    requires multiset(ys)[y] >= 2
    ensures exists x <- Gaps(p, SortYears(ys)) :: x.interval == 0 && x.previousWin == y && x.followingWin == y
  {
    var s := SortYears(ys);
    SortYearsSortsAndPermutes(ys);
    RepeatedYearIsAdjacent(s, y);
    var i :| 0 <= i < |s| - 1 && s[i] == y && s[i + 1] == y;
    GapsAt(p, s, i);
    var g := Gaps(p, s);
    assert g[i] in g && g[i].interval == 0 && g[i].previousWin == y && g[i].followingWin == y;
  }

  /** Two winners of the same year that both credit `p` give `p` an interval of 0. */
  lemma SameYearWinnersGiveZeroInterval(winners: seq<Movie>, p: string, i: nat, j: nat)
    requires i < j < |winners| && winners[i].year == winners[j].year
    requires p in ProducerNames(winners[i].producers) && p in ProducerNames(winners[j].producers)
    ensures exists x <- IntervalsOf(winners, p) :: x.interval == 0 && x.previousWin == winners[i].year
  {
    var y := winners[i].year;
    var a, b := winners[..j], winners[j..];
    assert winners == a + b;
    YearsByAppend(ProducerNames, a, b, p);
    assert a[i] == winners[i];
    YearsOfMembers(a, p, y);
    assert b[0] == winners[j];
    YearsOfMembers(b, p, y);
    assert multiset(YearsOf(winners, p)) == multiset(YearsOf(a, p)) + multiset(YearsOf(b, p));
    RepeatedYearGivesZeroInterval(winners, p, y);
  }

  // ----- The expectation of the integration test -----

  /** Four winners: `buzz` in 1985 and 1994, `steven` and `joel` in 1990, `joel` in 1991. */
  function ScenarioWinners(buzz: string, both: string, joel: string): seq<Movie>
  {
    [Movie(1985, "Rambo: First Blood Part II", "Tri-Star Pictures", buzz, true),
     Movie(1990, "The Adventures of Ford Fairlane", "20th Century Fox", both, true),
     Movie(1991, "Hudson Hawk", "Tri-Star Pictures", joel, true),
     Movie(1994, "Color of Night", "Hollywood Pictures", buzz, true)]
  }

  lemma ScenarioYears(buzz: string, both: string, joel: string, p: string)
    ensures YearsOf(ScenarioWinners(buzz, both, joel), p) ==
            Repeat(1985, Count(ProducerNames(buzz), p)) + Repeat(1990, Count(ProducerNames(both), p))
            + Repeat(1991, Count(ProducerNames(joel), p)) + Repeat(1994, Count(ProducerNames(buzz), p))
  {
    var w := ScenarioWinners(buzz, both, joel);
    var r0, r1 := Repeat(1985, Count(ProducerNames(buzz), p)), Repeat(1990, Count(ProducerNames(both), p));
    var r2, r3 := Repeat(1991, Count(ProducerNames(joel), p)), Repeat(1994, Count(ProducerNames(buzz), p));
    assert w[..4][..3] == w[..3] && w[..3][..2] == w[..2] && w[..2][..1] == w[..1] && w[..1][..0] == [];
    assert w[..4] == w;
    assert YearsBy(ProducerNames, w[..1], p) == r0;
    assert YearsBy(ProducerNames, w[..2], p) == r0 + r1;
    assert YearsBy(ProducerNames, w[..3], p) == r0 + r1 + r2;
    assert YearsBy(ProducerNames, w[..4], p) == r0 + r1 + r2 + r3;
  }

  lemma CountOne(a: string, p: string)
    ensures Count([a], p) == if a == p then 1 else 0
  {
    assert [a][..0] == [];
  }

  lemma CountPair(a: string, b: string, p: string)
    ensures Count([a, b], p) == (if a == p then 1 else 0) + (if b == p then 1 else 0)
  {
    assert [a, b][..1] == [a];
    CountOne(a, p);
  }

  /** Each producer's win years in the scenario. */
  lemma ScenarioYearsOf(buzz: string, steven: string, both: string, joel: string, p: string)
    requires buzz != joel && steven != joel && steven != buzz
    requires ProducerNames(buzz) == [buzz] && ProducerNames(joel) == [joel] && ProducerNames(both) == [steven, joel]
    ensures YearsOf(ScenarioWinners(buzz, both, joel), p) ==
            if p == joel then [1990, 1991] else if p == buzz then [1985, 1994]
            else if p == steven then [1990] else []
  {
    ScenarioYears(buzz, both, joel, p);
    CountOne(buzz, p);
    CountOne(joel, p);
    CountPair(steven, joel, p);
    assert Repeat(1985, 0) == [] && Repeat(1990, 0) == [] && Repeat(1991, 0) == [] && Repeat(1994, 0) == [];
    assert Repeat(1985, 1) == [1985] && Repeat(1990, 1) == [1990] && Repeat(1991, 1) == [1991] && Repeat(1994, 1) == [1994];
  }

  /** Each producer's intervals in the scenario. */
  lemma ScenarioIntervalsOf(buzz: string, steven: string, both: string, joel: string, p: string)
    requires buzz != joel && steven != joel && steven != buzz
    requires ProducerNames(buzz) == [buzz] && ProducerNames(joel) == [joel] && ProducerNames(both) == [steven, joel]
    ensures IntervalsOf(ScenarioWinners(buzz, both, joel), p) ==
            if p == joel then [ProducerInterval(joel, 1, 1990, 1991)]
            else if p == buzz then [ProducerInterval(buzz, 9, 1985, 1994)]
            else []
  {
    ScenarioYearsOf(buzz, steven, both, joel, p);
    if p == joel {
      assert SortYears([1990, 1991]) == [1990, 1991];
      assert Gaps(p, [1990, 1991]) == [ProducerInterval(p, Int32Wrap(1), 1990, 1991)];
    } else if p == buzz {
      assert SortYears([1985, 1994]) == [1985, 1994];
      assert Gaps(p, [1985, 1994]) == [ProducerInterval(p, Int32Wrap(9), 1985, 1994)];
    } else if p == steven {
      assert SortYears([1990]) == [1990];
    }
  }

  lemma ScenarioCount(buzz: string, steven: string, both: string, joel: string,
                      all: seq<ProducerInterval>, x: ProducerInterval)
    requires buzz != joel && steven != joel && steven != buzz
    requires ProducerNames(buzz) == [buzz] && ProducerNames(joel) == [joel] && ProducerNames(both) == [steven, joel]
    requires OfProducer(all, x.producer) == IntervalsOf(ScenarioWinners(buzz, both, joel), x.producer)
    ensures multiset(all)[x] ==
            multiset{ProducerInterval(joel, 1, 1990, 1991), ProducerInterval(buzz, 9, 1985, 1994)}[x]
  {
    OfProducerCount(all, x);
    ScenarioIntervalsOf(buzz, steven, both, joel, x.producer);
  }

  /** The interval list of the scenario holds exactly Joel's 1990-1991 and Buzz's 1985-1994 intervals. */
  lemma ScenarioIntervals(buzz: string, steven: string, both: string, joel: string, all: seq<ProducerInterval>)
    requires buzz != joel && steven != joel && steven != buzz
    requires ProducerNames(buzz) == [buzz] && ProducerNames(joel) == [joel] && ProducerNames(both) == [steven, joel]
    requires IsIntervalList(ScenarioWinners(buzz, both, joel), all)
    ensures multiset(all) == multiset{ProducerInterval(joel, 1, 1990, 1991), ProducerInterval(buzz, 9, 1985, 1994)}
  {
    forall x ensures multiset(all)[x] ==
                     multiset{ProducerInterval(joel, 1, 1990, 1991), ProducerInterval(buzz, 9, 1985, 1994)}[x]
    {
      ScenarioCount(buzz, steven, both, joel, all, x);
    }
  }

  lemma ExtremesOfPair(lo: ProducerInterval, hi: ProducerInterval)
    requires lo.interval < hi.interval
    ensures SelectExtremes([lo, hi]) == AwardIntervalResponse([lo], [hi])
    ensures SelectExtremes([hi, lo]) == AwardIntervalResponse([lo], [hi])
  {
    var a, b := [lo, hi], [hi, lo];
    assert a[1..] == [hi] && b[1..] == [lo] && [hi][1..] == [] && [lo][1..] == [];
    assert MinInterval([hi]) == MaxInterval([hi]) == hi.interval;
    assert MinInterval([lo]) == MaxInterval([lo]) == lo.interval;
    assert MinInterval(a) == lo.interval && MaxInterval(a) == hi.interval;
    assert MinInterval(b) == lo.interval && MaxInterval(b) == hi.interval;
    assert WithInterval(a, lo.interval) == [lo] + WithInterval([hi], lo.interval);
    assert WithInterval([hi], lo.interval) == [] + WithInterval([], lo.interval);
    assert WithInterval(a, hi.interval) == [] + WithInterval([hi], hi.interval);
    assert WithInterval([hi], hi.interval) == [hi] + WithInterval([], hi.interval);
    assert WithInterval(b, lo.interval) == [] + WithInterval([lo], lo.interval);
    assert WithInterval([lo], lo.interval) == [lo] + WithInterval([], lo.interval);
    assert WithInterval(b, hi.interval) == [hi] + WithInterval([lo], hi.interval);
    assert WithInterval([lo], hi.interval) == [] + WithInterval([], hi.interval);
  }

  /** A list holding exactly two intervals of different values. */
  lemma ExtremesOfTwo(all: seq<ProducerInterval>, lo: ProducerInterval, hi: ProducerInterval)
    requires lo.interval < hi.interval && multiset(all) == multiset{lo, hi}
    ensures SelectExtremes(all) == AwardIntervalResponse([lo], [hi])
  {
    assert |all| == 2 by {
      assert |all| == |multiset(all)|;
    }
    assert all[0] in multiset(all) && all[1] in multiset(all);
    assert all == [all[0], all[1]];
    assert multiset(all) == multiset{all[0]} + multiset{all[1]};
    ExtremesOfPair(lo, hi);
    if all[0] == lo {
      assert all[1] == hi;
      assert all == [lo, hi];
    } else {
      assert all[0] == hi && all[1] == lo;
      assert all == [hi, lo];
    }
  }

  /** The scenario's single credits each name one producer. */
  lemma SingleCredits()
    ensures ProducerNames("Buzz Feitshans") == ["Buzz Feitshans"]
    ensures ProducerNames("Joel Silver") == ["Joel Silver"]
  {
    PlainLiteral("Buzz Feitshans");
    PlainLiteral("Joel Silver");
    PlainName("Buzz Feitshans");
    PlainName("Joel Silver");
  }

  /** The scenario's shared credit names both producers, in order. */
  lemma SharedCredit()
    ensures ProducerNames("Steven Perry and Joel Silver") == ["Steven Perry", "Joel Silver"]
  {
    PlainLiteral("Steven Perry");
    PlainLiteral("Joel Silver");
    TwoNamesByAnd("Steven Perry", "Joel Silver");
    assert "Steven Perry" + " and " + "Joel Silver" == "Steven Perry and Joel Silver";
  }

  /**
   * AwardsControllerIntegrationTest.java lines 22-35: the least interval is
   * Joel Silver's single year (1990 to 1991) and the greatest Buzz Feitshans's
   * nine (1985 to 1994), whatever the map's iteration order. The test runs
   * on the movie list the application loads at start-up, which is not part
   * of this model; four winners of that list that produce the expected
   * extremes stand in for it.
   */
  lemma IntegrationTestScenario(buzz: string, both: string, joel: string, all: seq<ProducerInterval>)
    requires buzz == "Buzz Feitshans" && both == "Steven Perry and Joel Silver" && joel == "Joel Silver"
    requires IsIntervalList(ScenarioWinners(buzz, both, joel), all)
    ensures SelectExtremes(all) ==
            AwardIntervalResponse([ProducerInterval(joel, 1, 1990, 1991)], [ProducerInterval(buzz, 9, 1985, 1994)])
  {
    SingleCredits();
    SharedCredit();
    var steven := "Steven Perry";
    assert buzz != joel && steven != joel && steven != buzz;
    ScenarioIntervals(buzz, steven, both, joel, all);
    ExtremesOfTwo(all, ProducerInterval(joel, 1, 1990, 1991), ProducerInterval(buzz, 9, 1985, 1994));
  }
}
