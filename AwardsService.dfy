/**
 * `AwardsService.getProducersAwardIntervals`: the win years of every producer
 * named in the winners' credit strings, the gap between each producer's
 * consecutive wins, and the gaps equal to the least and to the greatest one.
 *
 * The repository query is an input (`winners`); nothing is assumed about its
 * order. `HashMap` iteration order is unspecified, so the interval list is
 * specified producer by producer and the response up to order.
 */
module AwardsService {
  import opened CreditParser
  import opened JavaText
  import opened Entities
  import opened YearSort

  // ----- Win years per producer -----

  /** How many times `p` occurs in `names`. */
  function Count(names: seq<string>, p: string): nat
  {
    if names == [] then 0
    else Count(names[..|names| - 1], p) + (if names[|names| - 1] == p then 1 else 0)
  }

  /** `k` copies of `y`. */
  function Repeat(y: int, k: nat): seq<int>
  {
    if k == 0 then [] else Repeat(y, k - 1) + [y]
  }

  /**
   * The win years `winners` credit to `p` when `names` reads the producer
   * names of a credit string: each winner's year once for every occurrence of
   * `p` among its names, in list order.
   */
  function YearsBy(names: string -> seq<string>, winners: seq<Movie>, p: string): seq<int>
  {
    if winners == [] then []
    else
      var w := winners[|winners| - 1];
      YearsBy(names, winners[..|winners| - 1], p) + Repeat(w.year, Count(names(w.producers), p))
  }

  /** The win years of `p`, the names read as on lines 27-31. */
  function YearsOf(winners: seq<Movie>, p: string): seq<int>
  {
    YearsBy(ProducerNames, winners, p)
  }

  lemma {:induction false} CountSnoc(names: seq<string>, n: seq<string>, p: string)
    requires |n| <= 1
    ensures Count(names + n, p) == Count(names, p) + (if n != [] && n[0] == p then 1 else 0)
  {
    if n == [] {
      assert names + n == names;
    } else {
      assert (names + n)[..|names + n| - 1] == names;
    }
  }

  lemma TrimmedNamesSnoc(ps: seq<string>, j: nat)
    requires j < |ps|
    ensures TrimmedNames(ps[..j + 1]) == TrimmedNames(ps[..j]) + NameOf(ps[j])
  {
    assert ps[..j + 1][..j] == ps[..j];
  }

  /** The years of `p` after `base` and the first credited names of a winner of `year`. */
  function Tally(base: seq<Movie>, year: int, names: seq<string>, p: string): seq<int>
  {
    YearsOf(base, p) + Repeat(year, Count(names, p))
  }

  /** `m` holds, for exactly the producers with a win so far, their years so far. */
  ghost predicate Tallies(m: map<string, seq<int>>, base: seq<Movie>, year: int, names: seq<string>) {
    forall p :: (p in m <==> Tally(base, year, names, p) != []) && (p in m ==> m[p] == Tally(base, year, names, p))
  }

  /** Appending `year` to the list of the one name in `n` (none when `n` is empty) records `n`. */
  lemma TallyStep(m: map<string, seq<int>>, base: seq<Movie>, year: int, names: seq<string>, n: seq<string>)
    requires |n| <= 1 && Tallies(m, base, year, names)
    ensures Tallies(if n == [] then m else m[n[0] := (if n[0] in m then m[n[0]] else []) + [year]],
                    base, year, names + n)
  {
    var m' := if n == [] then m else m[n[0] := (if n[0] in m then m[n[0]] else []) + [year]];
    forall p ensures (p in m' <==> Tally(base, year, names + n, p) != [])
                     && (p in m' ==> m'[p] == Tally(base, year, names + n, p))
    {
      CountSnoc(names, n, p);
      if n != [] && n[0] == p {
        assert Tally(base, year, names + n, p) == Tally(base, year, names, p) + [year];
      } else {
        assert Tally(base, year, names + n, p) == Tally(base, year, names, p);
      }
    }
  }

  /** Once every name of winner `k` is recorded, the tally covers `winners[..k + 1]`. */
  lemma TallyNextWinner(m: map<string, seq<int>>, winners: seq<Movie>, k: nat)
    requires k < |winners|
    requires Tallies(m, winners[..k], winners[k].year, ProducerNames(winners[k].producers))
    ensures Tallies(m, winners[..k + 1], 0, [])
  {
    assert winners[..k + 1][..k] == winners[..k];
  }

  /**
   * Lines 26-34: for every winner, for every piece of its split credit string,
   * the trimmed piece, unless empty, gets the winner's year appended to its list.
   * The map ends up holding, for exactly the credited producers, their win years.
   */
  method GroupWins(winners: seq<Movie>) returns (producerWins: map<string, seq<int>>)
    ensures forall p :: p in producerWins <==> YearsOf(winners, p) != []
    ensures forall p :: p in producerWins ==> producerWins[p] == YearsOf(winners, p)
  {
    producerWins := map[];
    for k := 0 to |winners|
      invariant Tallies(producerWins, winners[..k], 0, [])
    {
      var winner := winners[k];
      var producers := Split(winner.producers);
      assert Tallies(producerWins, winners[..k], winner.year, TrimmedNames(producers[..0]));
      for j := 0 to |producers|
        invariant Tallies(producerWins, winners[..k], winner.year, TrimmedNames(producers[..j]))
      {
        var trimmedName := Trim(producers[j]);
        TrimmedNamesSnoc(producers, j);
        TallyStep(producerWins, winners[..k], winner.year, TrimmedNames(producers[..j]), NameOf(producers[j]));
        if trimmedName != [] {
          var years := if trimmedName in producerWins then producerWins[trimmedName] else [];
          producerWins := producerWins[trimmedName := years + [winner.year]];
        }
      }
      assert producers[..|producers|] == producers;
      TallyNextWinner(producerWins, winners, k);
    }
    assert winners[..|winners|] == winners;
  }

  // ----- Intervals between consecutive wins -----

  /**
   * One interval per adjacent pair of `years`, in order; the difference is
   * taken in 32-bit `int` arithmetic, as on line 47.
   */
  function Gaps(producer: string, years: seq<int>): seq<ProducerInterval>
  {
    if |years| < 2 then []
    else [ProducerInterval(producer, Int32Wrap(years[1] - years[0]), years[0], years[1])] + Gaps(producer, years[1..])
  }

  /** The intervals of `p`: the gaps of its win years, sorted. */
  function IntervalsOf(winners: seq<Movie>, p: string): seq<ProducerInterval>
  {
    Gaps(p, SortYears(YearsOf(winners, p)))
  }

  /** The intervals of `xs` that belong to producer `p`, in order. */
  function OfProducer(xs: seq<ProducerInterval>, p: string): seq<ProducerInterval>
  {
    if xs == [] then []
    else OfProducer(xs[..|xs| - 1], p) + (if xs[|xs| - 1].producer == p then [xs[|xs| - 1]] else [])
  }

  /**
   * `all` lists, in some interleaving, exactly the intervals of every producer
   * `winners` credit, each producer's in ascending order of its wins.
   */
  ghost predicate IsIntervalList(winners: seq<Movie>, all: seq<ProducerInterval>) {
    forall p :: OfProducer(all, p) == IntervalsOf(winners, p)
  }

  /** The intervals the map's years give producer `p`; none for a producer not in the map. */
  function GapsOf(producerWins: map<string, seq<int>>, p: string): seq<ProducerInterval>
  {
    if p in producerWins then Gaps(p, SortYears(producerWins[p])) else []
  }

  /** The intervals of the producers of `order`, one producer after the other. */
  function Concat(producerWins: map<string, seq<int>>, order: seq<string>): seq<ProducerInterval>
  {
    if order == [] then []
    else Concat(producerWins, order[..|order| - 1]) + GapsOf(producerWins, order[|order| - 1])
  }

  predicate NoDuplicates(order: seq<string>) {
    forall i, j :: 0 <= i < j < |order| ==> order[i] != order[j]
  }

  lemma {:induction false} OfProducerAppend(a: seq<ProducerInterval>, b: seq<ProducerInterval>, p: string)
    ensures OfProducer(a + b, p) == OfProducer(a, p) + OfProducer(b, p)
  {
    if b == [] {
      assert a + b == a;
    } else {
      var c := b[..|b| - 1];
      OfProducerAppend(a, c, p);
      assert (a + b)[..|a + b| - 1] == a + c;
    }
  }

  /** Every interval of `xs` is of producer `q`. */
  predicate AllOf(xs: seq<ProducerInterval>, q: string) {
    forall k :: 0 <= k < |xs| ==> xs[k].producer == q
  }

  lemma {:induction false} OfProducerAllOf(xs: seq<ProducerInterval>, q: string, p: string)
    requires AllOf(xs, q)
    ensures OfProducer(xs, p) == if p == q then xs else []
  {
    if xs != [] {
      OfProducerAllOf(xs[..|xs| - 1], q, p);
    }
  }

  lemma {:induction false} GapsAllOf(q: string, years: seq<int>)
    ensures AllOf(Gaps(q, years), q)
  {
    if |years| >= 2 {
      GapsAllOf(q, years[1..]);
    }
  }

  lemma {:induction false} ConcatOfProducer(producerWins: map<string, seq<int>>, order: seq<string>, p: string)
    requires NoDuplicates(order)
    ensures OfProducer(Concat(producerWins, order), p) == if p in order then GapsOf(producerWins, p) else []
  {
    if order != [] {
      var front := order[..|order| - 1];
      var last := order[|order| - 1];
      var g := GapsOf(producerWins, last);
      assert Concat(producerWins, order) == Concat(producerWins, front) + g;
      assert NoDuplicates(front) && last !in front && (p in order <==> p in front || p == last) by {
        assert order == front + [last];
      }
      ConcatOfProducer(producerWins, front, p);
      assert OfProducer(g, p) == if p == last then g else [] by {
        if last in producerWins {
          GapsAllOf(last, SortYears(producerWins[last]));
        }
        OfProducerAllOf(g, last, p);
      }
      OfProducerAppend(Concat(producerWins, front), g, p);
    }
  }

  /** One interval fewer than years, and none for fewer than two. */
  lemma {:induction false} GapsLength(p: string, years: seq<int>)
    ensures |Gaps(p, years)| == if |years| < 2 then 0 else |years| - 1
  {
    if |years| >= 2 {
      GapsLength(p, years[1..]);
    }
  }

  /** Interval `i` is the gap between the `i`-th and the next year. */
  lemma {:induction false} GapsAt(p: string, years: seq<int>, i: nat)
    requires i < |years| - 1
    ensures |Gaps(p, years)| == |years| - 1
    ensures Gaps(p, years)[i] == ProducerInterval(p, Int32Wrap(years[i + 1] - years[i]), years[i], years[i + 1])
  {
    GapsLength(p, years);
    if i > 0 {
      GapsAt(p, years[1..], i - 1);
    }
  }


  /** `order` lists, once each, the keys of `producerWins` outside `pending`. */
  ghost predicate Processed(producerWins: map<string, seq<int>>, pending: set<string>, order: seq<string>) {
    pending <= producerWins.Keys && NoDuplicates(order) &&
    forall q :: q in order <==> q in producerWins && q !in pending
  }

  lemma ProcessedStep(producerWins: map<string, seq<int>>, pending: set<string>, order: seq<string>, q: string)
    requires Processed(producerWins, pending, order) && q in pending
    ensures Processed(producerWins, pending - {q}, order + [q])
  {
  }

  lemma AppendNext(done: seq<ProducerInterval>, gaps: seq<ProducerInterval>, i: nat)
    requires i < |gaps|
    ensures done + gaps[..i] + [gaps[i]] == done + gaps[..i + 1]
  {
    assert gaps[..i + 1] == gaps[..i] + [gaps[i]];
  }

  lemma ConcatSnoc(producerWins: map<string, seq<int>>, order: seq<string>, q: string,
                   all: seq<ProducerInterval>, gaps: seq<ProducerInterval>)
    requires q in producerWins && gaps == Gaps(q, SortYears(producerWins[q]))
    requires all == Concat(producerWins, order) + gaps
    ensures all == Concat(producerWins, order + [q])
  {
    assert (order + [q])[..|order|] == order;
  }

  lemma AllGaps(done: seq<ProducerInterval>, gaps: seq<ProducerInterval>)
    ensures done + gaps[..|gaps|] == done + gaps
  {
    assert gaps[..|gaps|] == gaps;
  }

  /**
   * Lines 43-50: when there are two or more years, one interval per adjacent
   * pair of the sorted `years` is appended to `allIntervals`.
   */
  method AppendGaps(allIntervals: seq<ProducerInterval>, producer: string, years: seq<int>)
    returns (extended: seq<ProducerInterval>)
    ensures extended == allIntervals + Gaps(producer, years)
  {
    extended := allIntervals;
    ghost var gaps := Gaps(producer, years);
    GapsLength(producer, years);
    if |years| > 1 {
      for i := 0 to |years| - 1
        invariant extended == allIntervals + gaps[..i]
      {
        var previousWin := years[i];
        var followingWin := years[i + 1];
        var interval := Int32Wrap(followingWin - previousWin);
        var x := ProducerInterval(producer, interval, previousWin, followingWin);
        assert allIntervals + gaps[..i] + [x] == allIntervals + gaps[..i + 1] by {
          GapsAt(producer, years, i);
          AppendNext(allIntervals, gaps, i);
        }
        extended := extended + [x];
      }
      assert extended == allIntervals + gaps by {
        GapsAt(producer, years, 0);
        AllGaps(allIntervals, gaps);
      }
    } else {
      assert allIntervals + gaps == allIntervals;
    }
  }

  /**
   * Lines 36-51: for every key of the map, in whatever order the map yields
   * them, the intervals of its sorted years appended.
   */
  method CollectIntervals(producerWins: map<string, seq<int>>) returns (allIntervals: seq<ProducerInterval>)
    ensures forall p :: OfProducer(allIntervals, p) == GapsOf(producerWins, p)
  {
    allIntervals := [];
    var pending := producerWins.Keys;
    ghost var order := [];
    while pending != {}
      invariant Processed(producerWins, pending, order)
      invariant allIntervals == Concat(producerWins, order)
      decreases |pending|
    {
      var producer :| producer in pending;
      var years := SortYears(producerWins[producer]);
      allIntervals := AppendGaps(allIntervals, producer, years);
      ConcatSnoc(producerWins, order, producer, allIntervals, Gaps(producer, years));
      ProcessedStep(producerWins, pending, order, producer);
      order := order + [producer];
      pending := pending - {producer};
    }
    forall p ensures OfProducer(allIntervals, p) == GapsOf(producerWins, p) {
      ConcatOfProducer(producerWins, order, p);
    }
  }

  // ----- The least and the greatest interval -----

  /** The least interval value of `all` (line 58). */
  function MinInterval(all: seq<ProducerInterval>): int
    requires all != []
  {
    if |all| == 1 then all[0].interval
    else
      var m := MinInterval(all[1..]);
      if all[0].interval <= m then all[0].interval else m
  }

  /** The greatest interval value of `all` (line 59). */
  function MaxInterval(all: seq<ProducerInterval>): int
    requires all != []
  {
    if |all| == 1 then all[0].interval
    else
      var m := MaxInterval(all[1..]);
      if all[0].interval >= m then all[0].interval else m
  }

  /** The intervals of `all` whose value is `v`, in order (lines 62-68). */
  function WithInterval(all: seq<ProducerInterval>, v: int): seq<ProducerInterval>
  {
    if all == [] then []
    else (if all[0].interval == v then [all[0]] else []) + WithInterval(all[1..], v)
  }

  /** Lines 53-70: no intervals give two empty lists, otherwise the minimum's and the maximum's ties. */
  function SelectExtremes(all: seq<ProducerInterval>): AwardIntervalResponse
  {
    if all == [] then AwardIntervalResponse([], [])
    else AwardIntervalResponse(WithInterval(all, MinInterval(all)), WithInterval(all, MaxInterval(all)))
  }

  /** `v` is no greater than any interval of `all`. */
  predicate IsLeast(all: seq<ProducerInterval>, v: int) {
    forall y <- all :: v <= y.interval
  }

  /** `v` is no less than any interval of `all`. */
  predicate IsGreatest(all: seq<ProducerInterval>, v: int) {
    forall y <- all :: y.interval <= v
  }

  /**
   * Lines 21-71. The response is the selection of the least and greatest
   * intervals from an interval list of `winners`; which one depends only on
   * the map's iteration order.
   */
  method GetProducersAwardIntervals(winners: seq<Movie>) returns (response: AwardIntervalResponse)
    ensures exists all :: IsIntervalList(winners, all) && response == SelectExtremes(all)
  {
    var producerWins := GroupWins(winners);
    var allIntervals := CollectIntervals(producerWins);
    forall p ensures OfProducer(allIntervals, p) == IntervalsOf(winners, p) {
      if p !in producerWins {
        assert YearsOf(winners, p) == [];
        assert SortYears([]) == [];
      }
    }
    response := SelectExtremes(allIntervals);
  }

  // ----- What the selection promises -----

  lemma {:induction false} MinIntervalIsLeast(all: seq<ProducerInterval>)
    requires all != []
    ensures IsLeast(all, MinInterval(all))
    ensures exists k :: 0 <= k < |all| && all[k].interval == MinInterval(all)
  {
    if |all| > 1 {
      MinIntervalIsLeast(all[1..]);
      var k :| 0 <= k < |all[1..]| && all[1..][k].interval == MinInterval(all[1..]);
      assert all[k + 1].interval == MinInterval(all[1..]);
      assert all == [all[0]] + all[1..];
    }
  }

  lemma {:induction false} MaxIntervalIsGreatest(all: seq<ProducerInterval>)
    requires all != []
    ensures IsGreatest(all, MaxInterval(all))
    ensures exists k :: 0 <= k < |all| && all[k].interval == MaxInterval(all)
  {
    if |all| > 1 {
      MaxIntervalIsGreatest(all[1..]);
      var k :| 0 <= k < |all[1..]| && all[1..][k].interval == MaxInterval(all[1..]);
      assert all[k + 1].interval == MaxInterval(all[1..]);
      assert all == [all[0]] + all[1..];
    }
  }

  /** The filter keeps every copy of the intervals with value `v` and nothing else. */
  lemma {:induction false} WithIntervalCount(all: seq<ProducerInterval>, v: int, x: ProducerInterval)
    ensures multiset(WithInterval(all, v))[x] == if x.interval == v then multiset(all)[x] else 0
  {
    if all != [] {
      WithIntervalCount(all[1..], v, x);
      assert all == [all[0]] + all[1..];
    }
  }

  /** The `min` list keeps every copy of each interval no greater than all the others, and nothing else. */
  lemma MinListCount(all: seq<ProducerInterval>, x: ProducerInterval)
    requires all != []
    ensures multiset(WithInterval(all, MinInterval(all)))[x] ==
            (if IsLeast(all, x.interval) then multiset(all)[x] else 0)
  {
    WithIntervalCount(all, MinInterval(all), x);
    MinIntervalIsLeast(all);
    if x in all {
      var i :| 0 <= i < |all| && all[i].interval == MinInterval(all);
      assert IsLeast(all, x.interval) <==> x.interval == MinInterval(all);
    }
  }

  /** The `max` list keeps every copy of each interval no less than all the others, and nothing else. */
  lemma MaxListCount(all: seq<ProducerInterval>, x: ProducerInterval)
    requires all != []
    ensures multiset(WithInterval(all, MaxInterval(all)))[x] ==
            (if IsGreatest(all, x.interval) then multiset(all)[x] else 0)
  {
    WithIntervalCount(all, MaxInterval(all), x);
    MaxIntervalIsGreatest(all);
    if x in all {
      var i :| 0 <= i < |all| && all[i].interval == MaxInterval(all);
      assert IsGreatest(all, x.interval) <==> x.interval == MaxInterval(all);
    }
  }

  /**
   * Lines 53-68: both lists are empty exactly when there are no intervals;
   * otherwise `min` holds every interval no greater than all the others, as
   * often as it occurs, and nothing else, and `max` likewise the greatest.
   */
  lemma SelectExtremesSpec(all: seq<ProducerInterval>)
    ensures SelectExtremes(all).min == [] <==> all == []
    ensures SelectExtremes(all).max == [] <==> all == []
    ensures forall x :: multiset(SelectExtremes(all).min)[x] ==
                        (if IsLeast(all, x.interval) then multiset(all)[x] else 0)
    ensures forall x :: multiset(SelectExtremes(all).max)[x] ==
                        (if IsGreatest(all, x.interval) then multiset(all)[x] else 0)
  {
    if all != [] {
      forall x ensures multiset(SelectExtremes(all).min)[x] ==
                       (if IsLeast(all, x.interval) then multiset(all)[x] else 0)
                    && multiset(SelectExtremes(all).max)[x] ==
                       (if IsGreatest(all, x.interval) then multiset(all)[x] else 0)
      {
        MinListCount(all, x);
        MaxListCount(all, x);
      }
      MinIntervalIsLeast(all);
      MaxIntervalIsGreatest(all);
      var i :| 0 <= i < |all| && all[i].interval == MinInterval(all);
      var j :| 0 <= j < |all| && all[j].interval == MaxInterval(all);
      assert multiset(SelectExtremes(all).min)[all[i]] > 0;
      assert multiset(SelectExtremes(all).max)[all[j]] > 0;
    }
  }

  lemma SameBounds(a: seq<ProducerInterval>, b: seq<ProducerInterval>, v: int)
    requires multiset(a) == multiset(b)
    ensures IsLeast(a, v) == IsLeast(b, v) && IsGreatest(a, v) == IsGreatest(b, v)
  {
    forall y ensures y in a <==> y in b {
      assert y in a <==> y in multiset(a);
      assert y in b <==> y in multiset(b);
    }
  }

  /** The selection depends only on which intervals there are, not on their order. */
  lemma SelectExtremesIgnoresOrder(a: seq<ProducerInterval>, b: seq<ProducerInterval>)
    requires multiset(a) == multiset(b)
    ensures multiset(SelectExtremes(a).min) == multiset(SelectExtremes(b).min)
    ensures multiset(SelectExtremes(a).max) == multiset(SelectExtremes(b).max)
  {
    if a != [] {
      assert b != [] by {
        assert |a| == |multiset(a)| == |multiset(b)| == |b|;
      }
      forall x ensures multiset(SelectExtremes(a).min)[x] == multiset(SelectExtremes(b).min)[x]
                    && multiset(SelectExtremes(a).max)[x] == multiset(SelectExtremes(b).max)[x]
      {
        MinListCount(a, x);
        MinListCount(b, x);
        MaxListCount(a, x);
        MaxListCount(b, x);
        SameBounds(a, b, x.interval);
      }
      assert multiset(SelectExtremes(a).min) == multiset(SelectExtremes(b).min);
      assert multiset(SelectExtremes(a).max) == multiset(SelectExtremes(b).max);
    } else {
      assert b == [] by {
        assert |a| == |multiset(a)| == |multiset(b)| == |b|;
      }
    }
  }
}
