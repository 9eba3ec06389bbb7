/** What the window columns of the catalog mean over the result table: a running
    sum ordered by year is a prefix sum of the sorted table that restarts with each
    country and ends at the country total; the rounded shares of one partition add
    up to 100% within half a hundredth per row; `RANK()` gives tied groups the same
    rank and a strictly higher rate a strictly smaller one. */
module Windows {
  import opened Basics
  import opened Values
  import opened Grouping
  import opened Rounding
  import opened Ordering
  import opened Query

  // ---------------------------------------------------------------------------
  // Shares of a partition
  // ---------------------------------------------------------------------------

  function ShareIn(hs: seq<Group>, prefix: nat): Group -> int
  {
    h => ShareOf(hs, h, prefix)
  }

  /** Groups of one partition see one partition, and so one total. */
  lemma SamePartitionSameTotal(hs: seq<Group>, g: Group, h: Group, prefix: nat)
    requires PartitionKey(h, prefix) == PartitionKey(g, prefix)
    ensures PartitionOf(hs, h, prefix) == PartitionOf(hs, g, prefix)
  {
    FilterPointwise(hs, SamePartition(h, prefix), SamePartition(g, prefix));
  }

  /** The displayed shares of the groups in one partition add up to 100% up to
      rounding: with `n` groups, `-n < 2 * (sum - 10000) <= n` in hundredths. */
  lemma PartitionSharesSum(hs: seq<Group>, g: Group, prefix: nat)
    requires g in hs
    requires forall h :: h in hs ==> h.stops >= 1
    ensures var part := PartitionOf(hs, g, prefix);
            -|part| < 2 * (SumBy(part, ShareIn(hs, prefix)) - 10000) <= |part|
  {
    var part := PartitionOf(hs, g, prefix);
    var total := SumBy(part, StopsOf);
    assert g in part;
    var k :| 0 <= k < |part| && part[k] == g;
    SumByAtLeastTerm(part, StopsOf, k);
    forall i | 0 <= i < |part|
      ensures ShareIn(hs, prefix)(part[i]) == ShareTerm(StopsOf, total)(part[i])
    {
      assert part[i] in part;
      SamePartitionSameTotal(hs, g, part[i], prefix);
    }
    SumByPointwise(part, ShareIn(hs, prefix), ShareTerm(StopsOf, total));
    SharesOfWholeSum(part, StopsOf);
  }

  // ---------------------------------------------------------------------------
  // Running sums by country and year
  // ---------------------------------------------------------------------------

  /** `ORDER BY country_name, year`. */
  const COUNTRY_YEAR: seq<SortKey> := [ByKey(0, true), ByKey(1, true)]

  /** Within one country, sorted rows have non-decreasing years. */
  lemma YearsAscendWithinCountry(a: Group, b: Group)
    requires |a.key| == 2 && |b.key| == 2
    requires Before(a, b, COUNTRY_YEAR)
    requires a.key[0] == b.key[0]
    ensures !ValueLt(b.key[1], a.key[1])
  {
    assert COUNTRY_YEAR[1..] == [ByKey(1, true)];
    assert COUNTRY_YEAR[1..][1..] == [];
    if a.key[1] != b.key[1] {
      ValueLtAsymmetric(a.key[1], b.key[1]);
    } else {
      ValueLtIrreflexive(a.key[1]);
    }
  }

  lemma PartitionByCountry(a: Group, b: Group)
    requires |a.key| == 2 && |b.key| == 2
    ensures PartitionKey(a, 1) == PartitionKey(b, 1) <==> a.key[0] == b.key[0]
  {
    if a.key[0] == b.key[0] {
      assert a.key[..1] == [a.key[0]];
      assert b.key[..1] == [b.key[0]];
    } else {
      assert a.key[..1][0] == a.key[0];
    }
  }

  /** The window frame of row `i` of the sorted table, restricted to the rows up to `i`,
      is the rows of the same country up to `i`; past `i` it holds no row. */
  lemma FrameIsCountryPrefix(ss: seq<Group>, i: nat)
    requires Sorted(ss, COUNTRY_YEAR) && DistinctKeys(ss)
    requires forall h :: h in ss ==> |h.key| == 2
    requires i < |ss|
    ensures Filter(ss[..i + 1], InFrame(ss[i], 1, 1)) == Filter(ss[..i + 1], SamePartition(ss[i], 1))
    ensures Filter(ss[i + 1..], InFrame(ss[i], 1, 1)) == []
  {
    FrameBeforeRow(ss, i);
    FrameAfterRow(ss, i);
  }

  /** Up to row `i`, the frame of row `i` is its country. */
  lemma FrameBeforeRow(ss: seq<Group>, i: nat)
    requires Sorted(ss, COUNTRY_YEAR)
    requires forall h :: h in ss ==> |h.key| == 2
    requires i < |ss|
    ensures Filter(ss[..i + 1], InFrame(ss[i], 1, 1)) == Filter(ss[..i + 1], SamePartition(ss[i], 1))
  {
    var g := ss[i];
    var front := ss[..i + 1];
    assert g in ss;
    forall j | 0 <= j < |front|
      ensures InFrame(g, 1, 1)(front[j]) == SamePartition(g, 1)(front[j])
    {
      var h := ss[j];
      assert h in ss;
      PartitionByCountry(h, g);
      if h.key[0] == g.key[0] {
        if j < i {
          YearsAscendWithinCountry(h, g);
        } else {
          ValueLtIrreflexive(g.key[1]);
        }
      }
    }
    FilterPointwise(front, InFrame(g, 1, 1), SamePartition(g, 1));
  }

  /** Past row `i`, the frame of row `i` holds no row. */
  lemma FrameAfterRow(ss: seq<Group>, i: nat)
    requires Sorted(ss, COUNTRY_YEAR) && DistinctKeys(ss)
    requires forall h :: h in ss ==> |h.key| == 2
    requires i < |ss|
    ensures Filter(ss[i + 1..], InFrame(ss[i], 1, 1)) == []
  {
    var g := ss[i];
    var back := ss[i + 1..];
    assert g in ss;
    forall j | 0 <= j < |back|
      ensures !InFrame(g, 1, 1)(back[j])
    {
      var h := ss[i + 1 + j];
      assert h in ss;
      PartitionByCountry(h, g);
      if h.key[0] == g.key[0] {
        LaterYearInCountry(g, h);
      }
    }
    FilterEmpty(back, InFrame(g, 1, 1));
  }

  /** A later row of the same country, with a different key, has a later year. */
  lemma LaterYearInCountry(g: Group, h: Group)
    requires |g.key| == 2 && |h.key| == 2
    requires Before(g, h, COUNTRY_YEAR) && g.key != h.key && g.key[0] == h.key[0]
    ensures ValueLt(g.key[1], h.key[1])
  {
    YearsAscendWithinCountry(g, h);
    assert g.key == [g.key[0], g.key[1]] && h.key == [h.key[0], h.key[1]];
    ValueLtTrichotomy(g.key[1], h.key[1]);
  }

  /** In a table holding the surviving groups sorted by country and year, the running
      sum of row `i` is the sum over the rows of its country up to and including row `i`. */
  lemma RunningSumIsPrefixSum(hs: seq<Group>, ss: seq<Group>, f: Group -> int, i: nat)
    requires multiset(ss) == multiset(hs)
    requires Sorted(ss, COUNTRY_YEAR) && DistinctKeys(ss)
    requires forall h :: h in ss ==> |h.key| == 2
    requires i < |ss|
    ensures RunningSum(hs, ss[i], 1, 1, f) == SumBy(Filter(ss[..i + 1], SamePartition(ss[i], 1)), f)
  {
    var frame := InFrame(ss[i], 1, 1);
    FilterPermutation(hs, ss, frame);
    SumByPermutation(Filter(hs, frame), Filter(ss, frame), f);
    FrameIsCountryPrefix(ss, i);
    FilterEmptyTail(ss, i + 1, frame);
  }

  /** The last row of a country carries the country's totals over all its rows. */
  lemma LastRowOfCountryIsTotal(hs: seq<Group>, ss: seq<Group>, f: Group -> int, i: nat)
    requires multiset(ss) == multiset(hs)
    requires Sorted(ss, COUNTRY_YEAR) && DistinctKeys(ss)
    requires forall h :: h in ss ==> |h.key| == 2
    requires i < |ss|
    requires forall j :: i < j < |ss| ==> !SamePartition(ss[i], 1)(ss[j])
    ensures RunningSum(hs, ss[i], 1, 1, f) == SumBy(PartitionOf(hs, ss[i], 1), f)
  {
    var same := SamePartition(ss[i], 1);
    RunningSumIsPrefixSum(hs, ss, f, i);
    var back := ss[i + 1..];
    forall j | 0 <= j < |back| ensures !same(back[j]) {
      assert back[j] == ss[i + 1 + j];
    }
    FilterEmpty(back, same);
    FilterEmptyTail(ss, i + 1, same);
    FilterPermutation(hs, ss, same);
    SumByPermutation(Filter(hs, same), Filter(ss, same), f);
  }

  // ---------------------------------------------------------------------------
  // RANK()
  // ---------------------------------------------------------------------------

  /** Groups with equal rates share a rank. */
  lemma TiedRatesShareRank(hs: seq<Group>, g: Group, h: Group, m: Measure)
    requires MeasureValue(g, m) == MeasureValue(h, m)
    ensures RankOf(hs, g, m) == RankOf(hs, h, m)
  {
    CountIfPointwise(hs, RatesAbove(g, m), RatesAbove(h, m));
  }

  /** A group of the table with a strictly higher rate has a strictly smaller rank. */
  lemma HigherRateSmallerRank(hs: seq<Group>, g: Group, h: Group, m: Measure)
    requires g in hs
    requires ValueLt(MeasureValue(h, m), MeasureValue(g, m))
    ensures RankOf(hs, g, m) < RankOf(hs, h, m)
  {
    forall i | 0 <= i < |hs| && RatesAbove(g, m)(hs[i]) ensures RatesAbove(h, m)(hs[i]) {
      ValueLtTransitive(MeasureValue(h, m), MeasureValue(g, m), MeasureValue(hs[i], m));
    }
    var k :| 0 <= k < |hs| && hs[k] == g;
    ValueLtIrreflexive(MeasureValue(g, m));
    CountIfStrictlyMore(hs, RatesAbove(g, m), RatesAbove(h, m), k);
  }

  /** A group whose rate no group of the table exceeds is ranked first. */
  lemma TopRateRanksFirst(hs: seq<Group>, g: Group, m: Measure)
    requires forall h :: h in hs ==> !ValueLt(MeasureValue(g, m), MeasureValue(h, m))
    ensures RankOf(hs, g, m) == 1
  {
    assert Positions(hs, RatesAbove(g, m)) == {} by {
      forall k | 0 <= k < |hs| ensures !RatesAbove(g, m)(hs[k]) {
        assert hs[k] in hs;
      }
    }
  }
}
