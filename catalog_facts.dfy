/** What the individual analyses of the catalog promise over any record list. */
module CatalogFacts {
  import opened Basics
  import opened Records
  import opened Values
  import opened Grouping
  import opened Rounding
  import opened Ordering
  import opened Query
  import opened Windows
  import opened Results
  import opened Catalog

  /** `arrest_rate_percentage` of a group, in hundredths. */
  function ArrestPercent(g: Group): int
    requires g.stops > 0
  {
    Rate(g.arrests, g.stops)
  }

  /** A query ranking groups by arrest rate (its HAVING `COUNT(*) > threshold`, its
      LIMIT `limit`): at most `limit` rows, each with more than `threshold` stops, no
      more arrests than stops and a rate between 0 and 100%, rates falling down the table. */
  lemma ArrestRateTable(q: QuerySpec, rs: seq<StopRecord>, threshold: nat, limit: nat)
    requires q.having == Some(threshold) && q.limit == Some(limit)
    requires q.orderBy != [] && q.orderBy[0] == DESC_ARREST_RATE
    ensures var rows := Evaluate(q, rs);
            && |rows| <= limit
            && (forall i :: 0 <= i < |rows| ==>
                  && rows[i].group.stops > threshold
                  && rows[i].group.arrests <= rows[i].group.stops
                  && 0 <= ArrestPercent(rows[i].group) <= 10000)
            && (forall i, j :: 0 <= i < j < |rows| ==> ArrestPercent(rows[j].group) <= ArrestPercent(rows[i].group))
  {
    ArrestRateRowsBounded(q, rs, threshold);
    ArrestRateRowsOrdered(q, rs);
  }

  lemma ArrestRateRowsBounded(q: QuerySpec, rs: seq<StopRecord>, threshold: nat)
    requires q.having == Some(threshold)
    ensures var rows := Evaluate(q, rs);
            forall i :: 0 <= i < |rows| ==>
              && rows[i].group.stops > threshold
              && rows[i].group.arrests <= rows[i].group.stops
              && 0 <= ArrestPercent(rows[i].group) <= 10000
  {
    var gs := GroupsOf(Evaluate(q, rs));
    RowsCounted(q, rs);
    ArrestRatesBounded(gs, threshold);
  }

  lemma ArrestRateRowsOrdered(q: QuerySpec, rs: seq<StopRecord>)
    requires q.orderBy != [] && q.orderBy[0] == DESC_ARREST_RATE
    ensures var rows := Evaluate(q, rs);
            forall i, j :: 0 <= i < j < |rows| ==>
              rows[i].group.stops > 0 && rows[j].group.stops > 0 && ArrestPercent(rows[j].group) <= ArrestPercent(rows[i].group)
  {
    var gs := GroupsOf(Evaluate(q, rs));
    RowsCounted(q, rs);
    EvaluateOrdered(q, rs);
    ArrestRatesDescend(gs, q.orderBy);
  }

  /** Groups with more than `threshold` stops and consistent counts have arrest rates
      between 0 and 100%. */
  lemma ArrestRatesBounded(gs: seq<Group>, threshold: nat)
    requires forall i :: 0 <= i < |gs| ==> PassesHaving(gs[i], Some(threshold)) && CountsConsistent(gs[i])
    ensures forall i :: 0 <= i < |gs| ==>
              && gs[i].stops > threshold && gs[i].arrests <= gs[i].stops
              && 0 <= ArrestPercent(gs[i]) <= 10000
  {
    forall i | 0 <= i < |gs| ensures 0 <= ArrestPercent(gs[i]) <= 10000 {
      ArrestPercentBounded(gs[i]);
    }
  }

  lemma ArrestPercentBounded(g: Group)
    requires CountsConsistent(g)
    ensures 0 <= ArrestPercent(g) <= 10000
  {
    RatesOfConsistentCounts(g);
    assert MeasureValue(g, ArrestRate) == Int(ArrestPercent(g));
  }

  /** Groups sorted by arrest rate descending have falling arrest rates. */
  lemma ArrestRatesDescend(gs: seq<Group>, order: seq<SortKey>)
    requires order != [] && order[0] == DESC_ARREST_RATE && Sorted(gs, order)
    requires forall i :: 0 <= i < |gs| ==> gs[i].stops >= 1 && CountsConsistent(gs[i])
    ensures forall i, j :: 0 <= i < j < |gs| ==> ArrestPercent(gs[j]) <= ArrestPercent(gs[i])
  {
    forall i, j | 0 <= i < j < |gs| ensures ArrestPercent(gs[j]) <= ArrestPercent(gs[i]) {
      BeforeLeadingKey(gs[i], gs[j], order);
      ArrestOrderOfGroups(gs[i], gs[j]);
    }
  }

  /** Under `ORDER BY arrest_rate DESC`, a group listed first has the higher rate. */
  lemma ArrestOrderOfGroups(a: Group, b: Group)
    requires a.stops > 0 && b.stops > 0
    requires !ValueLt(SortValue(a, DESC_ARREST_RATE), SortValue(b, DESC_ARREST_RATE))
    ensures ArrestPercent(b) <= ArrestPercent(a)
  {
  }

  /** The three arrest-rate analyses of the dashboard: by driver age (more than 50 stops,
      top 10), by country and violation (more than 50 stops, top 20) and by violation
      (more than 50 stops, top 5). */
  lemma DashboardArrestRateTables(rs: seq<StopRecord>)
    ensures |Evaluate(AGE_ARREST_RATE, rs)| <= 10
    ensures |Evaluate(COUNTRY_VIOLATION_ARREST_RATE, rs)| <= 20
    ensures |Evaluate(TOP5_ARREST_RATE, rs)| <= 5
    ensures forall q :: q in {AGE_ARREST_RATE, COUNTRY_VIOLATION_ARREST_RATE, TOP5_ARREST_RATE} ==>
              var rows := Evaluate(q, rs);
              && (forall i :: 0 <= i < |rows| ==>
                    && rows[i].group.stops > 50
                    && rows[i].group.arrests <= rows[i].group.stops
                    && 0 <= ArrestPercent(rows[i].group) <= 10000)
              && (forall i, j :: 0 <= i < j < |rows| ==> ArrestPercent(rows[j].group) <= ArrestPercent(rows[i].group))
  {
    ArrestRateTable(AGE_ARREST_RATE, rs, 50, 10);
    ArrestRateTable(COUNTRY_VIOLATION_ARREST_RATE, rs, 50, 20);
    ArrestRateTable(TOP5_ARREST_RATE, rs, 50, 5);
  }

  /** A query with `LIMIT 1` and no HAVING shows one row exactly when some record passes
      WHERE, and no surviving group beats that row on the leading (descending) key. */
  lemma TopOneRow(q: QuerySpec, rs: seq<StopRecord>)
    requires q.having.None? && q.limit == Some(1)
    requires q.orderBy != [] && !q.orderBy[0].ascending
    ensures var rows := Evaluate(q, rs);
            && |rows| <= 1
            && (|rows| == 1 <==> exists r :: r in rs && Selected(r, q.sel.where))
            && (|rows| == 1 ==> forall g :: g in Survivors(rs, q) ==>
                  !ValueLt(SortValue(rows[0].group, q.orderBy[0]), SortValue(g, q.orderBy[0])))
  {
    var rows := Evaluate(q, rs);
    if r :| r in rs && Selected(r, q.sel.where) {
      SelectedRecordMakesGroup(q, rs, r);
    }
    if |rows| == 1 {
      var m := RowHasRecord(q, rs, 0);
      forall g | g in Survivors(rs, q)
        ensures !ValueLt(SortValue(rows[0].group, q.orderBy[0]), SortValue(g, q.orderBy[0]))
      {
        FirstRowLeads(q, rs, g);
      }
    }
  }

  /** The country with the most searches: one row as soon as some stop names a country,
      none otherwise, and no country has more searched stops than the one shown. */
  lemma MostSearchedCountryIsTop(rs: seq<StopRecord>)
    ensures var rows := Evaluate(MOST_SEARCHED_COUNTRY, rs);
            && |rows| <= 1
            && (|rows| == 1 <==> exists r :: r in rs && r.countryName.Some?)
            && (|rows| == 1 ==> forall g :: g in Survivors(rs, MOST_SEARCHED_COUNTRY) ==> g.searches <= rows[0].group.searches)
  {
    var q := MOST_SEARCHED_COUNTRY;
    TopOneRow(q, rs);
    forall r ensures Selected(r, q.sel.where) <==> r.countryName.Some? {
      SelectedOne(r, NotNull(CountryName));
    }
  }

  /** The running stops and arrests of row `i`. */
  predicate RunningPrefix(gs: seq<Group>, extras: seq<Extra>, i: nat)
    requires i < |gs| && i < |extras|
  {
    var same := Filter(gs[..i + 1], SamePartition(gs[i], 1));
    extras[i] == Cumulative(SumBy(same, StopsOf), SumBy(same, ArrestsOf))
  }

  /** Row `i` is the last of its country. */
  predicate LastOfCountry(gs: seq<Group>, i: nat)
    requires i < |gs|
  {
    forall j :: i < j < |gs| ==> !SamePartition(gs[i], 1)(gs[j])
  }

  /** The yearly breakdown (both variants): on each row the cumulative stops and
      arrests are the sums over the rows of its country up to and including it, and on
      the last row of a country they are the country's totals. */
  lemma YearlyRunningTotals(q: QuerySpec, rs: seq<StopRecord>)
    requires q == YEARLY_BY_COUNTRY || q == DEMO_YEARLY_BY_COUNTRY
    ensures var rows := Evaluate(q, rs);
            var gs := GroupsOf(rows);
            var hs := Survivors(rs, q);
            var extras := ExtrasOf(rows);
            && (forall i :: 0 <= i < |rows| ==> RunningPrefix(gs, extras, i))
            && (forall i :: 0 <= i < |rows| && LastOfCountry(gs, i) ==>
                  rows[i].extra == Cumulative(PartitionTotal(hs, gs[i], 1), SumBy(PartitionOf(hs, gs[i], 1), ArrestsOf)))
  {
    assert q.orderBy == COUNTRY_YEAR && q.window == Running(1, 1) && q.limit.None? && |q.sel.groupBy| == 2;
    RunningColumns(q, rs);
  }

  function ExtrasOf(rows: seq<Row>): (es: seq<Extra>)
    ensures |es| == |rows|
    ensures forall i :: 0 <= i < |rows| ==> es[i] == rows[i].extra
  {
    seq(|rows|, i requires 0 <= i < |rows| => rows[i].extra)
  }

  /** The running-sum window of any query ordered by country then year. */
  lemma RunningColumns(q: QuerySpec, rs: seq<StopRecord>)
    requires q.orderBy == COUNTRY_YEAR && q.window == Running(1, 1) && q.limit.None? && |q.sel.groupBy| == 2
    ensures var rows := Evaluate(q, rs);
            var gs := GroupsOf(rows);
            var hs := Survivors(rs, q);
            var extras := ExtrasOf(rows);
            && (forall i :: 0 <= i < |rows| ==> RunningPrefix(gs, extras, i))
            && (forall i :: 0 <= i < |rows| && LastOfCountry(gs, i) ==>
                  rows[i].extra == Cumulative(PartitionTotal(hs, gs[i], 1), SumBy(PartitionOf(hs, gs[i], 1), ArrestsOf)))
  {
    var rows := Evaluate(q, rs);
    var gs := GroupsOf(rows);
    var hs := Survivors(rs, q);
    var extras := ExtrasOf(rows);
    EvaluateOrdered(q, rs);
    KeyLengths(q, rs);
    ExtrasAreWindows(q, rs);
    RunningOverSorted(hs, gs, extras);
    forall i | 0 <= i < |rows| && LastOfCountry(gs, i)
      ensures rows[i].extra == Cumulative(PartitionTotal(hs, gs[i], 1), SumBy(PartitionOf(hs, gs[i], 1), ArrestsOf))
    {
      RunningLast(hs, gs, extras, i);
    }
  }

  /** Every row's key has one value per GROUP BY column. */
  lemma KeyLengths(q: QuerySpec, rs: seq<StopRecord>)
    ensures forall h :: h in GroupsOf(Evaluate(q, rs)) ==> |h.key| == |q.sel.groupBy|
  {
    var rows := Evaluate(q, rs);
    var gs := GroupsOf(rows);
    forall h | h in gs ensures |h.key| == |q.sel.groupBy| {
      var k :| 0 <= k < |gs| && gs[k] == h;
      assert rows[k].group == h;
      SurvivorFacts(rs, q, h);
    }
  }

  /** Every row's window values are those of its group among the surviving groups. */
  lemma ExtrasAreWindows(q: QuerySpec, rs: seq<StopRecord>)
    ensures var rows := Evaluate(q, rs);
            var gs := GroupsOf(rows);
            forall i :: 0 <= i < |gs| ==> ExtrasOf(rows)[i] == WindowOf(q.window, gs[i], Survivors(rs, q))
  {
  }

  /** Running sums over a table holding the surviving groups sorted by country and year. */
  lemma RunningOverSorted(hs: seq<Group>, gs: seq<Group>, extras: seq<Extra>)
    requires multiset(gs) == multiset(hs) && Sorted(gs, COUNTRY_YEAR) && DistinctKeys(gs)
    requires forall h :: h in gs ==> |h.key| == 2
    requires |extras| == |gs|
    requires forall i :: 0 <= i < |gs| ==> extras[i] == WindowOf(Running(1, 1), gs[i], hs)
    ensures forall i :: 0 <= i < |gs| ==> RunningPrefix(gs, extras, i)
  {
    forall i | 0 <= i < |gs| ensures RunningPrefix(gs, extras, i) {
      RunningSumIsPrefixSum(hs, gs, StopsOf, i);
      RunningSumIsPrefixSum(hs, gs, ArrestsOf, i);
    }
  }

  lemma RunningLast(hs: seq<Group>, gs: seq<Group>, extras: seq<Extra>, i: nat)
    requires multiset(gs) == multiset(hs) && Sorted(gs, COUNTRY_YEAR) && DistinctKeys(gs)
    requires forall h :: h in gs ==> |h.key| == 2
    requires |extras| == |gs| && i < |gs| && LastOfCountry(gs, i)
    requires extras[i] == WindowOf(Running(1, 1), gs[i], hs)
    ensures extras[i] == Cumulative(PartitionTotal(hs, gs[i], 1), SumBy(PartitionOf(hs, gs[i], 1), ArrestsOf))
  {
    LastRowOfCountryIsTotal(hs, gs, StopsOf, i);
    LastRowOfCountryIsTotal(hs, gs, ArrestsOf, i);
  }

  /** A share column: each row shows its group's share of its partition, and the
      shares of one partition add up to 100% within half a hundredth per group. */
  lemma PartitionShareColumn(q: QuerySpec, rs: seq<StopRecord>)
    requires q.window.Share?
    ensures var rows := Evaluate(q, rs);
            var hs := Survivors(rs, q);
            forall i :: 0 <= i < |rows| ==>
              var part := PartitionOf(hs, rows[i].group, q.window.prefix);
              && rows[i].extra == ShareOfPartition(ShareOf(hs, rows[i].group, q.window.prefix))
              && -|part| < 2 * (SumBy(part, ShareIn(hs, q.window.prefix)) - 10000) <= |part|
  {
    var rows := Evaluate(q, rs);
    var gs := GroupsOf(rows);
    SurvivorsHaveStops(q, rs);
    assert forall i :: 0 <= i < |gs| ==> gs[i] == rows[i].group && gs[i] in Survivors(rs, q);
    SharesOverRows(Survivors(rs, q), gs, q.window.prefix);
  }

  /** Each listed group's partition shares add up to 100% within rounding. */
  lemma SharesOverRows(hs: seq<Group>, gs: seq<Group>, prefix: nat)
    requires forall h :: h in hs ==> h.stops >= 1
    requires forall i :: 0 <= i < |gs| ==> gs[i] in hs
    ensures forall i :: 0 <= i < |gs| ==>
              var part := PartitionOf(hs, gs[i], prefix);
              -|part| < 2 * (SumBy(part, ShareIn(hs, prefix)) - 10000) <= |part|
  {
    forall i | 0 <= i < |gs|
      ensures var part := PartitionOf(hs, gs[i], prefix);
              -|part| < 2 * (SumBy(part, ShareIn(hs, prefix)) - 10000) <= |part|
    {
      PartitionSharesSum(hs, gs[i], prefix);
    }
  }

  /** `percentage_of_stops`, `percent_of_race` and `percent_of_country`, in both variants. */
  lemma ShareColumnsOfCatalog(rs: seq<StopRecord>)
    ensures forall q :: q in {GENDER_BY_COUNTRY, RACE_VIOLATION_TRENDS, COUNTRY_DEMOGRAPHICS,
                              DEMO_GENDER_BY_COUNTRY, DEMO_COUNTRY_DEMOGRAPHICS} ==>
              var rows := Evaluate(q, rs);
              var hs := Survivors(rs, q);
              forall i :: 0 <= i < |rows| ==>
                var part := PartitionOf(hs, rows[i].group, 1);
                -|part| < 2 * (SumBy(part, ShareIn(hs, 1)) - 10000) <= |part|
  {
    PartitionShareColumn(GENDER_BY_COUNTRY, rs);
    PartitionShareColumn(RACE_VIOLATION_TRENDS, rs);
    PartitionShareColumn(COUNTRY_DEMOGRAPHICS, rs);
    PartitionShareColumn(DEMO_GENDER_BY_COUNTRY, rs);
    PartitionShareColumn(DEMO_COUNTRY_DEMOGRAPHICS, rs);
  }

  /** `RANK()` by measure `m` orders `g` and `h` consistently with their rates. */
  predicate RanksConsistent(hs: seq<Group>, g: Group, h: Group, m: Measure)
  {
    && (MeasureValue(g, m) == MeasureValue(h, m) ==> RankOf(hs, g, m) == RankOf(hs, h, m))
    && (ValueLt(MeasureValue(h, m), MeasureValue(g, m)) ==> RankOf(hs, g, m) < RankOf(hs, h, m))
  }

  lemma RanksOfRows(hs: seq<Group>, g: Group, h: Group, m: Measure)
    requires g in hs
    ensures RanksConsistent(hs, g, h, m)
  {
    if MeasureValue(g, m) == MeasureValue(h, m) {
      TiedRatesShareRank(hs, g, h, m);
    }
    if ValueLt(MeasureValue(h, m), MeasureValue(g, m)) {
      HigherRateSmallerRank(hs, g, h, m);
    }
  }

  /** The rank columns of a query ordered by search rate: each row carries the ranks of
      its group among all surviving groups, rows with equal rates share a rank, a
      strictly higher rate has a strictly smaller rank, and the first row has search rank 1. */
  lemma RankColumns(q: QuerySpec, rs: seq<StopRecord>)
    requires q.window == Ranks && q.orderBy != [] && q.orderBy[0] == DESC_SEARCH_RATE
    ensures var rows := Evaluate(q, rs);
            var hs := Survivors(rs, q);
            && (forall i :: 0 <= i < |rows| ==>
                  rows[i].extra == RankPair(RankOf(hs, rows[i].group, SearchRate), RankOf(hs, rows[i].group, ArrestRate)))
            && (forall i, j :: 0 <= i < |rows| && 0 <= j < |rows| ==>
                  RanksConsistent(hs, rows[i].group, rows[j].group, SearchRate)
                  && RanksConsistent(hs, rows[i].group, rows[j].group, ArrestRate))
            && (|rows| > 0 ==> RankOf(hs, rows[0].group, SearchRate) == 1)
  {
    RowRanksConsistent(q, rs);
    if |Evaluate(q, rs)| > 0 {
      TopRowRanksFirst(q, rs);
    }
  }

  lemma RowRanksConsistent(q: QuerySpec, rs: seq<StopRecord>)
    ensures var rows := Evaluate(q, rs);
            var hs := Survivors(rs, q);
            forall i, j :: 0 <= i < |rows| && 0 <= j < |rows| ==>
              RanksConsistent(hs, rows[i].group, rows[j].group, SearchRate)
              && RanksConsistent(hs, rows[i].group, rows[j].group, ArrestRate)
  {
    var rows := Evaluate(q, rs);
    var gs := GroupsOf(rows);
    var hs := Survivors(rs, q);
    assert forall i :: 0 <= i < |gs| ==> gs[i] in hs;
    RanksOverRows(hs, gs);
  }

  lemma RanksOverRows(hs: seq<Group>, gs: seq<Group>)
    requires forall i :: 0 <= i < |gs| ==> gs[i] in hs
    ensures forall i, j :: 0 <= i < |gs| && 0 <= j < |gs| ==>
              RanksConsistent(hs, gs[i], gs[j], SearchRate) && RanksConsistent(hs, gs[i], gs[j], ArrestRate)
  {
    forall i, j | 0 <= i < |gs| && 0 <= j < |gs|
      ensures RanksConsistent(hs, gs[i], gs[j], SearchRate) && RanksConsistent(hs, gs[i], gs[j], ArrestRate)
    {
      RanksOfRows(hs, gs[i], gs[j], SearchRate);
      RanksOfRows(hs, gs[i], gs[j], ArrestRate);
    }
  }

  /** Under `ORDER BY search_rate DESC`, the first row has search rank 1. */
  lemma TopRowRanksFirst(q: QuerySpec, rs: seq<StopRecord>)
    requires q.orderBy != [] && q.orderBy[0] == DESC_SEARCH_RATE
    requires |Evaluate(q, rs)| > 0
    ensures RankOf(Survivors(rs, q), Evaluate(q, rs)[0].group, SearchRate) == 1
  {
    var top := Evaluate(q, rs)[0].group;
    var hs := Survivors(rs, q);
    forall h | h in hs ensures !ValueLt(MeasureValue(top, SearchRate), MeasureValue(h, SearchRate)) {
      FirstRowLeads(q, rs, h);
    }
    TopRateRanksFirst(hs, top, SearchRate);
  }

  /** `search_rate_rank` and `arrest_rate_rank` of the earlier variant's high-search-and-arrest query. */
  lemma DemoRankColumns(rs: seq<StopRecord>)
    ensures var rows := Evaluate(DEMO_HIGH_SEARCH_ARREST, rs);
            var hs := Survivors(rs, DEMO_HIGH_SEARCH_ARREST);
            && (forall i, j :: 0 <= i < |rows| && 0 <= j < |rows| ==>
                  RanksConsistent(hs, rows[i].group, rows[j].group, SearchRate)
                  && RanksConsistent(hs, rows[i].group, rows[j].group, ArrestRate))
            && (|rows| > 0 ==> rows[0].extra.RankPair? && rows[0].extra.searchRank == 1)
  {
    RankColumns(DEMO_HIGH_SEARCH_ARREST, rs);
  }

  /** Grouping by the day/night label gives at most two rows, one per label. */
  lemma DayNightAtMostTwoRows(q: QuerySpec, rs: seq<StopRecord>, day: string, night: string)
    requires q.sel.groupBy == [TimeOfDay(day, night)]
    ensures var rows := Evaluate(q, rs);
            && (forall i :: 0 <= i < |rows| ==> rows[i].group.key in {[Str(day)], [Str(night)]})
            && |rows| <= 2
  {
    var rows := Evaluate(q, rs);
    var gs := GroupsOf(rows);
    EvaluateOrdered(q, rs);
    forall i | 0 <= i < |rows| ensures rows[i].group.key in {[Str(day)], [Str(night)]} {
      DayNightRowKey(q, rs, day, night, i);
    }
    forall i | 0 <= i < |gs| ensures gs[i].key in {[Str(day)], [Str(night)]} {
      assert gs[i] == rows[i].group;
    }
    AtMostTwoKeys(gs, [Str(day)], [Str(night)]);
  }

  /** Groups with distinct keys drawn from two keys number at most two. */
  lemma AtMostTwoKeys(gs: seq<Group>, a: seq<Value>, b: seq<Value>)
    requires DistinctKeys(gs)
    requires forall i :: 0 <= i < |gs| ==> gs[i].key in {a, b}
    ensures |gs| <= 2
  {
    if |gs| > 2 {
      ThreeKeysLeaveTwo(gs, a, b);
      assert false;
    }
  }

  /** Three groups with distinct keys cannot all take one of two keys. */
  lemma ThreeKeysLeaveTwo(gs: seq<Group>, a: seq<Value>, b: seq<Value>)
    requires |gs| > 2 && DistinctKeys(gs)
    ensures exists i :: 0 <= i < 3 && gs[i].key !in {a, b}
  {
    if gs[0].key in {a, b} && gs[1].key in {a, b} {
      assert gs[2].key !in {a, b};
    }
  }

  lemma DayNightRowKey(q: QuerySpec, rs: seq<StopRecord>, day: string, night: string, i: nat)
    requires q.sel.groupBy == [TimeOfDay(day, night)]
    requires i < |Evaluate(q, rs)|
    ensures Evaluate(q, rs)[i].group.key in {[Str(day)], [Str(night)]}
  {
    var m := RowHasRecord(q, rs, i);
    TimeOfDayKey(m, day, night);
  }

  lemma TimeOfDayKey(m: StopRecord, day: string, night: string)
    ensures KeyOf(m, [TimeOfDay(day, night)]) in {[Str(day)], [Str(night)]}
  {
    assert KeyOf(m, [TimeOfDay(day, night)]) == [ColumnValue(m, TimeOfDay(day, night))];
  }

  /** Both day/night analyses give at most two rows. */
  lemma DayNightTables(rs: seq<StopRecord>)
    ensures |Evaluate(DAY_NIGHT_ARRESTS, rs)| <= 2
    ensures |Evaluate(DEMO_DAY_NIGHT_ARRESTS, rs)| <= 2
  {
    DayNightAtMostTwoRows(DAY_NIGHT_ARRESTS, rs, "Day (6AM-5PM)", "Night (6PM-5AM)");
    DayNightAtMostTwoRows(DEMO_DAY_NIGHT_ARRESTS, rs, "Day", "Night");
  }

  /** A stop without a time: the dashboard's WHERE leaves it out, while the earlier
      variant, without WHERE, counts it in the night group. */
  lemma StopWithoutTime(r: StopRecord)
    requires r.stopHour.None?
    ensures !Selected(r, DAY_NIGHT_ARRESTS.sel.where)
    ensures Selected(r, DEMO_DAY_NIGHT_ARRESTS.sel.where)
    ensures KeyOf(r, DEMO_DAY_NIGHT_ARRESTS.sel.groupBy) == [Str("Night")]
  {
    SelectedOne(r, NotNull(StopHour));
    var key := KeyOf(r, [TimeOfDay("Day", "Night")]);
    assert key[0] == Str(TimeOfDayLabel(r.stopHour, "Day", "Night"));
  }

  /** The earlier variant's top-5 query keeps every violation group (`HAVING COUNT(*) > 0`). */
  lemma DemoTopFiveKeepsAll(rs: seq<StopRecord>)
    ensures Survivors(rs, DEMO_TOP5_ARREST_RATE) == Aggregate(rs, DEMO_TOP5_ARREST_RATE.sel)
  {
    HavingZeroKeepsAll(DEMO_TOP5_ARREST_RATE, rs);
  }

  /** The earlier variant's age query, without WHERE or HAVING, counts every stop in
      the group of its age, a NULL age included. */
  lemma DemoAgeGroupsCoverAll(rs: seq<StopRecord>, r: StopRecord)
    requires r in rs
    ensures exists g :: g in Survivors(rs, DEMO_AGE_ARREST_RATE) && g.key == [OfInt(r.driverAge)]
  {
    var q := DEMO_AGE_ARREST_RATE;
    assert q.sel.where == [] && q.having.None? && q.sel.groupBy == [DriverAge];
    AgeGroupsCoverAll(q, rs, r);
  }

  lemma AgeGroupsCoverAll(q: QuerySpec, rs: seq<StopRecord>, r: StopRecord)
    requires q.sel.where == [] && q.having.None? && q.sel.groupBy == [DriverAge]
    requires r in rs
    ensures exists g :: g in Survivors(rs, q) && g.key == [OfInt(r.driverAge)]
  {
    UnfilteredCountsEveryRecord(q, rs, r);
    var key := KeyOf(r, [DriverAge]);
    assert key[0] == OfInt(r.driverAge);
  }
}
