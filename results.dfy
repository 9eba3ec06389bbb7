/** What every result table of the catalog promises, whatever the query: each row is
    a non-empty group meeting HAVING whose counts bound one another and whose rates
    are percentages between 0 and 100, and the rows never improve on the leading
    sort key as the table goes down. */
module Results {
  import opened Basics
  import opened Records
  import opened Values
  import opened Grouping
  import opened Rounding
  import opened Ordering
  import opened Query

  /** A row's counts: at least one stop, no more searches or arrests than stops. */
  predicate CountsConsistent(g: Group)
  {
    g.stops >= 1 && g.searches <= g.stops && g.arrests <= g.stops
  }

  /** A row's rates are percentages: between 0 and 100.00, in hundredths. */
  predicate RatesArePercentages(g: Group)
  {
    && MeasureValue(g, SearchRate).Int? && 0 <= MeasureValue(g, SearchRate).i <= 10000
    && MeasureValue(g, ArrestRate).Int? && 0 <= MeasureValue(g, ArrestRate).i <= 10000
  }

  /** Every result row is the tally of its key over the rows passing WHERE, meets the
      HAVING threshold, has consistent counts and rates within 0..100%. */
  lemma RowsAreGroups(q: QuerySpec, rs: seq<StopRecord>)
    ensures var rows := Evaluate(q, rs);
            forall i :: 0 <= i < |rows| ==>
              && rows[i].group == Tally(rs, q.sel, rows[i].group.key)
              && |rows[i].group.key| == |q.sel.groupBy|
              && PassesHaving(rows[i].group, q.having)
              && CountsConsistent(rows[i].group)
              && RatesArePercentages(rows[i].group)
  {
    var rows := Evaluate(q, rs);
    forall i | 0 <= i < |rows|
      ensures && rows[i].group == Tally(rs, q.sel, rows[i].group.key)
              && |rows[i].group.key| == |q.sel.groupBy|
              && PassesHaving(rows[i].group, q.having)
              && CountsConsistent(rows[i].group)
              && RatesArePercentages(rows[i].group)
    {
      SurvivorFacts(rs, q, rows[i].group);
    }
  }

  /** The facts about one result row. */
  lemma RowFacts(q: QuerySpec, rs: seq<StopRecord>, i: nat)
    requires i < |Evaluate(q, rs)|
    ensures var g := Evaluate(q, rs)[i].group;
            && g in Survivors(rs, q)
            && g == Tally(rs, q.sel, g.key) && |g.key| == |q.sel.groupBy|
            && PassesHaving(g, q.having) && CountsConsistent(g) && RatesArePercentages(g)
  {
    SurvivorFacts(rs, q, Evaluate(q, rs)[i].group);
  }

  /** The counts of one result row, without the tally behind them. */
  lemma RowCounts(q: QuerySpec, rs: seq<StopRecord>, i: nat)
    requires i < |Evaluate(q, rs)|
    ensures PassesHaving(Evaluate(q, rs)[i].group, q.having) && CountsConsistent(Evaluate(q, rs)[i].group)
  {
    SurvivorFacts(rs, q, Evaluate(q, rs)[i].group);
  }

  /** The counts of every result row. */
  lemma RowsCounted(q: QuerySpec, rs: seq<StopRecord>)
    ensures var gs := GroupsOf(Evaluate(q, rs));
            forall i :: 0 <= i < |gs| ==> PassesHaving(gs[i], q.having) && CountsConsistent(gs[i])
  {
    var rows := Evaluate(q, rs);
    var gs := GroupsOf(rows);
    forall i | 0 <= i < |gs| ensures PassesHaving(gs[i], q.having) && CountsConsistent(gs[i]) {
      assert gs[i] == rows[i].group;
      RowCounts(q, rs, i);
    }
  }

  /** Every surviving group has at least one stop. */
  lemma SurvivorsHaveStops(q: QuerySpec, rs: seq<StopRecord>)
    ensures forall h :: h in Survivors(rs, q) ==> h.stops >= 1
  {
    forall h | h in Survivors(rs, q) ensures h.stops >= 1 {
      SurvivorFacts(rs, q, h);
    }
  }

  /** The leading-key fact about two result rows. */
  lemma RowOrder(q: QuerySpec, rs: seq<StopRecord>, i: nat, j: nat)
    requires q.orderBy != []
    requires i < j < |Evaluate(q, rs)|
    ensures var rows := Evaluate(q, rs);
            var k := q.orderBy[0];
            if k.ascending then !ValueLt(SortValue(rows[j].group, k), SortValue(rows[i].group, k))
            else !ValueLt(SortValue(rows[i].group, k), SortValue(rows[j].group, k))
  {
    var rows := Evaluate(q, rs);
    EvaluateOrdered(q, rs);
    assert GroupsOf(rows)[i] == rows[i].group && GroupsOf(rows)[j] == rows[j].group;
    BeforeLeadingKey(rows[i].group, rows[j].group, q.orderBy);
  }

  /** The first row is not beaten on the leading sort key by any surviving group,
      listed or cut off by LIMIT. */
  lemma FirstRowLeads(q: QuerySpec, rs: seq<StopRecord>, g: Group)
    requires q.orderBy != [] && !q.orderBy[0].ascending
    requires g in Survivors(rs, q) && |Evaluate(q, rs)| > 0
    ensures !ValueLt(SortValue(Evaluate(q, rs)[0].group, q.orderBy[0]), SortValue(g, q.orderBy[0]))
  {
    var rows := Evaluate(q, rs);
    var top := rows[0].group;
    EvaluateOrdered(q, rs);
    if g in GroupsOf(rows) {
      var k :| 0 <= k < |rows| && GroupsOf(rows)[k] == g;
      if k == 0 {
        ValueLtIrreflexive(SortValue(g, q.orderBy[0]));
      } else {
        RowOrder(q, rs, 0, k);
      }
    } else {
      BeforeLeadingKey(top, g, q.orderBy);
    }
  }

  /** Every result row's group holds some record. */
  lemma RowHasRecord(q: QuerySpec, rs: seq<StopRecord>, i: nat) returns (m: StopRecord)
    requires i < |Evaluate(q, rs)|
    ensures m in rs && InGroup(m, q.sel, Evaluate(q, rs)[i].group.key)
  {
    var g := Evaluate(q, rs)[i].group;
    RowFacts(q, rs, i);
    var ms := Members(rs, q.sel, g.key);
    assert ms[0] in ms;
    m := ms[0];
  }

  /** Without HAVING, a record passing WHERE makes the set of surviving groups non-empty. */
  lemma SelectedRecordMakesGroup(q: QuerySpec, rs: seq<StopRecord>, r: StopRecord)
    requires q.having.None?
    requires r in rs && Selected(r, q.sel.where)
    ensures |Survivors(rs, q)| > 0
  {
    var gs := Aggregate(rs, q.sel);
    var i :| 0 <= i < |gs| && gs[i].key == KeyOf(r, q.sel.groupBy);
    FilterKeepsAll(gs, HavingTest(q.having));
  }

  lemma SurvivorFacts(rs: seq<StopRecord>, q: QuerySpec, g: Group)
    requires g in Survivors(rs, q)
    ensures g == Tally(rs, q.sel, g.key) && |g.key| == |q.sel.groupBy|
    ensures PassesHaving(g, q.having) && CountsConsistent(g) && RatesArePercentages(g)
  {
    var gs := Aggregate(rs, q.sel);
    assert g in gs && PassesHaving(g, q.having);
    var i :| 0 <= i < |gs| && gs[i] == g;
    assert CountsConsistent(g);
    RatesOfConsistentCounts(g);
  }

  lemma RatesOfConsistentCounts(g: Group)
    requires CountsConsistent(g)
    ensures RatesArePercentages(g)
  {
    var s, a := Rate(g.searches, g.stops), Rate(g.arrests, g.stops);
  }

  /** Down the table, the leading ORDER BY value never improves: it never rises under
      DESC and never falls under ASC. */
  lemma LeadingKeyMonotone(q: QuerySpec, rs: seq<StopRecord>)
    requires q.orderBy != []
    ensures var rows := Evaluate(q, rs);
            var k := q.orderBy[0];
            forall i, j :: 0 <= i < j < |rows| ==>
              if k.ascending then !ValueLt(SortValue(rows[j].group, k), SortValue(rows[i].group, k))
              else !ValueLt(SortValue(rows[i].group, k), SortValue(rows[j].group, k))
  {
    var rows := Evaluate(q, rs);
    forall i, j | 0 <= i < j < |rows|
      ensures var k := q.orderBy[0];
              if k.ascending then !ValueLt(SortValue(rows[j].group, k), SortValue(rows[i].group, k))
              else !ValueLt(SortValue(rows[i].group, k), SortValue(rows[j].group, k))
    {
      RowOrder(q, rs, i, j);
    }
  }

  /** Without LIMIT the table lists every surviving group exactly once. */
  lemma NoLimitListsAll(q: QuerySpec, rs: seq<StopRecord>, g: Group)
    requires q.limit.None?
    requires g in Survivors(rs, q)
    ensures exists i :: 0 <= i < |Evaluate(q, rs)| && Evaluate(q, rs)[i].group == g
  {
    var rows := Evaluate(q, rs);
    EvaluateOrdered(q, rs);
    var i := PositionInPermutation(GroupsOf(rows), Survivors(rs, q), g);
    assert rows[i].group == g;
  }

  lemma PositionInPermutation(gs: seq<Group>, hs: seq<Group>, g: Group) returns (i: nat)
    requires multiset(gs) == multiset(hs) && g in hs
    ensures i < |gs| && gs[i] == g
  {
    assert g in multiset(gs);
    i :| 0 <= i < |gs| && gs[i] == g;
  }

  /** With no WHERE conjunct and no HAVING, every record is counted in some row's group. */
  lemma UnfilteredCountsEveryRecord(q: QuerySpec, rs: seq<StopRecord>, r: StopRecord)
    requires q.sel.where == [] && q.having.None?
    requires r in rs
    ensures exists g :: g in Survivors(rs, q) && g.key == KeyOf(r, q.sel.groupBy) && g == Tally(rs, q.sel, g.key)
  {
    var gs := Aggregate(rs, q.sel);
    assert Selected(r, q.sel.where);
    var i :| 0 <= i < |gs| && gs[i].key == KeyOf(r, q.sel.groupBy);
    FilterKeepsAll(gs, HavingTest(q.having));
    assert gs[i] in Survivors(rs, q);
  }

  /** `HAVING COUNT(*) > 0` removes no group: every group has a row. */
  lemma HavingZeroKeepsAll(q: QuerySpec, rs: seq<StopRecord>)
    requires q.having == Some(0)
    ensures Survivors(rs, q) == Aggregate(rs, q.sel)
  {
    FilterKeepsAll(Aggregate(rs, q.sel), HavingTest(q.having));
  }
}
