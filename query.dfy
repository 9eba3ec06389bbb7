/** One query of the catalog as data, and its evaluation over the record list:
    WHERE and GROUP BY, then HAVING, then the window aggregates over the groups that
    survive HAVING, then ORDER BY and LIMIT, then the SELECT list. Window values are
    computed against all surviving groups before LIMIT cuts the list, as SQL does; the
    one query ordered by a share is ordered, equivalently, by its stop count
    (`Catalog.RACE_VIOLATION_TRENDS`), so attaching them after sorting changes nothing. */
module Query {
  import opened Basics
  import opened Records
  import opened Values
  import opened Grouping
  import opened Rounding
  import opened Ordering

  /** The window aggregates the catalog uses. */
  datatype Window =
    | NoWindow
      /** `COUNT(*) * 100.0 / SUM(COUNT(*)) OVER (PARTITION BY <first prefix key columns>)` */
    | Share(prefix: nat)
      /** `SUM(total_stops)` and `SUM(total_arrests) OVER (PARTITION BY <first prefix key
          columns> ORDER BY <key column orderIndex>)`: the default frame runs from the
          partition's first row to the current row and its peers. */
    | Running(prefix: nat, orderIndex: nat)
      /** `RANK() OVER (ORDER BY searches / stops DESC)` and the same for arrests. */
    | Ranks

  /** A group's window values. */
  datatype Extra =
    | NoExtra
    | ShareOfPartition(hundredths: nat)
    | Cumulative(stops: int, arrests: int)
    | RankPair(searchRank: nat, arrestRank: nat)

  /** An entry of the SELECT list. */
  datatype OutColumn =
    | KeyOut(index: nat)       // a GROUP BY column
    | MeasureOut(m: Measure)   // a count, or a rate with two decimals
    | AverageAgeOut            // ROUND(AVG(driver_age), 1)
    | ShareOut
    | CumulativeStopsOut
    | CumulativeArrestsOut
    | SearchRankOut
    | ArrestRankOut

  datatype QuerySpec = QuerySpec(
    sel: Selection,
    having: Option<nat>,    // HAVING COUNT(*) > n
    window: Window,
    orderBy: seq<SortKey>,
    limit: Option<nat>,
    columns: seq<OutColumn>)

  /** A result row: its group and its window values. */
  datatype Row = Row(group: Group, extra: Extra)

  // ---------------------------------------------------------------------------
  // HAVING
  // ---------------------------------------------------------------------------

  predicate PassesHaving(g: Group, having: Option<nat>)
  {
    having.None? || g.stops > having.value
  }

  function HavingTest(having: Option<nat>): Group -> bool
  {
    g => PassesHaving(g, having)
  }

  /** The groups that survive HAVING, in grouping order. */
  function Survivors(rs: seq<StopRecord>, q: QuerySpec): seq<Group>
  {
    Filter(Aggregate(rs, q.sel), HavingTest(q.having))
  }

  /** A surviving group is the tally of a key some row passing WHERE has, meets the
      HAVING threshold and is not empty; every such tally survives; no two survivors
      share a key. */
  lemma SurvivorsAre(rs: seq<StopRecord>, q: QuerySpec)
    ensures forall g :: g in Survivors(rs, q) ==>
              && g == Tally(rs, q.sel, g.key)
              && g.stops >= 1
              && |g.key| == |q.sel.groupBy|
              && PassesHaving(g, q.having)
    ensures forall r :: r in rs && Selected(r, q.sel.where) && PassesHaving(Tally(rs, q.sel, KeyOf(r, q.sel.groupBy)), q.having)
              ==> Tally(rs, q.sel, KeyOf(r, q.sel.groupBy)) in Survivors(rs, q)
    ensures DistinctKeys(Survivors(rs, q))
  {
    var gs := Aggregate(rs, q.sel);
    var hs := Survivors(rs, q);
    forall g | g in hs
      ensures g == Tally(rs, q.sel, g.key) && g.stops >= 1 && |g.key| == |q.sel.groupBy|
    {
      assert g in gs;
    }
    forall r | r in rs && Selected(r, q.sel.where) && PassesHaving(Tally(rs, q.sel, KeyOf(r, q.sel.groupBy)), q.having)
      ensures Tally(rs, q.sel, KeyOf(r, q.sel.groupBy)) in hs
    {
      var i :| 0 <= i < |gs| && gs[i].key == KeyOf(r, q.sel.groupBy);
      assert gs[i] in gs;
    }
    FilterKeepsKeysDistinct(gs, HavingTest(q.having));
  }

  lemma {:induction false} FilterKeepsKeysDistinct(gs: seq<Group>, p: Group -> bool)
    requires DistinctKeys(gs)
    ensures DistinctKeys(Filter(gs, p))
    decreases |gs|
  {
    if gs != [] {
      FilterKeepsKeysDistinct(gs[1..], p);
      if p(gs[0]) {
        forall x | x in Filter(gs[1..], p) ensures x.key != gs[0].key {
          var j :| 0 <= j < |gs[1..]| && gs[1..][j] == x;
          assert gs[j + 1] == x;
        }
      }
    }
  }

  // ---------------------------------------------------------------------------
  // Window aggregates
  // ---------------------------------------------------------------------------

  /** The PARTITION BY values of a group: its first `prefix` key columns. */
  function PartitionKey(g: Group, prefix: nat): seq<Value>
  {
    if prefix <= |g.key| then g.key[..prefix] else g.key
  }

  function SamePartition(g: Group, prefix: nat): Group -> bool
  {
    h => PartitionKey(h, prefix) == PartitionKey(g, prefix)
  }

  /** The surviving groups in the partition of `g`. */
  function PartitionOf(hs: seq<Group>, g: Group, prefix: nat): seq<Group>
  {
    Filter(hs, SamePartition(g, prefix))
  }

  function StopsOf(g: Group): int
  {
    g.stops
  }

  function ArrestsOf(g: Group): int
  {
    g.arrests
  }

  /** `SUM(COUNT(*)) OVER (PARTITION BY ...)`. */
  function PartitionTotal(hs: seq<Group>, g: Group, prefix: nat): int
  {
    SumBy(PartitionOf(hs, g, prefix), StopsOf)
  }

  /** A group's percentage of its partition's rows, in hundredths. */
  function ShareOf(hs: seq<Group>, g: Group, prefix: nat): nat
  {
    var total := PartitionTotal(hs, g, prefix);
    if total > 0 then RoundHalfUp(10000 * g.stops, total) else 0
  }

  /** The ORDER BY value of the running window. */
  function OrderValue(g: Group, index: nat): Value
  {
    if index < |g.key| then g.key[index] else Null
  }

  /** `h` is in the window frame of `g`: same partition, and not after `g` in the window's order. */
  function InFrame(g: Group, prefix: nat, index: nat): Group -> bool
  {
    h => PartitionKey(h, prefix) == PartitionKey(g, prefix) && !ValueLt(OrderValue(g, index), OrderValue(h, index))
  }

  function RunningSum(hs: seq<Group>, g: Group, prefix: nat, index: nat, f: Group -> int): int
  {
    SumBy(Filter(hs, InFrame(g, prefix, index)), f)
  }

  function RatesAbove(g: Group, m: Measure): Group -> bool
  {
    h => ValueLt(MeasureValue(g, m), MeasureValue(h, m))
  }

  /** `RANK() OVER (ORDER BY rate DESC)`: one more than the number of groups with a
      strictly higher rate, so tied groups share a rank. */
  function RankOf(hs: seq<Group>, g: Group, m: Measure): (n: nat)
    ensures 1 <= n <= |hs| + 1
  {
    1 + CountIf(hs, RatesAbove(g, m))
  }

  function WindowOf(w: Window, g: Group, hs: seq<Group>): Extra
  {
    match w
    case NoWindow => NoExtra
    case Share(prefix) => ShareOfPartition(ShareOf(hs, g, prefix))
    case Running(prefix, index) => Cumulative(RunningSum(hs, g, prefix, index, StopsOf), RunningSum(hs, g, prefix, index, ArrestsOf))
    case Ranks => RankPair(RankOf(hs, g, SearchRate), RankOf(hs, g, ArrestRate))
  }

  // ---------------------------------------------------------------------------
  // The whole query
  // ---------------------------------------------------------------------------

  function GroupsOf(rows: seq<Row>): (gs: seq<Group>)
    ensures |gs| == |rows|
    ensures forall i :: 0 <= i < |rows| ==> gs[i] == rows[i].group
  {
    seq(|rows|, i requires 0 <= i < |rows| => rows[i].group)
  }

  /** The result rows of `q` over `rs`: at most LIMIT rows, all of them without LIMIT,
      each a surviving group carrying its window values. How they are ordered is
      `EvaluateOrdered`. */
  function Evaluate(q: QuerySpec, rs: seq<StopRecord>): (rows: seq<Row>)
    ensures var hs := Survivors(rs, q);
            && (q.limit.Some? ==> |rows| == if |hs| < q.limit.value then |hs| else q.limit.value)
            && (q.limit.None? ==> |rows| == |hs|)
            && (forall i :: 0 <= i < |rows| ==> rows[i].group in hs)
            && (forall i :: 0 <= i < |rows| ==> rows[i].extra == WindowOf(q.window, rows[i].group, hs))
  {
    var hs := Survivors(rs, q);
    var ss := SortGroups(hs, q.orderBy);
    var ts := Take(ss, q.limit);
    var rows := seq(|ts|, i requires 0 <= i < |ts| => Row(ts[i], WindowOf(q.window, ts[i], hs)));
    EvaluateFacts(q, rs, hs, ss, ts, rows);
    rows
  }

  /** The result rows are sorted by ORDER BY with distinct keys; when LIMIT cuts the
      list, every surviving group left out may be listed after every row kept; without
      LIMIT the rows are the surviving groups, each once. */
  lemma EvaluateOrdered(q: QuerySpec, rs: seq<StopRecord>)
    ensures var rows := Evaluate(q, rs);
            var hs := Survivors(rs, q);
            && Sorted(GroupsOf(rows), q.orderBy)
            && DistinctKeys(GroupsOf(rows))
            && (forall g :: g in hs && g !in GroupsOf(rows) ==> forall i :: 0 <= i < |rows| ==> Before(rows[i].group, g, q.orderBy))
            && (q.limit.None? ==> multiset(GroupsOf(rows)) == multiset(hs))
  {
    var hs := Survivors(rs, q);
    var ss := SortGroups(hs, q.orderBy);
    var ts := Take(ss, q.limit);
    var rows := seq(|ts|, i requires 0 <= i < |ts| => Row(ts[i], WindowOf(q.window, ts[i], hs)));
    EvaluateFacts(q, rs, hs, ss, ts, rows);
  }

  lemma EvaluateFacts(q: QuerySpec, rs: seq<StopRecord>, hs: seq<Group>, ss: seq<Group>, ts: seq<Group>, rows: seq<Row>)
    requires hs == Survivors(rs, q) && ss == SortGroups(hs, q.orderBy) && ts == Take(ss, q.limit)
    requires rows == seq(|ts|, i requires 0 <= i < |ts| => Row(ts[i], WindowOf(q.window, ts[i], hs)))
    ensures forall i :: 0 <= i < |rows| ==> rows[i].group in hs
    ensures Sorted(GroupsOf(rows), q.orderBy)
    ensures DistinctKeys(GroupsOf(rows))
    ensures forall g :: g in hs && g !in GroupsOf(rows) ==> forall i :: 0 <= i < |rows| ==> Before(rows[i].group, g, q.orderBy)
    ensures q.limit.None? ==> multiset(GroupsOf(rows)) == multiset(hs)
  {
    assert GroupsOf(rows) == ts;
    SurvivorsDistinct(rs, q);
    TopRows(hs, q.orderBy, q.limit);
  }

  lemma SurvivorsDistinct(rs: seq<StopRecord>, q: QuerySpec)
    ensures DistinctKeys(Survivors(rs, q))
  {
    FilterKeepsKeysDistinct(Aggregate(rs, q.sel), HavingTest(q.having));
  }

  /** ORDER BY then LIMIT: the rows kept come from the input, are sorted, keep distinct
      keys, and precede every row cut off. */
  lemma TopRows(hs: seq<Group>, order: seq<SortKey>, limit: Option<nat>)
    ensures var ts := Take(SortGroups(hs, order), limit);
            && (forall x :: x in ts ==> x in hs)
            && Sorted(ts, order)
            && (DistinctKeys(hs) ==> DistinctKeys(ts))
            && (forall g :: g in hs && g !in ts ==> forall i :: 0 <= i < |ts| ==> Before(ts[i], g, order))
  {
    var ss := SortGroups(hs, order);
    var ts := Take(ss, limit);
    TakeKeepsFirst(ss, limit, order);
    if DistinctKeys(hs) {
      SortKeepsKeysDistinct(hs, order);
    }
    forall x | x in ts ensures x in hs {
      assert x in multiset(ss);
    }
    forall g | g in hs && g !in ts
      ensures forall i :: 0 <= i < |ts| ==> Before(ts[i], g, order)
    {
      assert g in multiset(ss);
      var j :| 0 <= j < |ss| && ss[j] == g;
      assert j >= |ts|;
    }
  }

  // ---------------------------------------------------------------------------
  // The SELECT list
  // ---------------------------------------------------------------------------

  function CellOf(c: OutColumn, row: Row): Cell
  {
    var g := row.group;
    match c
    case KeyOut(i) => Plain(if i < |g.key| then g.key[i] else Null)
    case MeasureOut(m) =>
      (match MeasureValue(g, m)
       case Int(v) => if m.SearchRate? || m.ArrestRate? then Decimal(v, 2) else Plain(Int(v))
       case other => Plain(other))
    case AverageAgeOut => if g.ageCount == 0 then Plain(Null) else Decimal(AverageTenths(g.ageSum, g.ageCount), 1)
    case ShareOut => if row.extra.ShareOfPartition? then Decimal(row.extra.hundredths, 2) else Plain(Null)
    case CumulativeStopsOut => if row.extra.Cumulative? then Plain(Int(row.extra.stops)) else Plain(Null)
    case CumulativeArrestsOut => if row.extra.Cumulative? then Plain(Int(row.extra.arrests)) else Plain(Null)
    case SearchRankOut => if row.extra.RankPair? then Plain(Int(row.extra.searchRank)) else Plain(Null)
    case ArrestRankOut => if row.extra.RankPair? then Plain(Int(row.extra.arrestRank)) else Plain(Null)
  }

  /** The table the dashboard shows: one line per result row, one cell per SELECT entry. */
  function Display(q: QuerySpec, rows: seq<Row>): (table: seq<seq<Cell>>)
    ensures |table| == |rows|
    ensures forall i :: 0 <= i < |table| ==> |table[i]| == |q.columns|
    ensures forall i, j :: 0 <= i < |table| && 0 <= j < |q.columns| ==> table[i][j] == CellOf(q.columns[j], rows[i])
  {
    seq(|rows|, i requires 0 <= i < |rows| => seq(|q.columns|, j requires 0 <= j < |q.columns| => CellOf(q.columns[j], rows[i])))
  }
}
