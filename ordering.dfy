/** `ORDER BY` over the groups of a query: the sort keys the catalog uses, the
    lexicographic comparison they define, and a sort that yields the groups in an
    order that respects it. SQL leaves the order of rows that compare equal open,
    and so does this model: what is promised is sortedness and the same groups. */
module Ordering {
  import opened Basics
  import opened Values
  import opened Grouping
  import opened Rounding

  /** The per-group quantities a query selects besides its key columns. */
  datatype Measure = Stops | Searches | Arrests | SearchRate | ArrestRate

  /** A measure's value; a rate is `ROUND(part / COUNT(*) * 100, 2)` in hundredths,
      and NULL for a group without rows (division by zero), which no query produces. */
  function MeasureValue(g: Group, m: Measure): Value
  {
    match m
    case Stops => Int(g.stops)
    case Searches => Int(g.searches)
    case Arrests => Int(g.arrests)
    case SearchRate => if g.stops == 0 then Null else Int(Rate(g.searches, g.stops))
    case ArrestRate => if g.stops == 0 then Null else Int(Rate(g.arrests, g.stops))
  }

  /** One `ORDER BY` item: a GROUP BY column by position, or a measure. */
  datatype SortKey = ByKey(index: nat, ascending: bool) | ByMeasure(measure: Measure, ascending: bool)

  function SortValue(g: Group, k: SortKey): Value
  {
    match k
    case ByKey(i, _) => if i < |g.key| then g.key[i] else Null
    case ByMeasure(m, _) => MeasureValue(g, m)
  }

  /** `a` may be listed before `b`: the first sort key on which they differ puts
      `a` first, or they agree on every key. */
  predicate Before(a: Group, b: Group, order: seq<SortKey>)
    decreases |order|
  {
    if order == [] then true
    else
      var x, y := SortValue(a, order[0]), SortValue(b, order[0]);
      if x == y then Before(a, b, order[1..])
      else if order[0].ascending then ValueLt(x, y)
      else ValueLt(y, x)
  }

  lemma {:induction false} BeforeTotal(a: Group, b: Group, order: seq<SortKey>)
    ensures Before(a, b, order) || Before(b, a, order)
    decreases |order|
  {
    if order != [] {
      ValueLtTrichotomy(SortValue(a, order[0]), SortValue(b, order[0]));
      BeforeTotal(a, b, order[1..]);
    }
  }

  lemma {:induction false} BeforeTransitive(a: Group, b: Group, c: Group, order: seq<SortKey>)
    requires Before(a, b, order) && Before(b, c, order)
    ensures Before(a, c, order)
    decreases |order|
  {
    if order != [] {
      var x, y, z := SortValue(a, order[0]), SortValue(b, order[0]), SortValue(c, order[0]);
      if x == y && y == z {
        BeforeTransitive(a, b, c, order[1..]);
      } else if x != y && y != z {
        if order[0].ascending {
          ValueLtTransitive(x, y, z);
        } else {
          ValueLtTransitive(z, y, x);
        }
        if x == z {
          ValueLtIrreflexive(x);
        }
      }
    }
  }

  /** A row listed before another is not beaten on the leading sort key. */
  lemma BeforeLeadingKey(a: Group, b: Group, order: seq<SortKey>)
    requires order != [] && Before(a, b, order)
    ensures order[0].ascending ==> !ValueLt(SortValue(b, order[0]), SortValue(a, order[0]))
    ensures !order[0].ascending ==> !ValueLt(SortValue(a, order[0]), SortValue(b, order[0]))
  {
    var x, y := SortValue(a, order[0]), SortValue(b, order[0]);
    if x == y {
      ValueLtIrreflexive(x);
    } else if order[0].ascending {
      ValueLtAsymmetric(x, y);
    } else {
      ValueLtAsymmetric(y, x);
    }
  }

  /** Each row may be listed before every later row. */
  predicate Sorted(gs: seq<Group>, order: seq<SortKey>)
  {
    forall i, j :: 0 <= i < j < |gs| ==> Before(gs[i], gs[j], order)
  }

  /** No two groups share a key. */
  predicate DistinctKeys(gs: seq<Group>)
  {
    forall i, j :: 0 <= i < j < |gs| ==> gs[i].key != gs[j].key
  }

  /** `g` inserted in front of the first row it may precede. */
  function Insert(g: Group, ss: seq<Group>, order: seq<SortKey>): (r: seq<Group>)
    ensures multiset(r) == multiset(ss) + multiset{g}
    ensures |r| == |ss| + 1
    decreases |ss|
  {
    if ss == [] then [g]
    else if Before(g, ss[0], order) then
      assert ss == [ss[0]] + ss[1..];
      [g] + ss
    else
      assert ss == [ss[0]] + ss[1..];
      [ss[0]] + Insert(g, ss[1..], order)
  }

  lemma InsertMembers(g: Group, ss: seq<Group>, order: seq<SortKey>)
    ensures forall x :: x in Insert(g, ss, order) ==> x in ss || x == g
  {
    forall x | x in Insert(g, ss, order) ensures x in ss || x == g {
      assert x in multiset(Insert(g, ss, order));
    }
  }

  /** Inserting into a sorted list keeps it sorted. */
  lemma {:induction false} InsertSorted(g: Group, ss: seq<Group>, order: seq<SortKey>)
    requires Sorted(ss, order)
    ensures Sorted(Insert(g, ss, order), order)
    decreases |ss|
  {
    if ss != [] {
      if Before(g, ss[0], order) {
        forall j | 0 < j < |ss| ensures Before(g, ss[j], order) {
          BeforeTransitive(g, ss[0], ss[j], order);
        }
      } else {
        var rest := Insert(g, ss[1..], order);
        InsertSorted(g, ss[1..], order);
        InsertMembers(g, ss[1..], order);
        BeforeTotal(g, ss[0], order);
        forall x | x in rest ensures Before(ss[0], x, order) {
          if x != g {
            var j :| 0 <= j < |ss[1..]| && ss[1..][j] == x;
            assert ss[j + 1] == x;
          }
        }
        assert Insert(g, ss, order) == [ss[0]] + rest;
      }
    }
  }

  /** Inserting a group with a new key keeps the keys distinct. */
  lemma {:induction false} InsertDistinct(g: Group, ss: seq<Group>, order: seq<SortKey>)
    requires DistinctKeys(ss)
    requires forall x :: x in ss ==> x.key != g.key
    ensures DistinctKeys(Insert(g, ss, order))
    decreases |ss|
  {
    if ss != [] && !Before(g, ss[0], order) {
      var rest := Insert(g, ss[1..], order);
      InsertDistinct(g, ss[1..], order);
      InsertMembers(g, ss[1..], order);
      assert ss[0] in ss;
      forall x | x in rest ensures x.key != ss[0].key {
        if x != g {
          var j :| 0 <= j < |ss[1..]| && ss[1..][j] == x;
          assert ss[j + 1] == x;
        }
      }
      assert Insert(g, ss, order) == [ss[0]] + rest;
    }
  }

  /** The groups in an order that respects `order`: the same groups, each as often, sorted. */
  function SortGroups(gs: seq<Group>, order: seq<SortKey>): (ss: seq<Group>)
    ensures Sorted(ss, order)
    ensures multiset(ss) == multiset(gs)
    ensures |ss| == |gs|
    decreases |gs|
  {
    if gs == [] then []
    else
      var rest := SortGroups(gs[1..], order);
      InsertSorted(gs[0], rest, order);
      assert gs == [gs[0]] + gs[1..];
      Insert(gs[0], rest, order)
  }

  /** Sorting groups with distinct keys leaves their keys distinct. */
  lemma {:induction false} SortKeepsKeysDistinct(gs: seq<Group>, order: seq<SortKey>)
    requires DistinctKeys(gs)
    ensures DistinctKeys(SortGroups(gs, order))
    decreases |gs|
  {
    if gs != [] {
      var rest := SortGroups(gs[1..], order);
      SortKeepsKeysDistinct(gs[1..], order);
      forall x | x in rest ensures x.key != gs[0].key {
        assert x in multiset(gs[1..]);
        var j :| 0 <= j < |gs[1..]| && gs[1..][j] == x;
        assert gs[j + 1] == x;
      }
      InsertDistinct(gs[0], rest, order);
    }
  }

  /** `LIMIT n`: the first `n` rows, or all of them when there are fewer. */
  function Take(ss: seq<Group>, limit: Option<nat>): (ts: seq<Group>)
    ensures limit.Some? ==> |ts| == if |ss| < limit.value then |ss| else limit.value
    ensures limit.None? ==> ts == ss
    ensures ts <= ss
  {
    if limit.Some? && limit.value < |ss| then ss[..limit.value] else ss
  }

  /** Cutting a sorted list after its first rows keeps the rows that may come first:
      every row cut off may be listed after every row kept. */
  lemma TakeKeepsFirst(ss: seq<Group>, limit: Option<nat>, order: seq<SortKey>)
    requires Sorted(ss, order)
    ensures var ts := Take(ss, limit);
            Sorted(ts, order)
            && forall i, j :: 0 <= i < |ts| <= j < |ss| ==> Before(ts[i], ss[j], order)
  {
  }
}
