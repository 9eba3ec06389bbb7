/** `SELECT ... FROM policelog_data WHERE ... GROUP BY ...` over the loaded record
    list: the columns the catalog groups and filters on, the WHERE conditions it
    uses, and the groups with the aggregates the queries select (`COUNT(*)`, the
    `SUM(CASE WHEN flag = TRUE ...)` counts, and the sum and count behind `AVG(driver_age)`). */
module Grouping {
  import opened Basics
  import opened Records
  import opened Values

  /** A grouping or filtering expression over one record. `HOUR(stop_time)`,
      `YEAR(stop_date)` and `MONTH(stop_date)` are the record's integer fields;
      `TimeOfDay` is the CASE expression with its two labels. */
  datatype Column =
    | CountryName | DriverGender | DriverAge | DriverRace | ViolationName
    | VehicleNumber | StopHour | StopYear | StopMonth | StopDuration
    | TimeOfDay(day: string, night: string)

  /** `CASE WHEN HOUR(stop_time) BETWEEN 6 AND 17 THEN day ELSE night END`: a NULL hour
      fails the BETWEEN test and takes the ELSE branch. */
  function TimeOfDayLabel(hour: Option<int>, day: string, night: string): (t: string)
    ensures t == day || t == night
    ensures hour.Some? && 6 <= hour.value <= 17 ==> t == day
    ensures hour.None? || hour.value < 6 || 17 < hour.value ==> t == night
  {
    if hour.Some? && 6 <= hour.value <= 17 then day else night
  }

  function ColumnValue(r: StopRecord, c: Column): Value
  {
    match c
    case CountryName => OfString(r.countryName)
    case DriverGender => OfString(r.driverGender)
    case DriverAge => OfInt(r.driverAge)
    case DriverRace => OfString(r.driverRace)
    case ViolationName => OfString(r.violation)
    case VehicleNumber => OfString(r.vehicleNumber)
    case StopHour => OfInt(r.stopHour)
    case StopYear => if r.stopDate.Some? then Int(r.stopDate.value.year) else Null
    case StopMonth => if r.stopDate.Some? then Int(r.stopDate.value.month) else Null
    case StopDuration => OfString(r.stopDuration)
    case TimeOfDay(day, night) => Str(TimeOfDayLabel(r.stopHour, day, night))
  }

  datatype Flag = DrugsRelated | SearchConducted | Arrested

  function FlagOf(r: StopRecord, f: Flag): Option<bool>
  {
    match f
    case DrugsRelated => r.drugsRelatedStop
    case SearchConducted => r.searchConducted
    case Arrested => r.isArrested
  }

  /** The WHERE conjuncts the catalog uses. A comparison with a NULL age is not true,
      so `AgeAbove` and `AgeBelow` reject a NULL age. */
  datatype Cond =
    | NotNull(col: Column)      // col IS NOT NULL
    | FlagTrue(flag: Flag)      // flag = TRUE
    | AgeAbove(bound: int)      // driver_age > bound
    | AgeBelow(bound: int)      // driver_age < bound

  predicate Holds(r: StopRecord, c: Cond)
  {
    match c
    case NotNull(col) => ColumnValue(r, col) != Null
    case FlagTrue(f) => IsTrue(FlagOf(r, f))
    case AgeAbove(n) => r.driverAge.Some? && r.driverAge.value > n
    case AgeBelow(n) => r.driverAge.Some? && r.driverAge.value < n
  }

  /** The WHERE clause (a conjunction; empty when there is none) and the GROUP BY list. */
  datatype Selection = Selection(where: seq<Cond>, groupBy: seq<Column>)

  predicate Selected(r: StopRecord, where: seq<Cond>)
  {
    forall i :: 0 <= i < |where| ==> Holds(r, where[i])
  }

  /** A one-conjunct WHERE clause is that conjunct. */
  lemma SelectedOne(r: StopRecord, c: Cond)
    ensures Selected(r, [c]) <==> Holds(r, c)
  {
    assert [c][0] == c;
  }

  /** The tuple of grouping values of a record. */
  function KeyOf(r: StopRecord, cols: seq<Column>): (k: seq<Value>)
    ensures |k| == |cols|
  {
    seq(|cols|, i requires 0 <= i < |cols| => ColumnValue(r, cols[i]))
  }

  /** The record passes WHERE and falls into the group with key `k`. */
  predicate InGroup(r: StopRecord, sel: Selection, k: seq<Value>)
  {
    Selected(r, sel.where) && KeyOf(r, sel.groupBy) == k
  }

  function MemberTest(sel: Selection, k: seq<Value>): StopRecord -> bool
  {
    r => InGroup(r, sel, k)
  }

  /** The rows of the group with key `k`, in table order. */
  function Members(rs: seq<StopRecord>, sel: Selection, k: seq<Value>): seq<StopRecord>
  {
    Filter(rs, MemberTest(sel, k))
  }

  /** One row of a grouped query before its SELECT list is evaluated. */
  datatype Group = Group(
    key: seq<Value>,
    stops: nat,      // COUNT(*)
    searches: nat,   // SUM(CASE WHEN search_conducted = TRUE THEN 1 ELSE 0 END)
    arrests: nat,    // SUM(CASE WHEN is_arrested = TRUE THEN 1 ELSE 0 END)
    ageSum: int,     // SUM(driver_age) over the non-NULL ages
    ageCount: nat)   // COUNT(driver_age)

  predicate WasSearched(r: StopRecord)
  {
    IsTrue(r.searchConducted)
  }

  predicate WasArrested(r: StopRecord)
  {
    IsTrue(r.isArrested)
  }

  predicate HasAge(r: StopRecord)
  {
    r.driverAge.Some?
  }

  function AgeOrZero(r: StopRecord): int
  {
    if r.driverAge.Some? then r.driverAge.value else 0
  }

  /** The aggregates of the group with key `k`, computed from its members. Each
      conditional count and the age count are at most the row count. */
  function Tally(rs: seq<StopRecord>, sel: Selection, k: seq<Value>): (g: Group)
    ensures g.key == k
    ensures g.stops == |Members(rs, sel, k)|
    ensures g.searches <= g.stops && g.arrests <= g.stops && g.ageCount <= g.stops
  {
    var ms := Members(rs, sel, k);
    Group(k, |ms|, CountIf(ms, WasSearched), CountIf(ms, WasArrested), SumBy(ms, AgeOrZero), CountIf(ms, HasAge))
  }

  /** The distinct keys of the rows passing WHERE, in order of first appearance. */
  function Keys(rs: seq<StopRecord>, sel: Selection): (ks: seq<seq<Value>>)
    ensures forall i, j :: 0 <= i < j < |ks| ==> ks[i] != ks[j]
    ensures forall k :: k in ks ==> exists r :: r in rs && InGroup(r, sel, k)
    ensures forall r :: r in rs && Selected(r, sel.where) ==> KeyOf(r, sel.groupBy) in ks
    decreases |rs|
  {
    if rs == [] then []
    else
      var front := rs[..|rs| - 1];
      var last := rs[|rs| - 1];
      var ks := Keys(front, sel);
      assert forall r :: r in rs ==> r in front || r == last by {
        assert rs == front + [last];
      }
      assert forall r :: r in front ==> r in rs;
      if Selected(last, sel.where) && KeyOf(last, sel.groupBy) !in ks then
        assert InGroup(last, sel, KeyOf(last, sel.groupBy));
        ks + [KeyOf(last, sel.groupBy)]
      else
        ks
  }

  /** A key found among the rows passing WHERE has a member, and one value per column. */
  lemma KeyHasMember(rs: seq<StopRecord>, sel: Selection, ks: seq<seq<Value>>, i: nat)
    requires ks == Keys(rs, sel) && i < |ks|
    ensures |Members(rs, sel, ks[i])| >= 1 && |ks[i]| == |sel.groupBy|
  {
    assert ks[i] in ks;
    var r :| r in rs && InGroup(r, sel, ks[i]);
    assert r in Members(rs, sel, ks[i]);
  }

  /** `GROUP BY`: one group per distinct key of the rows passing WHERE, carrying the
      aggregates of exactly the rows with that key. No group is empty, no two groups
      share a key, and every row passing WHERE falls into one of them. */
  function Aggregate(rs: seq<StopRecord>, sel: Selection): (gs: seq<Group>)
    ensures forall i :: 0 <= i < |gs| ==> gs[i] == Tally(rs, sel, gs[i].key)
    ensures forall i :: 0 <= i < |gs| ==> gs[i].stops >= 1 && |gs[i].key| == |sel.groupBy|
    ensures forall i, j :: 0 <= i < j < |gs| ==> gs[i].key != gs[j].key
    ensures forall r :: r in rs && Selected(r, sel.where) ==> exists i :: 0 <= i < |gs| && gs[i].key == KeyOf(r, sel.groupBy)
  {
    var ks := Keys(rs, sel);
    var gs := seq(|ks|, i requires 0 <= i < |ks| => Tally(rs, sel, ks[i]));
    GroupsNonEmpty(rs, sel, ks, gs);
    GroupsCover(rs, sel, ks, gs);
    gs
  }

  lemma GroupsNonEmpty(rs: seq<StopRecord>, sel: Selection, ks: seq<seq<Value>>, gs: seq<Group>)
    requires ks == Keys(rs, sel)
    requires |gs| == |ks| && forall i :: 0 <= i < |ks| ==> gs[i] == Tally(rs, sel, ks[i])
    ensures forall i :: 0 <= i < |gs| ==> gs[i].stops >= 1 && |gs[i].key| == |sel.groupBy|
  {
    forall i | 0 <= i < |gs| ensures gs[i].stops >= 1 && |gs[i].key| == |sel.groupBy| {
      KeyHasMember(rs, sel, ks, i);
    }
  }

  lemma GroupsCover(rs: seq<StopRecord>, sel: Selection, ks: seq<seq<Value>>, gs: seq<Group>)
    requires ks == Keys(rs, sel)
    requires |gs| == |ks| && forall i :: 0 <= i < |ks| ==> gs[i].key == ks[i]
    ensures forall r :: r in rs && Selected(r, sel.where) ==> exists i :: 0 <= i < |gs| && gs[i].key == KeyOf(r, sel.groupBy)
  {
    forall r | r in rs && Selected(r, sel.where)
      ensures exists i :: 0 <= i < |gs| && gs[i].key == KeyOf(r, sel.groupBy)
    {
      var i :| 0 <= i < |ks| && ks[i] == KeyOf(r, sel.groupBy);
      assert gs[i].key == ks[i];
    }
  }
}
