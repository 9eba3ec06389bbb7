/** pandas `Series.mode().iloc[0]`: among the non-null values of a column, the most
    frequent one; `mode()` returns all most-frequent values sorted ascending, so
    `iloc[0]` breaks a tie in favour of the smallest. A column with no non-null value
    has an empty mode. */
module Modes {
  import opened Basics

  /** How often `v` occurs in `xs`. */
  function Occurrences<T(==)>(xs: seq<Option<T>>, v: T): nat
    decreases |xs|
  {
    if xs == [] then 0
    else (if xs[0] == Some(v) then 1 else 0) + Occurrences(xs[1..], v)
  }

  /** `a` ranks at least as high as `b` for `mode().iloc[0]`: strictly more frequent,
      or as frequent and not larger. */
  predicate Outranks<T(==)>(xs: seq<Option<T>>, le: (T, T) -> bool, a: T, b: T)
  {
    Occurrences(xs, a) > Occurrences(xs, b)
    || (Occurrences(xs, a) == Occurrences(xs, b) && le(a, b))
  }

  /** `m` is the value `mode().iloc[0]` picks: it occurs, and it outranks every value that occurs. */
  predicate IsFirstMode<T(==)>(xs: seq<Option<T>>, le: (T, T) -> bool, m: T)
  {
    && (exists i :: 0 <= i < |xs| && xs[i] == Some(m))
    && (forall i :: 0 <= i < |xs| && xs[i].Some? ==> Outranks(xs, le, m, xs[i].value))
  }

  lemma OutranksTotal<T(!new)>(xs: seq<Option<T>>, le: (T, T) -> bool, a: T, b: T)
    requires TotalOrder(le)
    ensures Outranks(xs, le, a, b) || Outranks(xs, le, b, a)
  {
  }

  lemma OutranksTransitive<T(!new)>(xs: seq<Option<T>>, le: (T, T) -> bool, a: T, b: T, c: T)
    requires TotalOrder(le)
    requires Outranks(xs, le, a, b) && Outranks(xs, le, b, c)
    ensures Outranks(xs, le, a, c)
  {
  }

  /** The best-ranked non-null value of `xs[from..]`, ranked by counts over all of `xs`. */
  function BestFrom<T(==,!new)>(xs: seq<Option<T>>, le: (T, T) -> bool, from: nat): (m: Option<T>)
    requires TotalOrder(le)
    requires from <= |xs|
    ensures m.None? <==> forall i :: from <= i < |xs| ==> xs[i].None?
    ensures m.Some? ==> exists i :: from <= i < |xs| && xs[i] == m
    ensures m.Some? ==> forall i :: from <= i < |xs| && xs[i].Some? ==> Outranks(xs, le, m.value, xs[i].value)
    decreases |xs| - from
  {
    if from == |xs| then None
    else
      var rest := BestFrom(xs, le, from + 1);
      match xs[from]
      case None => rest
      case Some(v) =>
        if rest.None? then Some(v)
        else if Outranks(xs, le, v, rest.value) then
          assert forall i :: from < i < |xs| && xs[i].Some? ==> Outranks(xs, le, v, xs[i].value) by {
            forall i | from < i < |xs| && xs[i].Some? {
              OutranksTransitive(xs, le, v, rest.value, xs[i].value);
            }
          }
          Some(v)
        else
          OutranksTotal(xs, le, v, rest.value);
          rest
  }

  /** `mode().iloc[0]`, with `None` for a column that has no non-null value. */
  function FirstMode<T(==,!new)>(xs: seq<Option<T>>, le: (T, T) -> bool): (m: Option<T>)
    requires TotalOrder(le)
    ensures m.None? <==> forall i :: 0 <= i < |xs| ==> xs[i].None?
    ensures m.Some? ==> IsFirstMode(xs, le, m.value)
  {
    BestFrom(xs, le, 0)
  }

  /** Only one value can be the first mode, so `FirstMode` is fully determined by its contract. */
  lemma FirstModeUnique<T(!new)>(xs: seq<Option<T>>, le: (T, T) -> bool, m: T, n: T)
    requires TotalOrder(le)
    requires IsFirstMode(xs, le, m) && IsFirstMode(xs, le, n)
    ensures m == n
  {
    var i :| 0 <= i < |xs| && xs[i] == Some(n);
    var j :| 0 <= j < |xs| && xs[j] == Some(m);
    assert Outranks(xs, le, m, n) && Outranks(xs, le, n, m);
  }

  /** A value that occurs is counted at least once. */
  lemma {:induction false} OccurrencesPositive<T>(xs: seq<Option<T>>, i: nat)
    requires i < |xs| && xs[i].Some?
    ensures Occurrences(xs, xs[i].value) >= 1
    decreases |xs|
  {
    if i > 0 {
      OccurrencesPositive(xs[1..], i - 1);
    }
  }
}
