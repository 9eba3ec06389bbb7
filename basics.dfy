/** Vocabulary shared by every part of the model: optional values, the ordering
    Python and MySQL use on text, case-insensitive substring search, total orders,
    and counts and sums over sequences. */
module Basics {

  datatype Option<+T> = None | Some(value: T)

  /** A relation that is a total order (reflexive by totality, antisymmetric, transitive). */
  ghost predicate TotalOrder<T(!new)>(le: (T, T) -> bool)
  {
    && (forall a, b :: le(a, b) || le(b, a))
    && (forall a, b :: le(a, b) && le(b, a) ==> a == b)
    && (forall a, b, c :: le(a, b) && le(b, c) ==> le(a, c))
  }

  // ---------------------------------------------------------------------------
  // Text order: strings compare character by character by code point, and a
  // proper prefix comes first (Python's str comparison; the SQL side is modelled
  // with the same order, see README).
  // ---------------------------------------------------------------------------

  predicate StrLt(a: string, b: string)
  {
    if b == [] then false
    else if a == [] then true
    else if a[0] != b[0] then a[0] < b[0]
    else StrLt(a[1..], b[1..])
  }

  predicate StrLe(a: string, b: string)
  {
    a == b || StrLt(a, b)
  }

  lemma {:induction false} StrLtIrreflexive(a: string)
    ensures !StrLt(a, a)
  {
    if a != [] {
      StrLtIrreflexive(a[1..]);
    }
  }

  lemma {:induction false} StrLtTransitive(a: string, b: string, c: string)
    requires StrLt(a, b) && StrLt(b, c)
    ensures StrLt(a, c)
  {
    if a != [] && a[0] == b[0] && b[0] == c[0] {
      StrLtTransitive(a[1..], b[1..], c[1..]);
    }
  }

  lemma {:induction false} StrLtTrichotomy(a: string, b: string)
    ensures StrLt(a, b) || a == b || StrLt(b, a)
  {
    if a != [] && b != [] && a[0] == b[0] {
      StrLtTrichotomy(a[1..], b[1..]);
      if a[1..] == b[1..] {
        assert a == [a[0]] + a[1..] && b == [b[0]] + b[1..];
      }
    }
  }

  lemma StrLtAsymmetric(a: string, b: string)
    requires StrLt(a, b)
    ensures !StrLt(b, a) && a != b
  {
    if StrLt(b, a) {
      StrLtTransitive(a, b, a);
      StrLtIrreflexive(a);
    }
    if a == b {
      StrLtIrreflexive(a);
    }
  }

  /** `StrLe` is a total order, so "the smallest" of a set of strings is well defined. */
  lemma StrLeTotalOrder()
    ensures TotalOrder(StrLe)
  {
    forall a: string, b: string
      ensures StrLe(a, b) || StrLe(b, a)
    {
      StrLtTrichotomy(a, b);
    }
    forall a: string, b: string | StrLe(a, b) && StrLe(b, a)
      ensures a == b
    {
      if a != b {
        StrLtAsymmetric(a, b);
      }
    }
    forall a: string, b: string, c: string | StrLe(a, b) && StrLe(b, c)
      ensures StrLe(a, c)
    {
      if a != b && b != c {
        StrLtTransitive(a, b, c);
      }
    }
  }

  // ---------------------------------------------------------------------------
  // Substring search, plain and ignoring ASCII case.
  // ---------------------------------------------------------------------------

  predicate StartsWith(s: string, p: string)
  {
    |p| <= |s| && s[..|p|] == p
  }

  /** Whether `p` occurs in `s`, scanning start positions from the left. */
  predicate Contains(s: string, p: string)
    decreases |s|
  {
    if StartsWith(s, p) then true
    else if s == [] then false
    else Contains(s[1..], p)
  }

  /** `p` occurs in `s` starting at position `i`. */
  predicate OccursAt(s: string, p: string, i: int)
  {
    0 <= i && i + |p| <= |s| && s[i..i + |p|] == p
  }

  /** The scan finds `p` exactly when `p` occurs at some position of `s`. */
  lemma {:induction false} ContainsIffOccurs(s: string, p: string)
    ensures Contains(s, p) <==> exists i :: OccursAt(s, p, i)
    decreases |s|
  {
    if StartsWith(s, p) {
      assert OccursAt(s, p, 0);
    } else if s == [] {
      assert forall i :: !OccursAt(s, p, i);
    } else {
      ContainsIffOccurs(s[1..], p);
      if exists i :: OccursAt(s, p, i) {
        var i :| OccursAt(s, p, i);
        assert i != 0;
        assert s[1..][i - 1..i - 1 + |p|] == s[i..i + |p|];
        assert OccursAt(s[1..], p, i - 1);
      }
      if exists j :: OccursAt(s[1..], p, j) {
        var j :| OccursAt(s[1..], p, j);
        assert s[j + 1..j + 1 + |p|] == s[1..][j..j + |p|];
        assert OccursAt(s, p, j + 1);
      }
    }
  }

  /** A pattern longer than the text never occurs in it. */
  lemma {:induction false} ContainsNeedsRoom(s: string, p: string)
    requires |s| < |p|
    ensures !Contains(s, p)
    decreases |s|
  {
    if s != [] {
      ContainsNeedsRoom(s[1..], p);
    }
  }

  function LowerChar(c: char): char
  {
    if 'A' <= c <= 'Z' then (c as int + 32) as char else c
  }

  function Lower(s: string): string
  {
    seq(|s|, i requires 0 <= i < |s| => LowerChar(s[i]))
  }

  /** pandas `str.contains(p, case=False)` for a plain-letter pattern, ASCII case only. */
  predicate ContainsIgnoringCase(s: string, p: string)
  {
    Contains(Lower(s), Lower(p))
  }

  // ---------------------------------------------------------------------------
  // Counting and summing over sequences.
  // ---------------------------------------------------------------------------

  /** The positions of `s` whose element satisfies `p`. */
  ghost function Positions<T>(s: seq<T>, p: T -> bool): set<int>
  {
    set i | 0 <= i < |s| && p(s[i])
  }

  /** Number of elements of `s` satisfying `p`, counted by a scan from the end. */
  function CountIf<T>(s: seq<T>, p: T -> bool): (n: nat)
    ensures n <= |s|
    ensures n == |Positions(s, p)|
    decreases |s|
  {
    if s == [] then
      0
    else
      var last := |s| - 1;
      var front := s[..last];
      var rest := CountIf(front, p);
      var before := set i | 0 <= i < |front| && p(front[i]);
      var all := set i | 0 <= i < |s| && p(s[i]);
      if p(s[last]) then
        assert all == before + {last};
        rest + 1
      else
        assert all == before;
        rest
  }

  /** Two predicates that agree on every element count the same elements. */
  lemma {:induction false} CountIfPointwise<T>(s: seq<T>, p: T -> bool, q: T -> bool)
    requires forall i :: 0 <= i < |s| ==> p(s[i]) == q(s[i])
    ensures CountIf(s, p) == CountIf(s, q)
    decreases |s|
  {
    if s != [] {
      CountIfPointwise(s[..|s| - 1], p, q);
    }
  }

  /** The elements of `s` satisfying `p`, in their order. */
  function Filter<T>(s: seq<T>, p: T -> bool): (r: seq<T>)
    ensures |r| <= |s|
    ensures forall x :: x in r ==> x in s && p(x)
    ensures forall x :: x in s && p(x) ==> x in r
    decreases |s|
  {
    if s == [] then []
    else if p(s[0]) then [s[0]] + Filter(s[1..], p)
    else Filter(s[1..], p)
  }

  /** A property holds of every kept element exactly when it holds of every element satisfying `p`. */
  lemma FilterEvery<T>(s: seq<T>, p: T -> bool, g: T -> bool)
    ensures (forall j :: 0 <= j < |Filter(s, p)| ==> g(Filter(s, p)[j]))
            <==> (forall i :: 0 <= i < |s| && p(s[i]) ==> g(s[i]))
  {
    var r := Filter(s, p);
    if forall j :: 0 <= j < |r| ==> g(r[j]) {
      forall i | 0 <= i < |s| && p(s[i]) ensures g(s[i]) {
        assert s[i] in s;
        assert s[i] in r;
        var j :| 0 <= j < |r| && r[j] == s[i];
        assert g(r[j]);
      }
    }
    if forall i :: 0 <= i < |s| && p(s[i]) ==> g(s[i]) {
      forall j | 0 <= j < |r| ensures g(r[j]) {
        assert r[j] in r;
        assert r[j] in s && p(r[j]);
        var i :| 0 <= i < |s| && s[i] == r[j];
        assert p(s[i]);
      }
    }
  }

  /** Two tests that agree on every element keep the same elements. */
  lemma {:induction false} FilterPointwise<T>(s: seq<T>, p: T -> bool, q: T -> bool)
    requires forall i :: 0 <= i < |s| ==> p(s[i]) == q(s[i])
    ensures Filter(s, p) == Filter(s, q)
    decreases |s|
  {
    if s != [] {
      FilterPointwise(s[1..], p, q);
    }
  }

  /** Nothing is kept exactly when no element satisfies `p`. */
  lemma FilterEmpty<T>(s: seq<T>, p: T -> bool)
    ensures Filter(s, p) == [] <==> forall i :: 0 <= i < |s| ==> !p(s[i])
  {
    var r := Filter(s, p);
    if r != [] {
      assert r[0] in r;
    }
    if exists i :: 0 <= i < |s| && p(s[i]) {
      var i :| 0 <= i < |s| && p(s[i]);
      assert s[i] in r;
    }
  }

  lemma {:induction false} FilterConcat<T>(a: seq<T>, b: seq<T>, p: T -> bool)
    ensures Filter(a + b, p) == Filter(a, p) + Filter(b, p)
    decreases |a|
  {
    if a == [] {
      assert a + b == b;
    } else {
      assert (a + b)[1..] == a[1..] + b;
      FilterConcat(a[1..], b, p);
    }
  }

  /** When every element passes, filtering keeps the whole sequence. */
  lemma {:induction false} FilterKeepsAll<T>(s: seq<T>, p: T -> bool)
    requires forall i :: 0 <= i < |s| ==> p(s[i])
    ensures Filter(s, p) == s
    decreases |s|
  {
    if s != [] {
      FilterKeepsAll(s[1..], p);
    }
  }

  /** When nothing after position `n` passes, filtering the prefix up to `n` keeps it all. */
  lemma FilterEmptyTail<T>(s: seq<T>, n: nat, p: T -> bool)
    requires n <= |s|
    requires Filter(s[n..], p) == []
    ensures Filter(s, p) == Filter(s[..n], p)
  {
    assert s == s[..n] + s[n..];
    FilterConcat(s[..n], s[n..], p);
  }

  /** Filtering keeps exactly the copies of the elements that pass. */
  lemma {:induction false} FilterCounts<T>(s: seq<T>, p: T -> bool, x: T)
    ensures multiset(Filter(s, p))[x] == if p(x) then multiset(s)[x] else 0
    decreases |s|
  {
    if s != [] {
      FilterCounts(s[1..], p, x);
      assert s == [s[0]] + s[1..];
      assert multiset(s) == multiset{s[0]} + multiset(s[1..]);
      if p(s[0]) {
        assert multiset(Filter(s, p)) == multiset{s[0]} + multiset(Filter(s[1..], p));
      }
    }
  }

  /** Filtering two arrangements of the same elements keeps the same elements. */
  lemma FilterPermutation<T(!new)>(a: seq<T>, b: seq<T>, p: T -> bool)
    requires multiset(a) == multiset(b)
    ensures multiset(Filter(a, p)) == multiset(Filter(b, p))
  {
    var fa, fb := multiset(Filter(a, p)), multiset(Filter(b, p));
    forall x ensures fa[x] == fb[x] {
      FilterCounts(a, p, x);
      FilterCounts(b, p, x);
    }
    assert fa == fb;
  }

  /** Sum of `f` over the elements of `s`. */
  function SumBy<T>(s: seq<T>, f: T -> int): int
    decreases |s|
  {
    if s == [] then 0 else f(s[0]) + SumBy(s[1..], f)
  }

  lemma {:induction false} SumByConcat<T>(a: seq<T>, b: seq<T>, f: T -> int)
    ensures SumBy(a + b, f) == SumBy(a, f) + SumBy(b, f)
    decreases |a|
  {
    if a == [] {
      assert a + b == b;
    } else {
      assert (a + b)[1..] == a[1..] + b;
      SumByConcat(a[1..], b, f);
    }
  }

  /** Removing the element at position `k` removes its term from the sum. */
  lemma SumByRemove<T>(b: seq<T>, k: nat, f: T -> int)
    requires k < |b|
    ensures SumBy(b, f) == f(b[k]) + SumBy(b[..k] + b[k + 1..], f)
  {
    assert b == b[..k] + [b[k]] + b[k + 1..];
    SumByConcat(b[..k] + [b[k]], b[k + 1..], f);
    SumByConcat(b[..k], [b[k]], f);
    SumByConcat(b[..k], b[k + 1..], f);
  }

  /** Removing the element at position `k` removes one copy of it from the multiset. */
  lemma MultisetRemove<T>(b: seq<T>, k: nat)
    requires k < |b|
    ensures multiset(b[..k] + b[k + 1..]) == multiset(b) - multiset{b[k]}
  {
    assert b == b[..k] + [b[k]] + b[k + 1..];
    assert multiset(b) == multiset(b[..k]) + multiset{b[k]} + multiset(b[k + 1..]);
  }

  /** Reordering the elements does not change the sum. */
  lemma {:induction false} SumByPermutation<T>(a: seq<T>, b: seq<T>, f: T -> int)
    requires multiset(a) == multiset(b)
    ensures SumBy(a, f) == SumBy(b, f)
    decreases |a|
  {
    if a == [] {
      assert |b| == |multiset(b)| == 0;
    } else {
      assert a[0] in multiset(b);
      var k :| 0 <= k < |b| && b[k] == a[0];
      MultisetRemove(b, k);
      assert a == [a[0]] + a[1..];
      assert multiset(a[1..]) == multiset(a) - multiset{a[0]};
      SumByPermutation(a[1..], b[..k] + b[k + 1..], f);
      SumByRemove(b, k, f);
    }
  }

  /** Two functions that agree on every element give the same sum. */
  lemma {:induction false} SumByPointwise<T>(s: seq<T>, f: T -> int, g: T -> int)
    requires forall i :: 0 <= i < |s| ==> f(s[i]) == g(s[i])
    ensures SumBy(s, f) == SumBy(s, g)
    decreases |s|
  {
    if s != [] {
      SumByPointwise(s[1..], f, g);
    }
  }

  lemma {:induction false} SumByNonNegative<T>(s: seq<T>, f: T -> int)
    requires forall i :: 0 <= i < |s| ==> f(s[i]) >= 0
    ensures SumBy(s, f) >= 0
    decreases |s|
  {
    if s != [] {
      SumByNonNegative(s[1..], f);
    }
  }

  /** A sum of non-negative terms is at least any one of them. */
  lemma {:induction false} SumByAtLeastTerm<T>(s: seq<T>, f: T -> int, k: nat)
    requires k < |s|
    requires forall i :: 0 <= i < |s| ==> f(s[i]) >= 0
    ensures SumBy(s, f) >= f(s[k])
    decreases |s|
  {
    if k == 0 {
      SumByNonNegative(s[1..], f);
    } else {
      SumByAtLeastTerm(s[1..], f, k - 1);
    }
  }

  /** A predicate implied by another counts at least as many elements. */
  lemma {:induction false} CountIfMonotone<T>(s: seq<T>, p: T -> bool, q: T -> bool)
    requires forall i :: 0 <= i < |s| && p(s[i]) ==> q(s[i])
    ensures CountIf(s, p) <= CountIf(s, q)
    decreases |s|
  {
    if s != [] {
      CountIfMonotone(s[..|s| - 1], p, q);
    }
  }

  /** ... and strictly more when some element satisfies only the weaker predicate. */
  lemma {:induction false} CountIfStrictlyMore<T>(s: seq<T>, p: T -> bool, q: T -> bool, k: nat)
    requires forall i :: 0 <= i < |s| && p(s[i]) ==> q(s[i])
    requires k < |s| && !p(s[k]) && q(s[k])
    ensures CountIf(s, p) < CountIf(s, q)
    decreases |s|
  {
    var front := s[..|s| - 1];
    if k == |s| - 1 {
      CountIfMonotone(front, p, q);
    } else {
      assert front[k] == s[k];
      CountIfStrictlyMore(front, p, q, k);
    }
  }
}
