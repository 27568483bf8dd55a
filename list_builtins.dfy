/**
 * The Python list built-ins the statistics lean on: `sum`, `min`, `max`
 * and `sorted`, over exact reals (no floating-point rounding), and a
 * count of the values on one side of a threshold.
 */
module ListBuiltins {

  /** Python's `sum(s)`: left to right from zero. */
  function Sum(s: seq<real>): real
  {
    if |s| == 0 then 0.0 else Sum(s[..|s| - 1]) + s[|s| - 1]
  }

  /** Every value between `lo` and `hi` puts the sum between `|s|*lo` and `|s|*hi`. */
  lemma {:induction false} SumBetween(s: seq<real>, lo: real, hi: real)
    requires forall k :: 0 <= k < |s| ==> lo <= s[k] <= hi
    ensures |s| as real * lo <= Sum(s) <= |s| as real * hi
    decreases |s|
  {
    if |s| > 0 {
      var n := |s| as real;
      assert forall k :: 0 <= k < |s| - 1 ==> s[..|s| - 1][k] == s[k];
      SumBetween(s[..|s| - 1], lo, hi);
      assert n * lo == (n - 1.0) * lo + lo && n * hi == (n - 1.0) * hi + hi;
    }
  }

  /** Values between `lo` and `hi` have their average between `lo` and `hi`. */
  lemma AverageBetween(s: seq<real>, lo: real, hi: real)
    requires |s| > 0 && forall k :: 0 <= k < |s| ==> lo <= s[k] <= hi
    ensures lo <= Sum(s) / |s| as real <= hi
  {
    SumBetween(s, lo, hi);
    DivideBetween(Sum(s), |s| as real, lo, hi);
  }

  /** A total between `n*lo` and `n*hi` gives a quotient by `n` between `lo` and `hi`. */
  lemma DivideBetween(total: real, n: real, lo: real, hi: real)
    requires n > 0.0 && n * lo <= total <= n * hi
    ensures lo <= total / n <= hi
  {
    assert total == total / n * n;
  }

  /** A sum of values that are none of them negative is not negative. */
  lemma {:induction false} SumNonNegative(s: seq<real>)
    requires forall k :: 0 <= k < |s| ==> 0.0 <= s[k]
    ensures Sum(s) >= 0.0
    decreases |s|
  {
    if |s| > 0 {
      SumNonNegative(s[..|s| - 1]);
    }
  }

  /** Python's `min(s)`: a value of the list no greater than any other. */
  function Min(s: seq<real>): (m: real)
    requires |s| > 0
    ensures exists k :: 0 <= k < |s| && s[k] == m
    ensures forall k :: 0 <= k < |s| ==> m <= s[k]
  {
    if |s| == 1 then s[0]
    else
      var rest := Min(s[1..]);
      assert forall k :: 1 <= k < |s| ==> s[k] == s[1..][k - 1];
      if s[0] <= rest then s[0] else rest
  }

  /** Python's `max(s)`: a value of the list no less than any other. */
  function Max(s: seq<real>): (m: real)
    requires |s| > 0
    ensures exists k :: 0 <= k < |s| && s[k] == m
    ensures forall k :: 0 <= k < |s| ==> s[k] <= m
  {
    if |s| == 1 then s[0]
    else
      var rest := Max(s[1..]);
      assert forall k :: 1 <= k < |s| ==> s[k] == s[1..][k - 1];
      if rest <= s[0] then s[0] else rest
  }

  predicate IsSorted(s: seq<real>) {
    forall i, j :: 0 <= i < j < |s| ==> s[i] <= s[j]
  }

  /** `x` placed before the first larger-or-equal value of a sorted list. */
  function Insert(x: real, s: seq<real>): (r: seq<real>)
    requires IsSorted(s)
    ensures IsSorted(r) && multiset(r) == multiset(s) + multiset{x}
    ensures |r| == |s| + 1 && (r[0] == x || (|s| > 0 && r[0] == s[0]))
  {
    if |s| == 0 || x <= s[0] then [x] + s
    else
      var tail := Insert(x, s[1..]);
      assert multiset(s) == multiset{s[0]} + multiset(s[1..]) by { assert s == [s[0]] + s[1..]; }
      SortedCons(s[0], tail);
      [s[0]] + tail
  }

  /** A value no greater than the head of a sorted list extends it to a sorted list. */
  lemma SortedCons(y: real, t: seq<real>)
    requires IsSorted(t) && (|t| > 0 ==> y <= t[0])
    ensures IsSorted([y] + t)
  {
    var u := [y] + t;
    forall i, j | 0 <= i < j < |u|
      ensures u[i] <= u[j]
    {
      if i > 0 {
        assert u[i] == t[i - 1] && u[j] == t[j - 1];
      } else {
        assert u[j] == t[j - 1];
      }
    }
  }

  /** Python's `sorted(s)`: a sorted copy holding the same values, as often. */
  function Sorted(s: seq<real>): (r: seq<real>)
    ensures IsSorted(r) && multiset(r) == multiset(s)
    ensures |r| == |s|
    decreases |s|
  {
    if |s| == 0 then []
    else
      assert s == s[..|s| - 1] + [s[|s| - 1]];
      Insert(s[|s| - 1], Sorted(s[..|s| - 1]))
  }

  /** The two sides of a threshold. */
  datatype Side = Below | Above

  predicate Beyond(x: real, v: real, side: Side) {
    if side == Below then x < v else x > v
  }

  /** How many values of `s` lie strictly on `side` of `v`. */
  function Count(s: seq<real>, v: real, side: Side): nat
  {
    if |s| == 0 then 0 else (if Beyond(s[0], v, side) then 1 else 0) + Count(s[1..], v, side)
  }

  /** Counting is additive over concatenation. */
  lemma {:induction false} CountAppend(a: seq<real>, b: seq<real>, v: real, side: Side)
    ensures Count(a + b, v, side) == Count(a, v, side) + Count(b, v, side)
    decreases |a|
  {
    if |a| > 0 {
      CountAppend(a[1..], b, v, side);
      assert (a + b)[1..] == a[1..] + b;
    } else {
      assert a + b == b;
    }
  }

  /** Lists holding the same values, as often, have the same counts on either side of any threshold. */
  lemma {:induction false} CountPermutation(a: seq<real>, b: seq<real>, v: real, side: Side)
    requires multiset(a) == multiset(b)
    ensures Count(a, v, side) == Count(b, v, side)
    decreases |a|
  {
    if |a| == 0 {
      assert |b| == |multiset(b)| == 0;
    } else {
      assert a == [a[0]] + a[1..];
      assert a[0] in multiset(b);
      var i :| 0 <= i < |b| && b[i] == a[0];
      var rest := CountRemove(b, i, v, side);
      assert multiset(rest) == multiset(a[1..]);
      CountPermutation(a[1..], rest, v, side);
    }
  }

  /** Taking out the value at position `i` takes out its own contribution to the count and no other. */
  lemma CountRemove(b: seq<real>, i: nat, v: real, side: Side) returns (rest: seq<real>)
    requires i < |b|
    ensures rest == b[..i] + b[i + 1..]
    ensures multiset(rest) == multiset(b) - multiset{b[i]}
    ensures Count(b, v, side) == Count(rest, v, side) + (if Beyond(b[i], v, side) then 1 else 0)
  {
    var front, back := b[..i], b[i + 1..];
    assert b == front + [b[i]] + back;
    rest := front + back;
    CountAppend(front, back, v, side);
    CountAppend(front + [b[i]], back, v, side);
    CountAppend(front, [b[i]], v, side);
  }

  /** When only the positions in `[lo, hi)` can hold values beyond `v`, at most `hi - lo` do. */
  lemma {:induction false} CountWithin(s: seq<real>, v: real, side: Side, lo: nat, hi: nat)
    requires lo <= hi <= |s|
    requires forall j :: 0 <= j < |s| && Beyond(s[j], v, side) ==> lo <= j < hi
    ensures Count(s, v, side) <= hi - lo
    decreases |s|
  {
    if |s| > 0 {
      var lo', hi' := if lo == 0 then 0 else lo - 1, if hi == 0 then 0 else hi - 1;
      assert forall j :: 0 <= j < |s| - 1 ==> s[1..][j] == s[j + 1];
      CountWithin(s[1..], v, side, lo', hi');
    }
  }

  /** Python's `[x for x in s if keep(x)]`. */
  function Filter<T>(s: seq<T>, keep: T -> bool): (d: seq<T>)
    ensures |d| <= |s|
    ensures forall k :: 0 <= k < |d| ==> keep(d[k])
  {
    if |s| == 0 then []
    else if keep(s[0]) then [s[0]] + Filter(s[1..], keep)
    else Filter(s[1..], keep)
  }

  /** Filtering a concatenation filters each part. */
  lemma {:induction false} FilterAppend<T>(a: seq<T>, b: seq<T>, keep: T -> bool)
    ensures Filter(a + b, keep) == Filter(a, keep) + Filter(b, keep)
    decreases |a|
  {
    if |a| == 0 {
      assert a + b == b;
    } else {
      FilterAppend(a[1..], b, keep);
      assert (a + b)[1..] == a[1..] + b;
    }
  }

  /** Filtering one more element keeps it at the end, or drops it. */
  lemma FilterSnoc<T>(a: seq<T>, x: T, keep: T -> bool)
    ensures Filter(a + [x], keep) == if keep(x) then Filter(a, keep) + [x] else Filter(a, keep)
  {
    FilterAppend(a, [x], keep);
    assert [x][1..] == [];
    if !keep(x) {
      assert Filter(a, keep) + [] == Filter(a, keep);
    }
  }

  /** Filtering a prefix one element longer. */
  lemma FilterPrefixStep<T>(s: seq<T>, i: nat, keep: T -> bool)
    requires i < |s|
    ensures Filter(s[..i + 1], keep) == if keep(s[i]) then Filter(s[..i], keep) + [s[i]] else Filter(s[..i], keep)
  {
    FilterSnoc(s[..i], s[i], keep);
    assert s[..i] + [s[i]] == s[..i + 1];
  }

  /** A kept element sits in the filtered list right after what its prefix kept. */
  lemma FilterPrefixAt<T>(s: seq<T>, i: nat, keep: T -> bool)
    requires i < |s| && keep(s[i])
    ensures |Filter(s[..i], keep)| < |Filter(s, keep)|
    ensures Filter(s, keep)[|Filter(s[..i], keep)|] == s[i]
  {
    FilterPrefixStep(s, i, keep);
    FilterAppend(s[..i + 1], s[i + 1..], keep);
    assert s[..i + 1] + s[i + 1..] == s;
  }

  /** Every kept element of `s` is in the filtered list. */
  lemma {:induction false} FilterKeeps<T>(s: seq<T>, keep: T -> bool, k: nat)
    requires k < |s| && keep(s[k])
    ensures s[k] in Filter(s, keep)
    decreases k
  {
    if k > 0 {
      FilterKeeps(s[1..], keep, k - 1);
    }
  }

  /** In a sorted list, when `v` is no greater than the value at `m`, only the first `m` values can be below it. */
  lemma CountBelowSorted(s: seq<real>, m: nat, v: real)
    requires IsSorted(s) && m <= |s| && (m < |s| ==> v <= s[m])
    ensures Count(s, v, Below) <= m
  {
    forall j | m <= j < |s|
      ensures !Beyond(s[j], v, Below)
    {
      assert s[m] <= s[j];
    }
    CountWithin(s, v, Below, 0, m);
  }

  /** In a sorted list, when `v` is no less than the value before `m`, only the values from `m` on can be above it. */
  lemma CountAboveSorted(s: seq<real>, m: nat, v: real)
    requires IsSorted(s) && m <= |s| && (m > 0 ==> s[m - 1] <= v)
    ensures Count(s, v, Above) <= |s| - m
  {
    forall j | 0 <= j < m
      ensures !Beyond(s[j], v, Above)
    {
      assert s[j] <= s[m - 1];
    }
    CountWithin(s, v, Above, m, |s|);
  }

  /** A value no smaller than every value of a sorted list goes at its end. */
  lemma {:induction false} InsertLast(x: real, t: seq<real>)
    requires IsSorted(t) && forall k :: 0 <= k < |t| ==> t[k] <= x
    ensures Insert(x, t) == t + [x]
    decreases |t|
  {
    if |t| > 0 {
      if x <= t[0] {
        assert forall k :: 0 <= k < |t| ==> t[k] == x by {
          forall k | 0 <= k < |t|
            ensures t[k] == x
          {
            assert t[0] <= t[k];
          }
        }
        assert [x] + t == t + [x];
      } else {
        InsertLast(x, t[1..]);
        assert t == [t[0]] + t[1..];
      }
    }
  }

  /** Sorting a sorted list gives it back unchanged. */
  lemma {:induction false} SortedOfSorted(s: seq<real>)
    requires IsSorted(s)
    ensures Sorted(s) == s
    decreases |s|
  {
    if |s| > 0 {
      var front := s[..|s| - 1];
      SortedOfSorted(front);
      InsertLast(s[|s| - 1], front);
      assert front + [s[|s| - 1]] == s;
    }
  }
}
