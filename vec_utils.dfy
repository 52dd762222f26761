/** The missing-aware median of a column: sort the observed values and take
    the middle one (odd count) or the mean of the two middle ones (even count);
    a column with no observed value has the missing marker as its median. */
module VecUtils {
  import opened Cells

  predicate Sorted(s: seq<real>)
  {
    forall i, j :: 0 <= i < j < |s| ==> s[i] <= s[j]
  }

  /** Inserts `x` into a sorted sequence. */
  function Insert(x: real, s: seq<real>): (r: seq<real>)
    requires Sorted(s)
    ensures Sorted(r)
    ensures multiset(r) == multiset(s) + multiset{x}
    ensures forall i :: 0 <= i < |r| ==> r[i] == x || r[i] in s
  {
    if s == [] || x <= s[0] then
      [x] + s
    else
      assert s == [s[0]] + s[1..];
      [s[0]] + Insert(x, s[1..])
  }

  /** Sorts a sequence of reals in ascending order. */
  function Sort(s: seq<real>): (r: seq<real>)
    ensures Sorted(r)
    ensures multiset(r) == multiset(s)
  {
    if s == [] then []
    else
      assert s == [s[0]] + s[1..];
      Insert(s[0], Sort(s[1..]))
  }

  /** Number of elements of `s` that satisfy `p`. */
  function CountIf(s: seq<real>, p: real -> bool): nat
  {
    if s == [] then 0 else (if p(s[0]) then 1 else 0) + CountIf(s[1..], p)
  }

  function AtMost(m: real): real -> bool { x => x <= m }
  function AtLeast(m: real): real -> bool { x => x >= m }

  /** `m` is a median of `s`: at least half of the values lie at or below it
      and at least half lie at or above it. */
  predicate IsMedian(s: seq<real>, m: real)
  {
    2 * CountIf(s, AtMost(m)) >= |s| && 2 * CountIf(s, AtLeast(m)) >= |s|
  }

  /** The middle value of a sorted sequence, or the mean of its two middle values. */
  function Middle(t: seq<real>): real
    requires |t| > 0
  {
    if |t| % 2 == 1 then t[|t| / 2] else (t[|t| / 2 - 1] + t[|t| / 2]) / 2.0
  }

  /** The median of a non-empty sequence of observed values. */
  function Median(s: seq<real>): (m: real)
    requires |s| > 0
    ensures IsMedian(s, m)
    ensures |s| % 2 == 1 ==> m in s
  {
    var t := Sort(s);
    assert |t| == |multiset(t)| == |s|;
    var m := Middle(t);
    MiddleIsMedian(t);
    CountIfSort(s, AtMost(m));
    CountIfSort(s, AtLeast(m));
    assert t[|t| / 2] in multiset(t);
    m
  }

  /** `VecUtils.nanMedian`: the median of the observed cells of a column, or
      the missing marker when the column has no observed cell. */
  function NanMedian(col: seq<Cell>): (r: Cell)
    ensures r.Missing? <==> Observed(col) == []
    ensures r.Missing? <==> MissingCount(col) == |col|
    ensures r.Value? ==> IsMedian(Observed(col), r.v)
    ensures r.Value? && |Observed(col)| % 2 == 1 ==> r.v in Observed(col)
  {
    var obs := Observed(col);
    if obs == [] then Missing else Value(Median(obs))
  }

  lemma {:induction false} CountIfInsert(x: real, t: seq<real>, p: real -> bool)
    requires Sorted(t)
    ensures CountIf(Insert(x, t), p) == CountIf(t, p) + (if p(x) then 1 else 0)
  {
    if t == [] || x <= t[0] {
      assert ([x] + t)[1..] == t;
    } else {
      CountIfInsert(x, t[1..], p);
      assert ([t[0]] + Insert(x, t[1..]))[1..] == Insert(x, t[1..]);
    }
  }

  /** Sorting does not change how many values satisfy a predicate. */
  lemma {:induction false} CountIfSort(s: seq<real>, p: real -> bool)
    ensures CountIf(Sort(s), p) == CountIf(s, p)
  {
    if s != [] {
      CountIfSort(s[1..], p);
      CountIfInsert(s[0], Sort(s[1..]), p);
    }
  }

  lemma {:induction false} CountIfPrefix(t: seq<real>, p: real -> bool, k: nat)
    requires k <= |t|
    requires forall i :: 0 <= i < k ==> p(t[i])
    ensures CountIf(t, p) >= k
  {
    if k > 0 {
      CountIfPrefix(t[1..], p, k - 1);
    }
  }

  lemma {:induction false} CountIfSuffix(t: seq<real>, p: real -> bool, k: nat)
    requires k <= |t|
    requires forall i :: k <= i < |t| ==> p(t[i])
    ensures CountIf(t, p) >= |t| - k
  {
    if t != [] {
      CountIfSuffix(t[1..], p, if k == 0 then 0 else k - 1);
    }
  }

  /** The middle of a sorted sequence splits it into halves. */
  lemma MiddleIsMedian(t: seq<real>)
    requires Sorted(t) && |t| > 0
    ensures IsMedian(t, Middle(t))
  {
    var n, h, m := |t|, |t| / 2, Middle(t);
    if n % 2 == 1 {
      CountIfPrefix(t, AtMost(m), h + 1);
      CountIfSuffix(t, AtLeast(m), h);
    } else {
      CountIfPrefix(t, AtMost(m), h);
      CountIfSuffix(t, AtLeast(m), h);
    }
  }

  /** Two sorted sequences with the same elements are equal. */
  lemma {:induction false} SortedUnique(a: seq<real>, b: seq<real>)
    requires Sorted(a) && Sorted(b) && multiset(a) == multiset(b)
    ensures a == b
  {
    assert |a| == |multiset(a)| == |multiset(b)| == |b|;
    if a != [] {
      assert a[0] in multiset(b) && b[0] in multiset(a);
      assert a[0] == b[0];
      WithoutHead(a);
      WithoutHead(b);
      SortedUnique(a[1..], b[1..]);
      assert a == [a[0]] + a[1..] && b == [b[0]] + b[1..];
    }
  }

  lemma WithoutHead(a: seq<real>)
    requires a != []
    ensures multiset(a[1..]) == multiset(a) - multiset{a[0]}
  {
    assert a == [a[0]] + a[1..];
  }

  /** The median of a column depends only on its observed values, not on
      their row order nor on where the missing cells are. */
  lemma NanMedianOrderFree(c: seq<Cell>, d: seq<Cell>)
    requires multiset(Observed(c)) == multiset(Observed(d))
    ensures NanMedian(c) == NanMedian(d)
  {
    assert |Observed(c)| == |multiset(Observed(c))| == |Observed(d)|;
    SortedUnique(Sort(Observed(c)), Sort(Observed(d)));
  }

  /** The median is the middle of any sorted arrangement of the values. */
  lemma MedianBySorting(s: seq<real>, t: seq<real>)
    requires |s| > 0 && |t| > 0 && Sorted(t) && multiset(s) == multiset(t)
    ensures Median(s) == Middle(t)
  {
    SortedUnique(Sort(s), t);
  }

  /** The median of a column is the middle of any sorted arrangement of its
      observed values. */
  lemma NanMedianBySorting(col: seq<Cell>, t: seq<real>)
    requires |t| > 0 && Sorted(t) && multiset(Observed(col)) == multiset(t)
    ensures NanMedian(col) == Value(Middle(t))
  {
    assert |Observed(col)| == |multiset(t)| == |t|;
    MedianBySorting(Observed(col), t);
  }
}
