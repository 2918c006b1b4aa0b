/**
 * Summary statistics over a numeric column, on exact reals: dropping nulls,
 * sorting, numpy's default (linear-interpolation) percentile, the pandas
 * median and maximum, and their NaN-skipping variants that give a null
 * result for a column with no values.
 */
module Stats {
  import opened Nullable
  import opened Tables

  /** The non-null values of a nullable column, in row order: `col.dropna()`. */
  function Present<T>(s: seq<T>, f: T -> Option<real>): (r: seq<real>)
    ensures |r| <= |s|
  {
    if s == [] then []
    else if f(s[0]).Some? then [f(s[0]).value] + Present(s[1..], f)
    else Present(s[1..], f)
  }

  /** Every value of the column is kept, and nothing else appears. */
  lemma {:induction false} PresentMembers<T>(s: seq<T>, f: T -> Option<real>)
    ensures forall i :: 0 <= i < |s| && f(s[i]).Some? ==> f(s[i]).value in Present(s, f)
    ensures forall v :: v in Present(s, f) ==> exists i :: 0 <= i < |s| && f(s[i]) == Some(v)
  {
    if s != [] {
      PresentMembers(s[1..], f);
      forall v | v in Present(s[1..], f) ensures exists i :: 0 <= i < |s| && f(s[i]) == Some(v) {
        var j :| 0 <= j < |s[1..]| && f(s[1..][j]) == Some(v);
        assert f(s[j + 1]) == Some(v);
      }
      forall i | 1 <= i < |s| && f(s[i]).Some? ensures f(s[i]).value in Present(s, f) {
        assert s[1..][i - 1] == s[i];
      }
    }
  }

  /** The column is empty after dropping nulls exactly when every cell is null. */
  lemma {:induction false} PresentEmpty<T>(s: seq<T>, f: T -> Option<real>)
    ensures Present(s, f) == [] <==> forall i :: 0 <= i < |s| ==> f(s[i]).None?
  {
    if s != [] {
      PresentEmpty(s[1..], f);
      if f(s[0]).None? {
        forall i | 1 <= i < |s| ensures f(s[i]) == f(s[1..][i - 1]) { }
      }
    }
  }

  lemma {:induction false} PresentAppend<T>(a: seq<T>, b: seq<T>, f: T -> Option<real>)
    ensures Present(a + b, f) == Present(a, f) + Present(b, f)
  {
    if a == [] {
      assert a + b == b;
    } else {
      assert (a + b)[1..] == a[1..] + b;
      PresentAppend(a[1..], b, f);
    }
  }

  /** Dropping nulls commutes with reordering the rows. */
  lemma {:induction false} PresentPermutation<T>(s: seq<T>, t: seq<T>, f: T -> Option<real>)
    requires multiset(s) == multiset(t)
    ensures multiset(Present(s, f)) == multiset(Present(t, f))
    decreases |s|
  {
    if s == [] {
      assert |t| == |multiset(t)| == 0;
    } else {
      var x := s[0];
      assert x in multiset(t);
      var j :| 0 <= j < |t| && t[j] == x;
      var rest := t[..j] + t[j + 1..];
      RemoveAt(t, j);
      assert s == [x] + s[1..];
      assert multiset(s[1..]) == multiset(rest);
      PresentPermutation(s[1..], rest, f);
      PresentAppend([x], s[1..], f);
      PresentRemove(t, j, f);
    }
  }

  lemma RemoveAt<T>(t: seq<T>, j: nat)
    requires j < |t|
    ensures multiset(t[..j] + t[j + 1..]) == multiset(t) - multiset{t[j]}
  {
    assert t == t[..j] + ([t[j]] + t[j + 1..]);
  }

  /** The row at `j` contributes its own value and the others theirs. */
  lemma PresentRemove<T>(t: seq<T>, j: nat, f: T -> Option<real>)
    requires j < |t|
    ensures multiset(Present(t, f)) == multiset(Present([t[j]], f)) + multiset(Present(t[..j] + t[j + 1..], f))
  {
    var a, x, b := t[..j], [t[j]], t[j + 1..];
    assert t == a + (x + b);
    PresentAppend(a, x + b, f);
    PresentAppend(x, b, f);
    PresentAppend(a, b, f);
    var pa, px, pb := Present(a, f), Present(x, f), Present(b, f);
    assert Present(t, f) == pa + (px + pb);
    assert Present(a + b, f) == pa + pb;
    assert multiset(pa + (px + pb)) == multiset(pa) + multiset(px) + multiset(pb);
  }

  predicate Sorted(s: seq<real>) {
    forall i, j :: 0 <= i <= j < |s| ==> s[i] <= s[j]
  }

  /** Inserts `x` into an ascending sequence. */
  function Insert(s: seq<real>, x: real): (r: seq<real>)
    requires Sorted(s)
    ensures Sorted(r)
    ensures multiset(r) == multiset(s) + multiset{x}
  {
    if s == [] || x <= s[0] then [x] + s
    else
      var tail := Insert(s[1..], x);
      assert s == [s[0]] + s[1..];
      HeadBelow(s, x, tail);
      [s[0]] + tail
  }

  /** The head of a sorted sequence is below every value of its tail with a larger value added. */
  lemma HeadBelow(s: seq<real>, x: real, tail: seq<real>)
    requires Sorted(s) && s != [] && s[0] < x
    requires multiset(tail) == multiset(s[1..]) + multiset{x}
    ensures forall k :: 0 <= k < |tail| ==> s[0] <= tail[k]
  {
    forall k | 0 <= k < |tail| ensures s[0] <= tail[k] {
      assert tail[k] in multiset(tail);
      if tail[k] != x {
        assert tail[k] in multiset(s[1..]);
        var i :| 0 <= i < |s[1..]| && s[1..][i] == tail[k];
        assert s[i + 1] == tail[k];
      }
    }
  }

  /** The column's values in ascending order. */
  function Sort(s: seq<real>): (r: seq<real>)
    ensures Sorted(r)
    ensures multiset(r) == multiset(s)
  {
    if s == [] then []
    else
      assert s == [s[0]] + s[1..];
      Insert(Sort(s[1..]), s[0])
  }

  /** There is only one ascending arrangement of a multiset of values. */
  lemma {:induction false} SortedUnique(a: seq<real>, b: seq<real>)
    requires Sorted(a) && Sorted(b) && multiset(a) == multiset(b)
    ensures a == b
    decreases |a|
  {
    assert |b| == |multiset(b)| == |a|;
    if a != [] {
      SortedHeads(a, b);
      SortedUnique(a[1..], b[1..]);
      assert a == [a[0]] + a[1..] && b == [b[0]] + b[1..];
    }
  }

  /** Two ascending arrangements of one multiset start alike, and their tails again agree as multisets. */
  lemma SortedHeads(a: seq<real>, b: seq<real>)
    requires Sorted(a) && Sorted(b) && multiset(a) == multiset(b) && a != [] && b != []
    ensures a[0] == b[0]
    ensures Sorted(a[1..]) && Sorted(b[1..]) && multiset(a[1..]) == multiset(b[1..])
  {
    SortedFirst(a, b);
    SortedTail(a);
    SortedTail(b);
  }

  lemma SortedFirst(a: seq<real>, b: seq<real>)
    requires Sorted(a) && Sorted(b) && multiset(a) == multiset(b) && a != [] && b != []
    ensures a[0] == b[0]
  {
    assert a[0] in multiset(b) && b[0] in multiset(a);
    var i :| 0 <= i < |b| && b[i] == a[0];
    var j :| 0 <= j < |a| && a[j] == b[0];
    assert b[0] <= b[i] && a[0] <= a[j];
  }

  lemma SortedTail(a: seq<real>)
    requires Sorted(a) && a != []
    ensures Sorted(a[1..]) && multiset(a[1..]) == multiset(a) - multiset{a[0]}
  {
    assert a == [a[0]] + a[1..];
  }

  /** Sorting forgets the order of the input. */
  lemma SortPermutation(a: seq<real>, b: seq<real>)
    requires multiset(a) == multiset(b)
    ensures Sort(a) == Sort(b)
  {
    SortedUnique(Sort(a), Sort(b));
  }

  lemma SortOfSorted(s: seq<real>)
    requires Sorted(s)
    ensures Sort(s) == s
  {
    SortedUnique(Sort(s), s);
  }

  function MinOf(s: seq<real>): (m: real)
    requires |s| > 0
    ensures m in s
    ensures forall i :: 0 <= i < |s| ==> m <= s[i]
  {
    if |s| == 1 then s[0]
    else
      var rest := MinOf(s[1..]);
      assert forall i :: 1 <= i < |s| ==> s[i] == s[1..][i - 1];
      if s[0] <= rest then s[0] else rest
  }

  /** The largest value: `col.max()`. */
  function MaxOf(s: seq<real>): (m: real)
    requires |s| > 0
    ensures m in s
    ensures forall i :: 0 <= i < |s| ==> s[i] <= m
  {
    if |s| == 1 then s[0]
    else
      var rest := MaxOf(s[1..]);
      assert forall i :: 1 <= i < |s| ==> s[i] == s[1..][i - 1];
      if s[0] >= rest then s[0] else rest
  }

  /** The ends of the sorted column are the column's minimum and maximum. */
  lemma SortEnds(s: seq<real>)
    requires |s| > 0
    ensures |Sort(s)| == |s|
    ensures Sort(s)[0] == MinOf(s) && Sort(s)[|s| - 1] == MaxOf(s)
  {
    var r := Sort(s);
    assert |r| == |multiset(r)| == |s|;
    assert MinOf(s) in multiset(r) && MaxOf(s) in multiset(r);
    assert r[0] in multiset(s) && r[|r| - 1] in multiset(s);
  }

  lemma ScaledFraction(t: real, d: real)
    requires 0.0 <= t <= 1.0 && d >= 0.0
    ensures 0.0 <= t * d <= d
  {
  }

  /** Linear interpolation between `a` and `b` stays between them. */
  lemma Interpolation(a: real, b: real, t: real)
    requires a <= b && 0.0 <= t <= 1.0
    ensures a <= a + t * (b - a) <= b
  {
    ScaledFraction(t, b - a);
    assert 0.0 <= t * (b - a) <= b - a;
  }

  lemma FloorFraction(h: real)
    ensures 0.0 <= h - h.Floor as real < 1.0
  {
  }

  /** The fractional position of the q-th percentile in a column of `n` values. */
  function Position(n: nat, q: real): (h: real)
    requires n > 0 && 0.0 <= q <= 100.0
    ensures 0.0 <= h <= (n - 1) as real
    ensures 0 <= h.Floor < n
  {
    var t := q / 100.0;
    var d := (n - 1) as real;
    ScaledFraction(t, d);
    t * d
  }

  /**
   * numpy's default ("linear") percentile of an ascending sequence: the value
   * at fractional position q/100 * (n - 1), interpolated between the two
   * values on either side of that position.
   */
  function PercentileOfSorted(s: seq<real>, q: real): (r: real)
    requires Sorted(s) && |s| > 0 && 0.0 <= q <= 100.0
    ensures s[0] <= r <= s[|s| - 1]
  {
    var h := Position(|s|, q);
    var lo := h.Floor;
    FloorFraction(h);
    if lo + 1 < |s| then
      var below, above, t := s[lo], s[lo + 1], h - lo as real;
      assert s[0] <= below <= above <= s[|s| - 1];
      Interpolation(below, above, t);
      var v := below + t * (above - below);
      assert below <= v <= above;
      v
    else
      assert s[0] <= s[lo];
      s[lo]
  }

  /** `np.percentile(values, q)` of a non-empty column of values. */
  function Percentile(xs: seq<real>, q: real): (r: real)
    requires |xs| > 0 && 0.0 <= q <= 100.0
    ensures MinOf(xs) <= r <= MaxOf(xs)
  {
    SortEnds(xs);
    PercentileOfSorted(Sort(xs), q)
  }

  /** A percentile does not depend on the order of the values. */
  lemma PercentilePermutation(xs: seq<real>, ys: seq<real>, q: real)
    requires |xs| > 0 && 0.0 <= q <= 100.0
    requires multiset(xs) == multiset(ys)
    ensures |ys| > 0 && Percentile(xs, q) == Percentile(ys, q)
  {
    assert |ys| == |multiset(ys)| == |xs|;
    SortPermutation(xs, ys);
  }

  /** The pandas median: the middle value, or the mean of the two middle values. */
  function Median(xs: seq<real>): (r: real)
    requires |xs| > 0
    ensures MinOf(xs) <= r <= MaxOf(xs)
  {
    var s := Sort(xs);
    SortEnds(xs);
    var n := |s|;
    if n % 2 == 1 then s[n / 2] else (s[n / 2 - 1] + s[n / 2]) / 2.0
  }

  /** For an ascending sequence, interpolating at the halfway position picks the middle. */
  lemma {:induction false} HalfwayPosition(n: nat)
    requires n > 0
    ensures Position(n, 50.0).Floor == (n - 1) / 2
    ensures n % 2 == 1 ==> Position(n, 50.0) == ((n - 1) / 2) as real
    ensures n % 2 == 0 ==> Position(n, 50.0) == ((n - 1) / 2) as real + 0.5
  {
    var k := (n - 1) / 2;
    var h := Position(n, 50.0);
    assert h == 0.5 * (n - 1) as real;
    if n % 2 == 1 {
      assert n - 1 == 2 * k;
      assert h == k as real;
    } else {
      assert n - 1 == 2 * k + 1;
      assert h == k as real + 0.5;
    }
  }

  /** Halfway along an ascending sequence lies its middle value, or the mean of its two middle values. */
  lemma MiddleOfSorted(s: seq<real>)
    requires Sorted(s) && |s| > 0
    ensures PercentileOfSorted(s, 50.0) == if |s| % 2 == 1 then s[|s| / 2] else (s[|s| / 2 - 1] + s[|s| / 2]) / 2.0
  {
    var n := |s|;
    var k := (n - 1) / 2;
    HalfwayPosition(n);
    var h := Position(n, 50.0);
    if n % 2 == 1 {
      assert n / 2 == k;
      assert h - k as real == 0.0;
    } else {
      assert n / 2 - 1 == k && k + 1 < n;
      assert h - k as real == 0.5;
      assert s[k] + 0.5 * (s[k + 1] - s[k]) == (s[k] + s[k + 1]) / 2.0;
    }
  }

  /** The median is the 50th percentile under linear interpolation. */
  lemma MedianIsFiftiethPercentile(xs: seq<real>)
    requires |xs| > 0
    ensures Median(xs) == Percentile(xs, 50.0)
  {
    SortEnds(xs);
    MiddleOfSorted(Sort(xs));
  }

  /** `np.nanpercentile(col.dropna(), q)`: null for a column without values. */
  function NanPercentile(xs: seq<real>, q: real): (r: Option<real>)
    requires 0.0 <= q <= 100.0
    ensures r.None? <==> xs == []
    ensures r.Some? ==> MinOf(xs) <= r.value <= MaxOf(xs)
  {
    if xs == [] then None else Some(Percentile(xs, q))
  }

  /** `col.median()` (which skips nulls): null for a column without values. */
  function NanMedian(xs: seq<real>): (r: Option<real>)
    ensures r.None? <==> xs == []
    ensures r.Some? ==> MinOf(xs) <= r.value <= MaxOf(xs)
  {
    if xs == [] then None else Some(Median(xs))
  }

  /** `col.max()` (which skips nulls): null for a column without values. */
  function NanMax(xs: seq<real>): (r: Option<real>)
    ensures r.None? <==> xs == []
    ensures r.Some? ==> r.value in xs && forall i :: 0 <= i < |xs| ==> xs[i] <= r.value
  {
    if xs == [] then None else Some(MaxOf(xs))
  }

  /** The example of the accuracy dashboard: P90 of 10, 20, 30, 40, 50 is 46. */
  lemma NinetiethPercentileExample()
    ensures Percentile([10.0, 20.0, 30.0, 40.0, 50.0], 90.0) == 46.0
  {
    FiveValues([10.0, 20.0, 30.0, 40.0, 50.0]);
  }

  lemma FiveValues(s: seq<real>)
    requires |s| == 5 && s[0] == 10.0 && s[1] == 20.0 && s[2] == 30.0 && s[3] == 40.0 && s[4] == 50.0
    ensures Percentile(s, 90.0) == 46.0
  {
    assert Sorted(s);
    SortOfSorted(s);
    assert Position(5, 90.0) == 3.6;
    assert (3.6).Floor == 3;
    assert PercentileOfSorted(s, 90.0) == 40.0 + 0.6 * 10.0;
  }
}
