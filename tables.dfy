/**
 * Generic operations on in-memory tables, a table being a sequence of row
 * records: boolean-mask selection, distinct counts, sums, and the notion of
 * an order-preserving sub-table.
 */
module Tables {

  /** `a` can be obtained from `b` by deleting rows, keeping the order of the rest. */
  ghost predicate Subsequence<T>(a: seq<T>, b: seq<T>)
    decreases |b|
  {
    if a == [] then true
    else if b == [] then false
    else (a[0] == b[0] && Subsequence(a[1..], b[1..])) || Subsequence(a, b[1..])
  }

  /** The rows of `s` satisfying `p`, in their original order: `df[mask]`. */
  function Where<T>(s: seq<T>, p: T -> bool): (r: seq<T>)
    ensures |r| <= |s|
    ensures forall i :: 0 <= i < |r| ==> p(r[i])
    ensures forall i :: 0 <= i < |s| && p(s[i]) ==> s[i] in r
  {
    if s == [] then []
    else if p(s[0]) then [s[0]] + Where(s[1..], p)
    else Where(s[1..], p)
  }

  /** Every selected row is a row of the input. */
  lemma WhereFrom<T>(s: seq<T>, p: T -> bool)
    ensures forall i :: 0 <= i < |Where(s, p)| ==> Where(s, p)[i] in s
  {
    var r := Where(s, p);
    forall i | 0 <= i < |r| ensures r[i] in s {
      WhereMultiplicity(s, p, r[i]);
      assert r[i] in multiset(r);
    }
  }

  lemma {:induction false} WhereIsSubsequence<T>(s: seq<T>, p: T -> bool)
    ensures Subsequence(Where(s, p), s)
  {
    if s != [] {
      WhereIsSubsequence(s[1..], p);
      if !p(s[0]) {
        assert Where(s, p) == Where(s[1..], p);
      }
    }
  }

  lemma {:induction false} WhereAppend<T>(a: seq<T>, b: seq<T>, p: T -> bool)
    ensures Where(a + b, p) == Where(a, p) + Where(b, p)
  {
    if a == [] {
      assert a + b == b;
    } else {
      assert (a + b)[1..] == a[1..] + b;
      WhereAppend(a[1..], b, p);
    }
  }

  /** Two successive masks select exactly what their conjunction `pq` selects. */
  lemma {:induction false} WhereWhere<T>(s: seq<T>, p: T -> bool, q: T -> bool, pq: T -> bool)
    requires forall i :: 0 <= i < |s| ==> pq(s[i]) == (p(s[i]) && q(s[i]))
    ensures Where(Where(s, p), q) == Where(s, pq)
  {
    if s != [] {
      WhereWhere(s[1..], p, q, pq);
    }
  }

  /** A mask no row satisfies selects nothing. */
  lemma {:induction false} WhereNone<T>(s: seq<T>, p: T -> bool)
    requires forall i :: 0 <= i < |s| ==> !p(s[i])
    ensures Where(s, p) == []
  {
    if s != [] {
      WhereNone(s[1..], p);
    }
  }

  /** A mask every row satisfies selects the whole table. */
  lemma {:induction false} WhereAll<T>(s: seq<T>, p: T -> bool)
    requires forall i :: 0 <= i < |s| ==> p(s[i])
    ensures Where(s, p) == s
  {
    if s != [] {
      WhereAll(s[1..], p);
    }
  }

  /** Selection by equivalent masks gives the same rows. */
  lemma {:induction false} WhereSameMask<T>(s: seq<T>, p: T -> bool, q: T -> bool)
    requires forall i :: 0 <= i < |s| ==> p(s[i]) == q(s[i])
    ensures Where(s, p) == Where(s, q)
  {
    if s != [] {
      WhereSameMask(s[1..], p, q);
    }
  }

  /** Applying the same mask twice is the same as applying it once. */
  lemma WhereIdempotent<T>(s: seq<T>, p: T -> bool)
    ensures Where(Where(s, p), p) == Where(s, p)
  {
    WhereAll(Where(s, p), p);
  }

  /** How often a row occurs after selection. */
  lemma {:induction false} WhereMultiplicity<T>(s: seq<T>, p: T -> bool, x: T)
    ensures multiset(Where(s, p))[x] == if p(x) then multiset(s)[x] else 0
  {
    if s != [] {
      WhereMultiplicity(s[1..], p, x);
      assert s == [s[0]] + s[1..];
    }
  }

  /** A row is selected exactly when it is a row of the input that the mask accepts. */
  lemma WhereMember<T>(s: seq<T>, p: T -> bool, x: T)
    ensures x in Where(s, p) <==> x in s && p(x)
  {
    WhereMultiplicity(s, p, x);
    assert x in Where(s, p) <==> x in multiset(Where(s, p));
    assert x in s <==> x in multiset(s);
  }

  /** Selection does not depend on the order of the rows beyond their multiset. */
  lemma WherePermutation<T>(s: seq<T>, t: seq<T>, p: T -> bool)
    requires multiset(s) == multiset(t)
    ensures multiset(Where(s, p)) == multiset(Where(t, p))
  {
    WhereFrom(s, p);
    WhereFrom(t, p);
    var a, b := multiset(Where(s, p)), multiset(Where(t, p));
    forall x ensures a[x] == b[x] {
      WhereMultiplicity(s, p, x);
      WhereMultiplicity(t, p, x);
    }
  }

  /** The positions of the rows `p` accepts. */
  function Positions<T>(s: seq<T>, p: T -> bool): set<int> {
    set i | 0 <= i < |s| && p(s[i])
  }

  /** The keys of the rows `p` accepts. */
  function KeysWhere<T, K>(s: seq<T>, p: T -> bool, key: T -> K): set<K> {
    set i | 0 <= i < |s| && p(s[i]) :: key(s[i])
  }

  /** The selection holds one row per position whose row the mask accepts. */
  lemma {:induction false} WhereCount<T>(s: seq<T>, p: T -> bool)
    ensures |Where(s, p)| == |Positions(s, p)|
    decreases |s|
  {
    if s != [] {
      var n := |s| - 1;
      var init := s[..n];
      WhereCount(init, p);
      assert s == init + [s[n]];
      WhereAppend(init, [s[n]], p);
      assert [s[n]][1..] == [];
      if p(s[n]) {
        assert Positions(s, p) == Positions(init, p) + {n};
      } else {
        assert Positions(s, p) == Positions(init, p);
      }
    }
  }

  /** Selection keeps rows in their order: keys increasing along the input stay increasing. */
  lemma {:induction false} WhereIncreasing<T>(s: seq<T>, p: T -> bool, key: T -> int)
    requires forall i, j :: 0 <= i < j < |s| ==> key(s[i]) < key(s[j])
    ensures forall i, j :: 0 <= i < j < |Where(s, p)| ==> key(Where(s, p)[i]) < key(Where(s, p)[j])
    decreases |s|
  {
    if s != [] {
      var rest := Where(s[1..], p);
      WhereIncreasing(s[1..], p, key);
      WhereFrom(s[1..], p);
      forall k | 0 <= k < |rest| ensures key(s[0]) < key(rest[k]) {
        var j :| 0 <= j < |s[1..]| && s[1..][j] == rest[k];
        assert s[j + 1] == rest[k];
      }
    }
  }

  /** The set of distinct keys of the rows: `nunique` is its cardinality. */
  function DistinctKeys<T, K(!new)>(s: seq<T>, key: T -> K): (r: set<K>)
    ensures |r| <= |s|
    ensures forall k :: k in r <==> exists i :: 0 <= i < |s| && key(s[i]) == k
  {
    if s == [] then {}
    else
      var rest := DistinctKeys(s[1..], key);
      assert forall k :: k in rest ==> exists i :: 0 <= i < |s| && key(s[i]) == k by {
        forall k | k in rest ensures exists i :: 0 <= i < |s| && key(s[i]) == k {
          var j :| 0 <= j < |s[1..]| && key(s[1..][j]) == k;
          assert key(s[j + 1]) == k;
        }
      }
      assert forall i :: 1 <= i < |s| ==> key(s[i]) in rest by {
        forall i | 1 <= i < |s| ensures key(s[i]) in rest {
          assert key(s[1..][i - 1]) == key(s[i]);
        }
      }
      {key(s[0])} + rest
  }

  /** The distinct keys after selection are the keys of the input rows the mask accepts. */
  lemma WhereKeys<T, K(!new)>(s: seq<T>, p: T -> bool, key: T -> K)
    ensures DistinctKeys(Where(s, p), key) == KeysWhere(s, p, key)
  {
    var r := Where(s, p);
    WhereFrom(s, p);
    forall k | k in DistinctKeys(r, key) ensures k in KeysWhere(s, p, key) {
      var j :| 0 <= j < |r| && key(r[j]) == k;
      var i :| 0 <= i < |s| && s[i] == r[j];
    }
    forall k | k in KeysWhere(s, p, key) ensures k in DistinctKeys(r, key) {
      var i :| 0 <= i < |s| && p(s[i]) && key(s[i]) == k;
      var j :| 0 <= j < |r| && r[j] == s[i];
    }
  }

  /** `nunique()` of a key column: the number of distinct keys, never more than the rows. */
  function DistinctCount<T, K(==,!new)>(s: seq<T>, key: T -> K): (n: nat)
    ensures n <= |s|
  {
    |DistinctKeys(s, key)|
  }

  /** The distinct keys of a concatenation are the union of the parts' keys. */
  lemma DistinctKeysAppend<T, K(!new)>(a: seq<T>, b: seq<T>, key: T -> K)
    ensures DistinctKeys(a + b, key) == DistinctKeys(a, key) + DistinctKeys(b, key)
    ensures |DistinctKeys(a + b, key)| <= |DistinctKeys(a, key)| + |DistinctKeys(b, key)|
  {
    var u := DistinctKeys(a, key) + DistinctKeys(b, key);
    forall k | k in DistinctKeys(a + b, key) ensures k in u {
      KeyOfAppend(a, b, key, k);
    }
    forall k | k in u ensures k in DistinctKeys(a + b, key) {
      KeyIntoAppend(a, b, key, k);
    }
    UnionSize(DistinctKeys(a, key), DistinctKeys(b, key));
  }

  lemma KeyOfAppend<T, K(!new)>(a: seq<T>, b: seq<T>, key: T -> K, k: K)
    requires k in DistinctKeys(a + b, key)
    ensures k in DistinctKeys(a, key) || k in DistinctKeys(b, key)
  {
    var ab := a + b;
    var i :| 0 <= i < |ab| && key(ab[i]) == k;
    if i >= |a| {
      assert key(b[i - |a|]) == k;
    } else {
      assert key(a[i]) == k;
    }
  }

  lemma KeyIntoAppend<T, K(!new)>(a: seq<T>, b: seq<T>, key: T -> K, k: K)
    requires k in DistinctKeys(a, key) || k in DistinctKeys(b, key)
    ensures k in DistinctKeys(a + b, key)
  {
    var ab := a + b;
    if k in DistinctKeys(a, key) {
      var i :| 0 <= i < |a| && key(a[i]) == k;
      assert ab[i] == a[i];
    } else {
      var i :| 0 <= i < |b| && key(b[i]) == k;
      assert ab[|a| + i] == b[i];
    }
  }

  lemma UnionSize<K>(x: set<K>, y: set<K>)
    ensures |x + y| <= |x| + |y|
  {
    assert x + y == x + (y - x);
  }

  /** Distinct keys depend only on the multiset of rows. */
  lemma DistinctKeysPermutation<T, K(!new)>(s: seq<T>, t: seq<T>, key: T -> K)
    requires multiset(s) == multiset(t)
    ensures DistinctKeys(s, key) == DistinctKeys(t, key)
  {
    forall k | k in DistinctKeys(s, key) ensures k in DistinctKeys(t, key) {
      var i :| 0 <= i < |s| && key(s[i]) == k;
      assert s[i] in multiset(t);
      var j :| 0 <= j < |t| && t[j] == s[i];
    }
    forall k | k in DistinctKeys(t, key) ensures k in DistinctKeys(s, key) {
      var i :| 0 <= i < |t| && key(t[i]) == k;
      assert t[i] in multiset(s);
      var j :| 0 <= j < |s| && s[j] == t[i];
    }
  }

  /** Maps with the same keys and the same value at each key are equal. */
  lemma MapsEqual<K, V>(m: map<K, V>, n: map<K, V>)
    requires m.Keys == n.Keys && forall k :: k in m ==> m[k] == n[k]
    ensures m == n
  {
  }

  /** A set drawn from the first `n` naturals has at most `n` elements. */
  lemma {:induction false} BoundedSetSize(r: set<int>, n: nat)
    requires forall x :: x in r ==> 0 <= x < n
    ensures |r| <= n
  {
    if n > 0 {
      var below := set x | x in r && x < n - 1;
      BoundedSetSize(below, n - 1);
      if n - 1 in r {
        assert r == below + {n - 1};
      } else {
        assert r == below;
      }
    } else {
      assert forall x :: x !in r;
      assert r == {};
    }
  }

  /** A set whose every element is the image of one in `r` is no larger than `r`. */
  lemma {:induction false} ImageSize<A, B>(r: set<A>, img: set<B>, f: A -> B)
    requires forall y :: y in img ==> exists x :: x in r && f(x) == y
    ensures |img| <= |r|
    decreases |r|
  {
    if r == {} {
      assert forall y :: y !in img;
      assert img == {};
    } else {
      var x0 :| x0 in r;
      var rest := r - {x0};
      var img' := img - {f(x0)};
      forall y | y in img' ensures exists x :: x in rest && f(x) == y {
        var x :| x in r && f(x) == y;
        assert x != x0;
      }
      ImageSize(rest, img', f);
    }
  }

  /** Sum of a numeric column. The sum of an empty column is 0, as in pandas. */
  function Sum<T>(s: seq<T>, f: T -> real): real {
    if s == [] then 0.0 else f(s[0]) + Sum(s[1..], f)
  }

  /** A column whose every value exceeds `t` sums to more than `t` per row. */
  lemma {:induction false} SumAbove<T>(s: seq<T>, f: T -> real, t: real)
    requires forall i :: 0 <= i < |s| ==> f(s[i]) > t
    ensures s != [] ==> Sum(s, f) > t * |s| as real
    ensures s == [] ==> Sum(s, f) == 0.0
  {
    if s != [] {
      SumAbove(s[1..], f, t);
    }
  }

  /** The mean of a column, or 0 for an empty table. */
  function MeanOrZero<T>(s: seq<T>, f: T -> real): real {
    if s == [] then 0.0 else Sum(s, f) / |s| as real
  }

  /** The mean times the row count is the sum. */
  lemma MeanTimesCount<T>(s: seq<T>, f: T -> real)
    ensures MeanOrZero(s, f) * |s| as real == Sum(s, f)
  {
    if s == [] {
      assert Sum(s, f) == 0.0;
    }
  }

  /** A column whose every value exceeds `t` has a mean above `t`. */
  lemma MeanAbove<T>(s: seq<T>, f: T -> real, t: real)
    requires s != [] && forall i :: 0 <= i < |s| ==> f(s[i]) > t
    ensures MeanOrZero(s, f) > t
  {
    SumAbove(s, f, t);
    var n := |s| as real;
    var total := Sum(s, f);
    var m := total / n;
    assert m * n == total;
    if m <= t {
      assert m * n <= t * n;
    }
  }

  /** A column of non-negative values has a non-negative sum. */
  lemma {:induction false} SumNonNegative<T>(s: seq<T>, f: T -> real)
    requires forall i :: 0 <= i < |s| ==> f(s[i]) >= 0.0
    ensures Sum(s, f) >= 0.0
  {
    if s != [] {
      SumNonNegative(s[1..], f);
    }
  }

  /** Summing a concatenation. */
  lemma {:induction false} SumAppend<T>(a: seq<T>, b: seq<T>, f: T -> real)
    ensures Sum(a + b, f) == Sum(a, f) + Sum(b, f)
  {
    if a == [] {
      assert a + b == b;
    } else {
      assert (a + b)[1..] == a[1..] + b;
      SumAppend(a[1..], b, f);
    }
  }

  /** A row the mask accepts makes the selection non-empty. */
  lemma WhereNonEmpty<T>(s: seq<T>, p: T -> bool, i: int)
    requires 0 <= i < |s| && p(s[i])
    ensures |Where(s, p)| >= 1
  {
    assert s[i] in Where(s, p);
  }

  /** A mask implied by another selects at least as many rows. */
  lemma {:induction false} WhereMonotone<T>(s: seq<T>, p: T -> bool, q: T -> bool)
    requires forall i :: 0 <= i < |s| && p(s[i]) ==> q(s[i])
    ensures |Where(s, p)| <= |Where(s, q)|
  {
    if s != [] {
      WhereMonotone(s[1..], p, q);
    }
  }

  /** Size of the group with key `k`: `groupby(key).size()[k]`. */
  function CountKey<T>(s: seq<T>, key: T -> nat, k: nat): (n: nat)
    ensures n <= |s|
  {
    if s == [] then 0
    else (if key(s[0]) == k then 1 else 0) + CountKey(s[1..], key, k)
  }

  /** A group is non-empty exactly when some row has its key. */
  lemma {:induction false} CountKeyPositive<T>(s: seq<T>, key: T -> nat, k: nat)
    ensures CountKey(s, key, k) > 0 <==> exists i :: 0 <= i < |s| && key(s[i]) == k
  {
    if s != [] {
      CountKeyPositive(s[1..], key, k);
      if CountKey(s[1..], key, k) > 0 {
        var i :| 0 <= i < |s[1..]| && key(s[1..][i]) == k;
        assert key(s[i + 1]) == k;
      }
      if exists i :: 0 <= i < |s| && key(s[i]) == k {
        var i :| 0 <= i < |s| && key(s[i]) == k;
        if i > 0 {
          assert key(s[1..][i - 1]) == k;
        }
      }
    }
  }

  /** Total size of the groups with keys `0 .. n-1`. */
  function SumCounts<T>(s: seq<T>, key: T -> nat, n: nat): nat {
    if n == 0 then 0 else SumCounts(s, key, n - 1) + CountKey(s, key, n - 1)
  }

  lemma {:induction false} SumCountsCons<T>(x: T, t: seq<T>, key: T -> nat, n: nat)
    ensures SumCounts([x] + t, key, n) == SumCounts(t, key, n) + (if key(x) < n then 1 else 0)
  {
    if n > 0 {
      SumCountsCons(x, t, key, n - 1);
      assert ([x] + t)[0] == x && ([x] + t)[1..] == t;
    }
  }

  /** The groups with keys below `n` together hold every row the mask `below` (key < n) selects. */
  lemma {:induction false} PartitionCount<T>(s: seq<T>, key: T -> nat, n: nat, below: T -> bool)
    requires forall i :: 0 <= i < |s| ==> below(s[i]) == (key(s[i]) < n)
    ensures SumCounts(s, key, n) == |Where(s, below)|
  {
    if s == [] {
      SumCountsEmpty(s, key, n);
    } else {
      PartitionCount(s[1..], key, n, below);
      SumCountsCons(s[0], s[1..], key, n);
      assert s == [s[0]] + s[1..];
    }
  }

  lemma {:induction false} SumCountsEmpty<T>(s: seq<T>, key: T -> nat, n: nat)
    requires s == []
    ensures SumCounts(s, key, n) == 0
  {
    if n > 0 {
      SumCountsEmpty(s, key, n - 1);
    }
  }
}
