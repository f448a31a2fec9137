/**
 * The effect of `std::sort` with a comparator: the sorted range is a
 * permutation of the old one, ordered by the comparator, and nothing outside
 * it moves (`SortsRange`). `std::sort` is not stable, so the order among
 * elements the comparator does not separate is left open. An insertion sort
 * on sequences (`Sort`) shows that such an outcome always exists and is what
 * `SortRange` happens to compute; no contract promises its particular order.
 */
module Sorting {

  /** `lt` is a strict weak order: asymmetric and negatively transitive. */
  ghost predicate StrictWeakOrder<T(!new)>(lt: (T, T) -> bool) {
    && (forall x, y :: lt(x, y) ==> !lt(y, x))
    && (forall x, y, z :: !lt(x, y) && !lt(y, z) ==> !lt(x, z))
  }

  /** No later element is strictly less than an earlier one. */
  ghost predicate SortedBy<T>(s: seq<T>, lt: (T, T) -> bool) {
    forall i, j :: 0 <= i < j < |s| ==> !lt(s[j], s[i])
  }

  /** Inserts `x` before the first element that is not less than it. */
  function Insert<T>(x: T, s: seq<T>, lt: (T, T) -> bool): (r: seq<T>)
    ensures |r| == |s| + 1
  {
    if s == [] then [x]
    else if lt(s[0], x) then
      assert s == [s[0]] + s[1..];
      [s[0]] + Insert(x, s[1..], lt)
    else [x] + s
  }

  /** Insertion sort (SortPermutes and SortSorted give its meaning). */
  function Sort<T>(s: seq<T>, lt: (T, T) -> bool): (r: seq<T>)
    ensures |r| == |s|
  {
    if s == [] then []
    else Insert(s[0], Sort(s[1..], lt), lt)
  }

  lemma {:induction false} InsertPermutes<T>(x: T, s: seq<T>, lt: (T, T) -> bool)
    ensures multiset(Insert(x, s, lt)) == multiset(s) + multiset{x}
  {
    if s != [] {
      assert s == [s[0]] + s[1..];
      if lt(s[0], x) {
        InsertPermutes(x, s[1..], lt);
      }
    }
  }

  /** The sort is a permutation of its input. */
  lemma {:induction false} SortPermutes<T>(s: seq<T>, lt: (T, T) -> bool)
    ensures multiset(Sort(s, lt)) == multiset(s)
  {
    if s != [] {
      assert s == [s[0]] + s[1..];
      SortPermutes(s[1..], lt);
      InsertPermutes(s[0], Sort(s[1..], lt), lt);
    }
  }

  /** Inserting an element that is not below `b` into elements not below `b`. */
  lemma {:induction false} InsertAbove<T>(x: T, s: seq<T>, lt: (T, T) -> bool, b: T)
    requires forall k :: 0 <= k < |s| ==> !lt(s[k], b)
    requires !lt(x, b)
    ensures forall k :: 0 <= k < |s| + 1 ==> !lt(Insert(x, s, lt)[k], b)
  {
    if s != [] && lt(s[0], x) {
      InsertAbove(x, s[1..], lt, b);
      var r := Insert(x, s[1..], lt);
      assert Insert(x, s, lt) == [s[0]] + r;
      forall k | 0 <= k < |s| + 1
        ensures !lt(Insert(x, s, lt)[k], b)
      {
        if k > 0 {
          assert Insert(x, s, lt)[k] == r[k - 1];
        }
      }
    }
  }

  lemma {:induction false} InsertSorted<T(!new)>(x: T, s: seq<T>, lt: (T, T) -> bool)
    requires StrictWeakOrder(lt)
    requires SortedBy(s, lt)
    ensures SortedBy(Insert(x, s, lt), lt)
  {
    if s != [] {
      if lt(s[0], x) {
        var t := s[1..];
        assert SortedBy(t, lt) by {
          forall i, j | 0 <= i < j < |t|
            ensures !lt(t[j], t[i])
          {
            assert t[j] == s[j + 1] && t[i] == s[i + 1];
          }
        }
        forall k | 0 <= k < |t|
          ensures !lt(t[k], s[0])
        {
          assert t[k] == s[k + 1];
        }
        InsertSorted(x, t, lt);
        InsertAbove(x, t, lt, s[0]);
        var r := Insert(x, t, lt);
        var q := [s[0]] + r;
        assert Insert(x, s, lt) == q;
        forall i, j | 0 <= i < j < |q|
          ensures !lt(q[j], q[i])
        {
          assert q[j] == r[j - 1];
          if i > 0 {
            assert q[i] == r[i - 1];
          }
        }
      } else {
        var r := [x] + s;
        forall i, j | 0 <= i < j < |r|
          ensures !lt(r[j], r[i])
        {
          if i == 0 {
            assert !lt(s[j - 1], s[0]);
          }
        }
      }
    }
  }

  lemma {:induction false} SortSorted<T(!new)>(s: seq<T>, lt: (T, T) -> bool)
    requires StrictWeakOrder(lt)
    ensures SortedBy(Sort(s, lt), lt)
  {
    if s != [] {
      SortSorted(s[1..], lt);
      InsertSorted(s[0], Sort(s[1..], lt), lt);
    }
  }

  /**
   * `now` is `was` with the range `[lo, hi)` sorted by `lt`: the same before
   * and after the range, a permutation of the old range inside it, and in
   * order inside it.
   */
  ghost predicate SortsRange<T>(was: seq<T>, now: seq<T>, lo: nat, hi: nat, lt: (T, T) -> bool) {
    && lo <= hi <= |was| == |now|
    && now[..lo] == was[..lo]
    && now[hi..] == was[hi..]
    && multiset(now[lo..hi]) == multiset(was[lo..hi])
    && SortedBy(now[lo..hi], lt)
  }

  /** `s` with the range `[lo, hi)` replaced by its insertion sort. */
  function SortedWithin<T>(s: seq<T>, lo: nat, hi: nat, lt: (T, T) -> bool): seq<T>
    requires lo <= hi <= |s|
  {
    s[..lo] + Sort(s[lo..hi], lt) + s[hi..]
  }

  /** Under a strict weak order, the insertion sort of a range is one way of sorting it. */
  lemma SortedWithinSorts<T(!new)>(s: seq<T>, lo: nat, hi: nat, lt: (T, T) -> bool)
    requires lo <= hi <= |s| && StrictWeakOrder(lt)
    ensures SortsRange(s, SortedWithin(s, lo, hi, lt), lo, hi, lt)
  {
    var r := SortedWithin(s, lo, hi, lt);
    assert r[..lo] == s[..lo] && r[lo..hi] == Sort(s[lo..hi], lt) && r[hi..] == s[hi..];
    SortPermutes(s[lo..hi], lt);
    SortSorted(s[lo..hi], lt);
  }

  /** Sorts the range `a[lo..hi]` in place, as `std::sort(a + lo, a + hi, lt)`. */
  method SortRange<T(!new)>(a: array<T>, lo: nat, hi: nat, lt: (T, T) -> bool)
    requires lo <= hi <= a.Length && StrictWeakOrder(lt)
    modifies a
    ensures SortsRange(old(a[..]), a[..], lo, hi, lt)
  {
    var r := Sort(a[lo..hi], lt);
    ghost var was := a[..];
    var k := lo;
    while k < hi
      invariant lo <= k <= hi
      invariant forall m :: 0 <= m < a.Length && !(lo <= m < k) ==> a[m] == was[m]
      invariant forall m :: lo <= m < k ==> a[m] == r[m - lo]
    {
      a[k] := r[k - lo];
      k := k + 1;
    }
    Splice(was, a[..], r, lo, hi);
    SortedWithinSorts(was, lo, hi, lt);
  }

  /** A sequence that agrees with `r` on `[lo, hi)` and with `was` elsewhere is their splice. */
  lemma Splice<T>(was: seq<T>, now: seq<T>, r: seq<T>, lo: nat, hi: nat)
    requires lo <= hi <= |was| == |now| && |r| == hi - lo
    requires forall m :: 0 <= m < |now| && !(lo <= m < hi) ==> now[m] == was[m]
    requires forall m :: lo <= m < hi ==> now[m] == r[m - lo]
    ensures now == was[..lo] + r + was[hi..]
  {
  }

  /** Sorting a range permutes the whole sequence and moves no element outside the range. */
  lemma SortsRangeEffect<T>(was: seq<T>, now: seq<T>, lo: nat, hi: nat, lt: (T, T) -> bool)
    requires SortsRange(was, now, lo, hi, lt)
    ensures multiset(now) == multiset(was)
    ensures forall k :: 0 <= k < |was| && !(lo <= k < hi) ==> now[k] == was[k]
  {
    assert was == was[..lo] + was[lo..hi] + was[hi..];
    assert now == now[..lo] + now[lo..hi] + now[hi..];
    forall k | 0 <= k < |was| && !(lo <= k < hi)
      ensures now[k] == was[k]
    {
      if k < lo {
        assert now[k] == now[..lo][k] && was[k] == was[..lo][k];
      } else {
        assert now[k] == now[hi..][k - hi] && was[k] == was[hi..][k - hi];
      }
    }
  }

  /** Sorting the whole sequence as a range gives a sorted permutation of it. */
  lemma SortsWhole<T>(was: seq<T>, now: seq<T>, lt: (T, T) -> bool)
    requires SortsRange(was, now, 0, |was|, lt)
    ensures multiset(now) == multiset(was) && SortedBy(now, lt)
  {
    assert now[0..|was|] == now && was[0..|was|] == was;
  }

  // ---------------------------------------------------------------------
  // Matrices stored row by row, `w` cells to a row.
  // ---------------------------------------------------------------------

  /** `a * w` by repeated addition, so that row arithmetic stays linear for the solver. */
  function Mul(a: nat, w: nat): nat {
    if a == 0 then 0 else Mul(a - 1, w) + w
  }

  lemma {:induction false} MulProduct(a: nat, w: nat)
    ensures Mul(a, w) == a * w
  {
    if a > 0 {
      MulProduct(a - 1, w);
    }
  }

  /** Row `r` of a matrix `w` wide ends by the start of every later row. */
  lemma {:induction false} MulMono(a: nat, b: nat, w: nat)
    requires a < b
    ensures Mul(a, w) + w <= Mul(b, w)
  {
    if a < b - 1 {
      MulMono(a, b - 1, w);
    }
  }

  /** Row `r` of a matrix `w` wide. */
  function Row<T>(m: seq<T>, w: nat, r: nat): seq<T>
    requires Mul(r, w) + w <= |m|
  {
    m[Mul(r, w)..Mul(r, w) + w]
  }

  /** Row `r` of `now` is row `r` of `d` sorted: a permutation of it, in order. */
  ghost predicate RowSorted<T>(d: seq<T>, now: seq<T>, w: nat, r: nat, lt: (T, T) -> bool) {
    && Mul(r, w) + w <= |d| == |now|
    && multiset(Row(now, w, r)) == multiset(Row(d, w, r))
    && SortedBy(Row(now, w, r), lt)
  }

  /**
   * The rows `[0, m)` of `now` are those of `d`, each sorted, and every cell
   * after them is as in `d`.
   */
  ghost predicate RowsSorted<T>(d: seq<T>, now: seq<T>, w: nat, m: nat, lt: (T, T) -> bool) {
    && Mul(m, w) <= |d| == |now|
    && (forall r :: 0 <= r < m ==> RowSorted(d, now, w, r, lt))
    && now[Mul(m, w)..] == d[Mul(m, w)..]
  }

  /** A row that lies before `lo` is the same in two sequences that agree before `lo`. */
  lemma RowBefore<T>(t: seq<T>, u: seq<T>, w: nat, r: nat, lo: nat)
    requires Mul(r, w) + w <= lo <= |t| == |u| && u[..lo] == t[..lo]
    ensures Row(u, w, r) == Row(t, w, r)
  {
    assert Row(u, w, r) == u[..lo][Mul(r, w)..Mul(r, w) + w];
    assert Row(t, w, r) == t[..lo][Mul(r, w)..Mul(r, w) + w];
  }

  /**
   * Sorting row `m` after the rows `[0, m)` are sorted gives the rows
   * `[0, m + 1)` sorted, as one pass of a loop of row sorts does.
   */
  lemma RowsSortedStep<T>(d: seq<T>, t: seq<T>, u: seq<T>, w: nat, m: nat, lt: (T, T) -> bool)
    requires RowsSorted(d, t, w, m, lt) && Mul(m, w) + w <= |d|
    requires SortsRange(t, u, Mul(m, w), Mul(m, w) + w, lt)
    ensures RowsSorted(d, u, w, m + 1, lt)
  {
    var lo := Mul(m, w);
    var hi := lo + w;
    assert Mul(m + 1, w) == hi;
    assert t[lo..hi] == t[lo..][..w] == d[lo..][..w] == d[lo..hi];
    assert u[hi..] == t[hi..] == t[lo..][w..] == d[lo..][w..] == d[hi..];
    forall r | 0 <= r < m + 1
      ensures RowSorted(d, u, w, r, lt)
    {
      if r < m {
        MulMono(r, m, w);
        RowBefore(t, u, w, r, lo);
        assert RowSorted(d, t, w, r, lt);
      } else {
        assert Row(u, w, r) == u[lo..hi] && Row(d, w, r) == d[lo..hi];
      }
    }
  }
}
