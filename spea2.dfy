/**
 * The environmental-selection kernel of the SPEA2 selector (after Zitzler et
 * al. 2001): strength and raw fitness, the k-th nearest neighbour density,
 * the compaction of the non-dominated individuals into the archive at the
 * tail of the array, and the two truncation cases that fill or shrink the
 * archive to its configured size.
 */
module SpeaEngine {
  import opened MultiObjective
  import opened Sorting

  /** `Ind`: one cell of a distance-matrix row, the neighbour and its distance. */
  datatype Ind = Ind(index: int, eDist: NonNegReal)

  /** `compare`: ascending distance. */
  predicate IndLess(x: Ind, y: Ind) {
    x.eDist < y.eDist
  }

  lemma IndLessIsStrictWeakOrder()
    ensures StrictWeakOrder(IndLess)
  {
  }

  /** One slot of the population array: its label, objectives and fitness. */
  datatype Individual = Individual(index: int, obj: Vector, fitness: real)

  /** The order `compareByFitness` sorts by: ascending fitness. */
  predicate FitnessBefore(x: Individual, y: Individual) {
    x.fitness < y.fitness
  }

  lemma FitnessBeforeIsStrictWeakOrder()
    ensures StrictWeakOrder(FitnessBefore)
  {
  }

  /** `numeric_limits<double>::max()`, written out exactly: (2 - 2^-52) * 2^1023. */
  const DblMax: real := 179769313486231570814527423731704356798070567525844996598917476803157260780028538760589558632766878171540458953514382464234321326889464182768467546703537516986049910576551282076245490090389328944075868508455133942304583236903222948165808559332123348274797826204144723168738177180919299881250404026184124858368.0

  // ---------------------------------------------------------------------
  // The neighbour rank `kth` and the density.
  // ---------------------------------------------------------------------

  /** The integer square root of `n`, searched upwards from `r`. */
  function IsqrtFrom(n: nat, r: nat): (k: nat)
    requires r * r <= n
    ensures r <= k
    ensures k * k <= n < (k + 1) * (k + 1)
    decreases n - r
  {
    if (r + 1) * (r + 1) > n then r
    else
      assert r + 1 <= (r + 1) * (r + 1);
      IsqrtFrom(n, r + 1)
  }

  /** `kth = trunc(sqrt(all_pop))`: the integer square root. */
  function Kth(n: nat): (k: nat)
    ensures k * k <= n < (k + 1) * (k + 1)
  {
    IsqrtFrom(n, 0)
  }

  lemma SquareMonotone(a: nat, b: nat)
    requires a <= b
    ensures a * a <= b * b
  {
    assert a * a <= a * b;
  }

  /** The integer square root is the only natural with its defining bounds. */
  lemma KthUnique(n: nat, k: nat)
    requires k * k <= n < (k + 1) * (k + 1)
    ensures k == Kth(n)
  {
    var r := Kth(n);
    if k < r {
      SquareMonotone(k + 1, r);
    } else if r < k {
      SquareMonotone(r + 1, k);
    }
  }

  /** With two or more individuals the neighbour rank is a valid column, and at least 1. */
  lemma KthInRange(n: nat)
    requires n >= 2
    ensures 1 <= Kth(n) < n
  {
  }

  /**
   * `getDensity` reads column `kth` of a row `POPSIZE` wide; the column lies
   * inside the row once there are three or more individuals and the archive
   * is no larger than the population (and after the first generation, when
   * rows are `all_pop` wide, by `KthInRange`).
   */
  lemma KthWithinRow(n: nat, a: nat)
    requires 3 <= n && a <= n
    ensures Kth(n + a) < n
  {
    var k := Kth(n + a);
    if n <= k {
      SquareMonotone(n, k);
    }
  }

  /** `getDensity`'s formula `1/(d + 2)`: positive and at most one half. */
  function Density(d: NonNegReal): (r: real)
    ensures 0.0 < r <= 0.5
  {
    var x := 1.0 / (d + 2.0);
    assert x * (d + 2.0) == 1.0;
    x
  }

  // ---------------------------------------------------------------------
  // Slot moves: changePos and removal.
  // ---------------------------------------------------------------------

  /** Slots `a` and `b` exchanged. */
  function Swap<T>(s: seq<T>, a: nat, b: nat): (r: seq<T>)
    requires a < |s| && b < |s|
  {
    s[a := s[b]][b := s[a]]
  }

  /** A sequence that is an exchange of a permutation of `t` is a permutation of `t`. */
  lemma SwapKeepsMultiset<T>(q: seq<T>, p: seq<T>, t: seq<T>, a: nat, b: nat)
    requires a < |p| && b < |p| && q == Swap(p, a, b) && multiset(p) == multiset(t)
    ensures multiset(q) == multiset(t)
  {
    SwapPermutes(p, a, b);
  }

  /** An exchange moves the two slots and no other. */
  lemma SwapEffect<T>(s: seq<T>, a: nat, b: nat)
    requires a < |s| && b < |s|
    ensures |Swap(s, a, b)| == |s|
    ensures Swap(s, a, b)[a] == s[b] && Swap(s, a, b)[b] == s[a]
    ensures forall k :: 0 <= k < |s| && k != a && k != b ==> Swap(s, a, b)[k] == s[k]
    ensures a == b ==> Swap(s, a, b) == s
  {
  }

  /** An exchange keeps every value. */
  lemma SwapPermutes<T>(s: seq<T>, a: nat, b: nat)
    requires a < |s| && b < |s|
    ensures multiset(Swap(s, a, b)) == multiset(s)
  {
    var t := s[a := s[b]];
    assert multiset(t) == multiset(s) - multiset{s[a]} + multiset{s[b]};
    assert multiset(t[b := s[a]]) == multiset(t) - multiset{t[b]} + multiset{s[a]};
  }

  /** Exchanging the same two slots twice restores the sequence. */
  lemma SwapInvolution<T>(s: seq<T>, a: nat, b: nat)
    requires a < |s| && b < |s|
    ensures Swap(Swap(s, a, b), a, b) == s
  {
  }

  /** Slot `idx` moved to `begin`, the slots in between shifted up by one. */
  function Rotated<T>(s: seq<T>, begin: nat, idx: nat): (r: seq<T>)
    requires begin <= idx < |s|
  {
    s[..begin] + [s[idx]] + s[begin..idx] + s[idx + 1..]
  }

  /** The rotated slot sits at `begin`; the rest of `[begin, |s|)` follows it. */
  lemma RotatedDrop<T>(s: seq<T>, begin: nat, idx: nat)
    requires begin <= idx < |s|
    ensures |Rotated(s, begin, idx)| == |s| && Rotated(s, begin, idx)[..begin] == s[..begin]
    ensures multiset(Rotated(s, begin, idx)) == multiset(s)
    ensures multiset(Rotated(s, begin, idx)[begin + 1..]) + multiset{Rotated(s, begin, idx)[begin]}
      == multiset(s[begin..])
  {
    var r := Rotated(s, begin, idx);
    RotatedEffect(s, begin, idx);
    assert r[begin + 1..] == s[begin..idx] + s[idx + 1..];
    assert s[begin..] == s[begin..idx] + [s[idx]] + s[idx + 1..];
  }

  /** What `removal` promises: the rotation of `[begin, idx]`, all else in place. */
  lemma RotatedEffect<T>(s: seq<T>, begin: nat, idx: nat)
    requires begin <= idx < |s|
    ensures |Rotated(s, begin, idx)| == |s|
    ensures Rotated(s, begin, idx)[begin] == s[idx]
    ensures forall k :: begin < k <= idx ==> Rotated(s, begin, idx)[k] == s[k - 1]
    ensures forall k :: 0 <= k < |s| && !(begin <= k <= idx) ==> Rotated(s, begin, idx)[k] == s[k]
    ensures multiset(Rotated(s, begin, idx)) == multiset(s)
  {
    assert s == s[..begin] + s[begin..idx] + [s[idx]] + s[idx + 1..];
  }

  lemma RotatedNone<T>(s: seq<T>, idx: nat)
    requires idx < |s|
    ensures Rotated(s, idx, idx) == s
  {
    assert s == s[..idx] + [s[idx]] + s[idx + 1..];
  }

  /** One step of `removal`: exchanging slots `i` and `i - 1` extends the rotation down by one. */
  lemma RotatedStep<T>(s: seq<T>, i: nat, idx: nat)
    requires 0 < i <= idx < |s|
    ensures Swap(Rotated(s, i, idx), i, i - 1) == Rotated(s, i - 1, idx)
  {
    var r := Rotated(s, i, idx);
    RotatedEffect(s, i, idx);
    RotatedEffect(s, i - 1, idx);
    SwapEffect(r, i, i - 1);
  }

  /** Every individual has the configured dimension. */
  ghost predicate IndividualsFit(pop: seq<Individual>, s: seq<int>) {
    forall k :: 0 <= k < |pop| ==> |pop[k].obj| == |s|
  }

  lemma SameIndividualsFit(was: seq<Individual>, now: seq<Individual>, s: seq<int>)
    requires IndividualsFit(was, s) && multiset(now) == multiset(was)
    ensures IndividualsFit(now, s)
  {
    forall k | 0 <= k < |now|
      ensures |now[k].obj| == |s|
    {
      assert now[k] in multiset(was);
    }
  }

  // ---------------------------------------------------------------------
  // What environmentSelection keeps.
  // ---------------------------------------------------------------------

  /** What `environmentSelection` keeps: fitness below 1, that is, no dominator. */
  predicate Selected(x: Individual) {
    x.fitness < 1.0
  }

  /** What case A of `truncation2` takes into the archive: fitness above 1. */
  predicate AboveOne(x: Individual) {
    x.fitness > 1.0
  }

  /** The elements of `t` that `keep` accepts, in their order in `t`. */
  function Filtered<T>(t: seq<T>, keep: T -> bool): (r: seq<T>)
    ensures |r| <= |t|
    ensures forall k :: 0 <= k < |r| ==> keep(r[k])
  {
    if t == [] then []
    else (if keep(t[0]) then [t[0]] else []) + Filtered(t[1..], keep)
  }

  /** Each element occurs in the selection as often as in `t` when accepted, else never. */
  lemma {:induction false} FilteredCounts<T>(t: seq<T>, keep: T -> bool)
    ensures forall x :: multiset(Filtered(t, keep))[x] == if keep(x) then multiset(t)[x] else 0
  {
    if t != [] {
      FilteredCounts(t[1..], keep);
      assert t == [t[0]] + t[1..];
    }
  }

  /** Reading one more element at the front of the range. */
  lemma FilteredFront<T>(s: seq<T>, i: nat, hi: nat, keep: T -> bool)
    requires i < hi <= |s|
    ensures Filtered(s[i..hi], keep) == (if keep(s[i]) then [s[i]] else []) + Filtered(s[i + 1..hi], keep)
  {
    assert s[i..hi][1..] == s[i + 1..hi];
  }

  lemma {:induction false} FilteredAppend<T>(t: seq<T>, u: seq<T>, keep: T -> bool)
    ensures Filtered(t + u, keep) == Filtered(t, keep) + Filtered(u, keep)
  {
    if t == [] {
      assert t + u == u;
    } else {
      assert (t + u)[0] == t[0];
      assert (t + u)[1..] == t[1..] + u;
      FilteredAppend(t[1..], u, keep);
    }
  }

  /** Reading one more element, `s[i - 1]`, at the back of the range. */
  lemma FilteredBack<T>(s: seq<T>, i: nat, keep: T -> bool)
    requires 0 < i <= |s|
    ensures Filtered(s[..i], keep) == Filtered(s[..i - 1], keep) + (if keep(s[i - 1]) then [s[i - 1]] else [])
  {
    assert s[..i] == s[..i - 1] + [s[i - 1]];
    FilteredAppend(s[..i - 1], [s[i - 1]], keep);
    assert [s[i - 1]][1..] == [];
  }

  /** Sending slot `i` to slot `count >= i` prepends it to the tail from `count + 1` and leaves the slots before `i` alone. */
  lemma CompactStep<T>(p: seq<T>, i: nat, count: nat)
    requires i <= count < |p|
    ensures Swap(p, count, i)[count..] == [p[i]] + p[count + 1..]
    ensures Swap(p, count, i)[..i] == p[..i]
  {
    SwapEffect(p, count, i);
  }

  /** Sending slot `i` to a slot `c` beyond `lim`: the slices between and after are untouched. */
  lemma SwapFar<T>(p: seq<T>, i: nat, lim: nat, c: nat, e: nat)
    requires i < lim <= c < e <= |p|
    ensures Swap(p, c, i)[i + 1..lim] == p[i + 1..lim]
    ensures Swap(p, c, i)[c..e] == [p[i]] + p[c + 1..e]
    ensures Swap(p, c, i)[e..] == p[e..]
    ensures Swap(p, c, i)[..i] == p[..i] && Swap(p, c, i)[i] == p[c]
    ensures Swap(p, c, i)[lim..c] == p[lim..c]
  {
    SwapEffect(p, c, i);
  }

  /** Every selected element comes from `t`. */
  lemma FilteredWithin<T>(t: seq<T>, keep: T -> bool)
    ensures forall x :: x in Filtered(t, keep) ==> x in t
  {
    FilteredCounts(t, keep);
    forall x | x in Filtered(t, keep)
      ensures x in t
    {
      assert multiset(Filtered(t, keep))[x] > 0;
    }
  }

  /** Filtering keeps the order of a sorted sequence. */
  lemma {:induction false} FilteredSorted<T(!new)>(t: seq<T>, keep: T -> bool, lt: (T, T) -> bool)
    requires SortedBy(t, lt)
    ensures SortedBy(Filtered(t, keep), lt)
  {
    if t != [] {
      var rest := Filtered(t[1..], keep);
      FilteredSorted(t[1..], keep, lt);
      if keep(t[0]) {
        FilteredWithin(t[1..], keep);
        var r := [t[0]] + rest;
        forall i, j | 0 <= i < j < |r|
          ensures !lt(r[j], r[i])
        {
          if i == 0 {
            assert rest[j - 1] in t[1..];
            var m :| 0 <= m < |t[1..]| && t[1..][m] == rest[j - 1];
            assert t[m + 1] == r[j];
          } else {
            assert r[i] == rest[i - 1] && r[j] == rest[j - 1];
          }
        }
      }
    }
  }

  /** `s` read backwards. */
  function Reversed<T>(s: seq<T>): (r: seq<T>)
    ensures |r| == |s|
  {
    if s == [] then [] else Reversed(s[1..]) + [s[0]]
  }

  /** Reversing puts the last element first. */
  lemma {:induction false} ReversedSnoc<T>(s: seq<T>, x: T)
    ensures Reversed(s + [x]) == [x] + Reversed(s)
  {
    if s == [] {
      assert [x][1..] == [];
    } else {
      assert (s + [x])[0] == s[0];
      assert (s + [x])[1..] == s[1..] + [x];
      ReversedSnoc(s[1..], x);
    }
  }

  /**
   * The array after the compaction loop of `environmentSelection` has
   * scanned slots `hi - 1` down to `i` of `s`: each slot whose individual
   * is selected when it is reached is exchanged with the slot just before
   * the tail built so far.
   */
  function CompactionTo(s: seq<Individual>, i: nat, hi: nat): (r: seq<Individual>)
    requires i <= hi <= |s|
    ensures |r| == |s|
    decreases hi - i
  {
    if i == hi then s
    else
      var q := CompactionTo(s, i + 1, hi);
      var count := |s| - 1 - |Filtered(s[i + 1..hi], Selected)|;
      if Selected(q[i]) then Swap(q, count, i) else q
  }

  /**
   * The state of the compaction after scanning `s[i..hi]` with `m` moves:
   * the unscanned slots are untouched, the last `m` slots hold the
   * selected individuals of the scanned part, in order, and every slot in
   * between that was neither selected nor displaced keeps its individual.
   */
  ghost predicate Compacted(p: seq<Individual>, s: seq<Individual>, i: nat, hi: nat, m: nat) {
    && i <= hi <= |s| == |p|
    && m == |Filtered(s[i..hi], Selected)| <= |p|
    && p[..i] == s[..i]
    && p[|p| - m..] == Filtered(s[i..hi], Selected)
    && Kept(p, s, i, hi, m)
    && multiset(p) == multiset(s)
  }

  /** The slots of `[i, |p| - m)` beyond `hi` or not selected hold what they held in `s`. */
  ghost predicate Kept(p: seq<Individual>, s: seq<Individual>, i: nat, hi: nat, m: nat)
    requires |p| == |s|
  {
    forall k :: i <= k < |p| - m && (k >= hi || !Selected(s[k])) ==> p[k] == s[k]
  }

  /**
   * One move of the compaction: sending the selected slot `i - 1` to the
   * slot before the tail prepends it to the tail.
   */
  lemma CompactMove(p: seq<Individual>, s: seq<Individual>, j: nat, hi: nat, m: nat, count: int)
    requires Compacted(p, s, j + 1, hi, m) && Selected(s[j]) && count == |p| - 1 - m
    ensures j <= count
    ensures Compacted(Swap(p, count, j), s, j, hi, m + 1)
  {
    FilteredFront(s, j, hi, Selected);
    var q := Filtered(s[j + 1..hi], Selected);
    assert Filtered(s[j..hi], Selected) == [s[j]] + q;
    assert |q| <= hi - (j + 1);
    var r := Swap(p, count, j);
    assert p[j] == s[j] by {
      assert p[j] == p[..j + 1][j];
    }
    CompactStep(p, j, count);
    SwapEffect(p, count, j);
    assert r[count..] == [s[j]] + q;
    assert r[..j] == s[..j] by {
      assert p[..j] == p[..j + 1][..j];
      assert s[..j] == s[..j + 1][..j];
    }
    SwapPermutes(p, count, j);
  }

  /** A slot that is not selected stays where it is. */
  lemma CompactSkip(p: seq<Individual>, s: seq<Individual>, j: nat, hi: nat, m: nat)
    requires Compacted(p, s, j + 1, hi, m) && !(Selected(s[j]))
    ensures Compacted(p, s, j, hi, m)
  {
    FilteredFront(s, j, hi, Selected);
    assert p[..j] == p[..j + 1][..j];
    assert p[j] == p[..j + 1][j];
  }

  /**
   * The partner of `CompactionTo`: after scanning `s[i..hi]` the tail holds
   * the selected individuals of the scanned part in order, the unscanned
   * slots are untouched and every slot outside the tail that was neither
   * selected nor displaced keeps its individual.
   */
  lemma {:induction false} CompactionCompacts(s: seq<Individual>, i: nat, hi: nat)
    requires i <= hi <= |s|
    ensures Compacted(CompactionTo(s, i, hi), s, i, hi, |Filtered(s[i..hi], Selected)|)
    decreases hi - i
  {
    if i == hi {
      assert s[i..hi] == [];
    } else {
      CompactionCompacts(s, i + 1, hi);
      var q := CompactionTo(s, i + 1, hi);
      var m := |Filtered(s[i + 1..hi], Selected)|;
      assert q[i] == s[i] by {
        assert q[i] == q[..i + 1][i];
      }
      if Selected(s[i]) {
        CompactMove(q, s, i, hi, m, |s| - 1 - m);
      } else {
        CompactSkip(q, s, i, hi, m);
      }
    }
  }

  /**
   * The compaction of the scanned prefix `s[..hi]` as a whole: the tail
   * holds its selected individuals in order, every slot before the tail
   * that lies beyond `hi` or is not selected keeps its individual, and the
   * array is a permutation of `s`.
   */
  lemma CompactionResult(s: seq<Individual>, hi: nat)
    requires hi <= |s|
    ensures |Filtered(s[..hi], Selected)| <= hi
    ensures CompactionTo(s, 0, hi)[|s| - |Filtered(s[..hi], Selected)|..] == Filtered(s[..hi], Selected)
    ensures forall k :: 0 <= k < |s| - |Filtered(s[..hi], Selected)| && (k >= hi || !Selected(s[k])) ==>
      CompactionTo(s, 0, hi)[k] == s[k]
    ensures multiset(CompactionTo(s, 0, hi)) == multiset(s)
  {
    CompactionCompacts(s, 0, hi);
    assert s[0..hi] == s[..hi];
  }

  /** One step of the compaction loop, stated on the slot it reaches. */
  lemma CompactionNext(s: seq<Individual>, i: nat, hi: nat, p: seq<Individual>, m: nat, count: int)
    requires i < hi <= |s| && p == CompactionTo(s, i + 1, hi)
    requires m == |Filtered(s[i + 1..hi], Selected)| && count == |s| - 1 - m
    ensures i <= count < |p| && p[i] == s[i]
    ensures Selected(s[i]) ==> CompactionTo(s, i, hi) == Swap(p, count, i) && |Filtered(s[i..hi], Selected)| == m + 1
    ensures !Selected(s[i]) ==> CompactionTo(s, i, hi) == p && |Filtered(s[i..hi], Selected)| == m
  {
    assert p[i] == s[i] by {
      CompactionCompacts(s, i + 1, hi);
      assert p[i] == p[..i + 1][i];
    }
    FilteredFront(s, i, hi, Selected);
  }

  /**
   * With four slots of which only the first is selected, the compaction
   * exchanges the first and the last: the second and third individuals
   * stay where they are.
   */
  lemma CompactionExample(x0: Individual, x1: Individual, x2: Individual, x3: Individual)
    requires Selected(x0) && !Selected(x1) && !Selected(x2) && !Selected(x3)
    ensures CompactionTo([x0, x1, x2, x3], 0, 4) == [x3, x1, x2, x0]
  {
    var s := [x0, x1, x2, x3];
    assert CompactionTo(s, 1, 4) == s by {
      assert CompactionTo(s, 3, 4) == s;
      assert CompactionTo(s, 2, 4) == s;
    }
    assert s[1..4] == [x1, x2, x3];
    assert Filtered([x1, x2, x3], Selected) == [];
  }

  function Min(a: int, b: int): int {
    if a < b then a else b
  }

  /**
   * What slot `k < lim` of the sorted array `t` holds once the scan of case A
   * has passed it. An individual above 1, met while the archive (`a0` plus
   * the individuals above 1 before it) is not full, is exchanged with the
   * slot just before the archive; any other keeps its place.
   */
  ghost function ScannedSlot(t: seq<Individual>, k: nat, lim: nat, a0: nat): Individual
    requires k < lim && lim + a0 <= |t|
  {
    if AboveOne(t[k]) && a0 + |Filtered(t[..k], AboveOne)| < |t| - lim
    then t[|t| - a0 - 1 - |Filtered(t[..k], AboveOne)|]
    else t[k]
  }

  /**
   * What the scan of `t[..i]` has achieved: the archive holds the first
   * individuals above 1 of the scanned part, as many as fit, the first of
   * them next to the `a0` it started with; each scanned slot holds what
   * `ScannedSlot` says; the unscanned slots, the slots between `lim` and the
   * archive, and the old archive are untouched.
   */
  ghost predicate Filling(p: seq<Individual>, t: seq<Individual>, i: nat, lim: nat, a0: nat, arc: nat) {
    && |p| == |t| && i <= lim && a0 <= arc && lim + arc <= |p|
    && arc == Min(a0 + |Filtered(t[..i], AboveOne)|, |p| - lim)
    && (forall k :: 0 <= k < i ==> p[k] == ScannedSlot(t, k, lim, a0))
    && p[i..lim] == t[i..lim]
    && p[lim..|p| - arc] == t[lim..|p| - arc]
    && p[|p| - arc..|p| - a0] == Reversed(Filtered(t[..i], AboveOne)[..arc - a0])
    && p[|p| - a0..] == t[|p| - a0..]
  }

  /**
   * Taking slot `i` into the slot before the archive built so far:
   * `q` is `p` with those two slots exchanged, as `SwapFar` describes it.
   */
  lemma FillMove(p: seq<Individual>, q: seq<Individual>, t: seq<Individual>, i: nat, lim: nat, a0: nat, arc: nat)
    requires i < lim && Filling(p, t, i, lim, a0, arc) && lim + arc < |p| && AboveOne(t[i])
    requires |q| == |p| && q[i + 1..lim] == p[i + 1..lim] && q[|p| - a0..] == p[|p| - a0..]
    requires q[|p| - arc - 1..|p| - a0] == [p[i]] + p[|p| - arc..|p| - a0]
    requires q[..i] == p[..i] && q[i] == p[|p| - arc - 1]
    requires q[lim..|p| - arc - 1] == p[lim..|p| - arc - 1]
    ensures Filling(q, t, i + 1, lim, a0, arc + 1)
  {
    var f := Filtered(t[..i], AboveOne);
    var x := t[i];
    assert Filtered(t[..i + 1], AboveOne) == f + [x] by {
      FilteredBack(t, i + 1, AboveOne);
    }
    assert p[i] == x && p[i + 1..lim] == t[i + 1..lim] by {
      assert p[i] == p[i..lim][0];
      assert p[i + 1..lim] == p[i..lim][1..];
    }
    assert |f| == arc - a0;
    TakeAll(f, arc - a0);
    TakeAll(f + [x], arc + 1 - a0);
    ReversedSnoc(f, x);
    assert q[|q| - (arc + 1)..|q| - a0] == Reversed(Filtered(t[..i + 1], AboveOne)[..arc + 1 - a0]) by {
      assert q[|q| - (arc + 1)..|q| - a0] == q[|p| - arc - 1..|p| - a0];
    }
    MoveSlots(p, q, t, i, lim, a0, arc);
  }

  /** The scanned slots and the slots between `lim` and the archive, for `FillMove`. */
  lemma MoveSlots(p: seq<Individual>, q: seq<Individual>, t: seq<Individual>, i: nat, lim: nat, a0: nat, arc: nat)
    requires i < lim && lim + arc < |p| == |q| == |t| && AboveOne(t[i])
    requires arc == a0 + |Filtered(t[..i], AboveOne)|
    requires forall k :: 0 <= k < i ==> p[k] == ScannedSlot(t, k, lim, a0)
    requires p[lim..|p| - arc] == t[lim..|p| - arc]
    requires q[..i] == p[..i] && q[i] == p[|p| - arc - 1]
    requires q[lim..|p| - arc - 1] == p[lim..|p| - arc - 1]
    ensures forall k :: 0 <= k < i + 1 ==> q[k] == ScannedSlot(t, k, lim, a0)
    ensures q[lim..|q| - (arc + 1)] == t[lim..|q| - (arc + 1)]
  {
    assert q[i] == t[|p| - arc - 1] by {
      assert p[|p| - arc - 1] == p[lim..|p| - arc][|p| - arc - 1 - lim];
    }
    forall k | 0 <= k < i + 1
      ensures q[k] == ScannedSlot(t, k, lim, a0)
    {
      if k < i {
        assert q[k] == q[..i][k] && p[k] == p[..i][k];
      }
    }
    assert p[lim..|p| - arc - 1] == p[lim..|p| - arc][..|p| - arc - 1 - lim];
    assert t[lim..|p| - arc - 1] == t[lim..|p| - arc][..|p| - arc - 1 - lim];
  }

  lemma TakeAll<T>(s: seq<T>, k: nat)
    requires k == |s|
    ensures s[..k] == s
  {
  }

  /** Slot `i - 1` is passed over when it is not above 1 or the archive is full. */
  lemma FillSkip(p: seq<Individual>, t: seq<Individual>, i: nat, lim: nat, a0: nat, arc: nat)
    requires 0 < i <= lim && Filling(p, t, i - 1, lim, a0, arc) && (!AboveOne(t[i - 1]) || lim + arc == |p|)
    ensures Filling(p, t, i, lim, a0, arc)
  {
    var f := Filtered(t[..i - 1], AboveOne);
    var g := Filtered(t[..i], AboveOne);
    assert g == f + (if AboveOne(t[i - 1]) then [t[i - 1]] else []) by {
      FilteredBack(t, i, AboveOne);
    }
    assert g[..arc - a0] == f[..arc - a0];
    assert p[i - 1] == t[i - 1] && p[i..lim] == t[i..lim] by {
      assert p[i - 1] == p[i - 1..lim][0];
      assert p[i..lim] == p[i - 1..lim][1..];
    }
    assert ScannedSlot(t, i - 1, lim, a0) == t[i - 1];
  }

  /** A slot the scan has not reached still holds the sorted individual. */
  lemma FillSlot(p: seq<Individual>, t: seq<Individual>, i: nat, lim: nat, a0: nat, arc: nat)
    requires i < lim && Filling(p, t, i, lim, a0, arc)
    ensures p[i] == t[i]
  {
    assert p[i] == p[i..lim][0];
  }

  /** One step of the scan that takes slot `i`: the exchange keeps `Filling` and loses nobody. */
  lemma FillTake(p: seq<Individual>, q: seq<Individual>, t: seq<Individual>, i: nat, lim: nat, a0: nat, arc: nat)
    requires i < lim && Filling(p, t, i, lim, a0, arc) && multiset(p) == multiset(t)
    requires lim + arc < |p| && AboveOne(t[i]) && q == Swap(p, |p| - arc - 1, i)
    ensures Filling(q, t, i + 1, lim, a0, arc + 1) && multiset(q) == multiset(t)
  {
    SwapFar(p, i, lim, |p| - arc - 1, |p| - a0);
    FillMove(p, q, t, i, lim, a0, arc);
    SwapKeepsMultiset(q, p, t, |p| - arc - 1, i);
  }

  /** Once the archive is full the rest of the scan passes every slot over. */
  lemma {:induction false} FillFull(p: seq<Individual>, t: seq<Individual>, i: nat, lim: nat, a0: nat, arc: nat)
    requires i <= lim && Filling(p, t, i, lim, a0, arc) && lim + arc == |p|
    ensures Filling(p, t, lim, lim, a0, arc)
    decreases lim - i
  {
    if i < lim {
      FillSkip(p, t, i + 1, lim, a0, arc);
      FillFull(p, t, i + 1, lim, a0, arc);
    }
  }

  /** The scan stops with the prefix exhausted or the archive full; either way it has covered the prefix. */
  lemma FillDone(p: seq<Individual>, t: seq<Individual>, i: nat, lim: nat, a0: nat, arc: nat)
    requires Filling(p, t, i, lim, a0, arc) && (i == lim || lim + arc == |p|)
    ensures Filling(p, t, lim, lim, a0, arc)
  {
    if i < lim {
      FillFull(p, t, i, lim, a0, arc);
    }
  }

  /** Before the scan nothing has been taken. */
  lemma FillStart(t: seq<Individual>, lim: nat, a0: nat)
    requires lim + a0 < |t|
    ensures Filling(t, t, 0, lim, a0, a0)
  {
    assert t[..0] == [];
  }

  /**
   * The outcome of case A of `truncation2` on the array `u` whose archive
   * holds `a0` individuals, with `lim` the slots outside the full archive:
   * `t` is `u` once its prefix `u[..lim]` has been put in ascending fitness
   * (in some such order: the sort is not stable), and `p` is `t` after the
   * complete scan of that prefix, slot by slot as `Filling` describes it;
   * nobody is lost.
   */
  ghost predicate CaseAResult(u: seq<Individual>, t: seq<Individual>, lim: nat, a0: nat, p: seq<Individual>, arc: nat) {
    && lim + a0 <= |u|
    && SortsRange(u, t, 0, lim, FitnessBefore)
    && Filling(p, t, lim, lim, a0, arc)
    && multiset(p) == multiset(u)
  }

  /** Filtering two arrangements of the same elements keeps as many of them. */
  lemma FilteredSameCount<T>(s: seq<T>, r: seq<T>, keep: T -> bool)
    requires multiset(s) == multiset(r)
    ensures |Filtered(s, keep)| == |Filtered(r, keep)|
  {
    var fs, fr := Filtered(s, keep), Filtered(r, keep);
    FilteredCounts(s, keep);
    FilteredCounts(r, keep);
    forall x
      ensures multiset(fs)[x] == multiset(fr)[x]
    {
      assert multiset(s)[x] == multiset(r)[x];
    }
    SameCounts(fs, fr);
  }

  /** Two sequences with the same multiplicities are equally long. */
  lemma SameCounts<T>(a: seq<T>, b: seq<T>)
    requires forall x :: multiset(a)[x] == multiset(b)[x]
    ensures |a| == |b|
  {
    assert multiset(a) == multiset(b);
    assert |multiset(a)| == |a|;
  }

  /** Filtering a sequence every element of which is accepted gives it back. */
  lemma {:induction false} FilteredAll<T>(s: seq<T>, keep: T -> bool)
    requires forall k :: 0 <= k < |s| ==> keep(s[k])
    ensures Filtered(s, keep) == s
  {
    if s != [] {
      FilteredAll(s[1..], keep);
    }
  }

  /**
   * What case A adds to the archive are the individuals above 1 of the
   * prefix `u[..lim]`, each as often as it occurs there, in ascending
   * fitness.
   */
  lemma CaseACandidates(u: seq<Individual>, t: seq<Individual>, lim: nat, a0: nat, p: seq<Individual>, arc: nat)
    requires CaseAResult(u, t, lim, a0, p, arc)
    ensures SortedBy(Filtered(t[..lim], AboveOne), FitnessBefore)
    ensures forall x :: multiset(Filtered(t[..lim], AboveOne))[x] ==
                        (if AboveOne(x) then multiset(u[..lim])[x] else 0)
  {
    assert t[..lim] == t[0..lim] && u[..lim] == u[0..lim];
    FilteredSorted(t[..lim], AboveOne, FitnessBefore);
    FilteredCounts(t[..lim], AboveOne);
  }

  /**
   * The archive ends with `a0` plus the individuals above 1 of `u[..lim]`,
   * or full when they are more than it can take.
   */
  lemma CaseACount(u: seq<Individual>, t: seq<Individual>, lim: nat, a0: nat, p: seq<Individual>, arc: nat)
    requires CaseAResult(u, t, lim, a0, p, arc)
    ensures arc == Min(a0 + |Filtered(u[..lim], AboveOne)|, |u| - lim)
  {
    assert t[..lim] == t[0..lim] && u[..lim] == u[0..lim];
    FilteredSameCount(t[..lim], u[..lim], AboveOne);
  }

  /**
   * Case A leaves the old archive and the slots between the prefix and the
   * new archive as they were in `u`.
   */
  lemma CaseAKept(u: seq<Individual>, t: seq<Individual>, lim: nat, a0: nat, p: seq<Individual>, arc: nat)
    requires CaseAResult(u, t, lim, a0, p, arc)
    ensures p[|u| - a0..] == u[|u| - a0..]
    ensures p[lim..|u| - arc] == u[lim..|u| - arc]
  {
    assert t[|u| - a0..] == t[lim..][|u| - a0 - lim..] && u[|u| - a0..] == u[lim..][|u| - a0 - lim..];
    assert t[lim..|u| - arc] == t[lim..][..|u| - arc - lim] && u[lim..|u| - arc] == u[lim..][..|u| - arc - lim];
  }

  /**
   * Case A fills the archive to exactly its size whenever every individual
   * of the prefix it sorts is above 1 and there are enough of them.
   */
  lemma CaseAFull(u: seq<Individual>, t: seq<Individual>, lim: nat, a0: nat, p: seq<Individual>, arc: nat)
    requires CaseAResult(u, t, lim, a0, p, arc)
    requires forall k :: 0 <= k < lim ==> AboveOne(u[k])
    requires |u| - lim <= a0 + lim
    ensures arc == |u| - lim
  {
    CaseACount(u, t, lim, a0, p, arc);
    assert forall k :: 0 <= k < lim ==> AboveOne(u[..lim][k]);
    FilteredAll(u[..lim], AboveOne);
  }

  /**
   * After the compaction of `environmentSelection` over the whole array `u`,
   * whose every individual is either selected or above 1, no slot before
   * the `a0` selected ones holds a selected individual.
   */
  lemma OutsideAboveOne(u: seq<Individual>, mid: seq<Individual>, a0: nat, k: nat)
    requires forall j :: 0 <= j < |u| ==> Selected(u[j]) || AboveOne(u[j])
    requires |mid| == |u| && a0 <= |u| && mid[|u| - a0..] == Filtered(u, Selected)
    requires multiset(mid) == multiset(u) && k < |u| - a0
    ensures AboveOne(mid[k])
  {
    var x := mid[k];
    assert mid == mid[..|u| - a0] + mid[|u| - a0..];
    assert x in mid[..|u| - a0] by {
      assert mid[..|u| - a0][k] == x;
    }
    assert x in u by {
      assert x in multiset(mid);
    }
    var j :| 0 <= j < |u| && u[j] == x;
    FilteredCounts(u, Selected);
  }

  /**
   * When the population spans the whole array (every generation after the
   * first) and the archive is no larger than the rest, case A fills the
   * archive to exactly its size: fitness assignment leaves every individual
   * selected or above 1, and the compaction puts the selected ones in the
   * archive, so the whole prefix is above 1.
   */
  lemma ArchiveFilled(u: seq<Individual>, mid: seq<Individual>, t: seq<Individual>,
                      lim: nat, a0: nat, p: seq<Individual>, arc: nat)
    requires forall j :: 0 <= j < |u| ==> Selected(u[j]) || AboveOne(u[j])
    requires |mid| == |u| && a0 <= |u| && mid[|u| - a0..] == Filtered(u, Selected)
    requires multiset(mid) == multiset(u)
    requires CaseAResult(mid, t, lim, a0, p, arc) && |u| - lim <= lim
    ensures arc == |u| - lim
  {
    forall k | 0 <= k < lim
      ensures AboveOne(mid[k])
    {
      OutsideAboveOne(u, mid, a0, k);
    }
    CaseAFull(mid, t, lim, a0, p, arc);
  }

  /**
   * What one search of case B of `truncation2` finds among the slots
   * `[begin, |p|)`: `minDist` bounds every pair distance from below and is
   * the distance of a pair whose first member is `closest`, and no row
   * before `closest` reaches it (the first minimal pair wins, as the strict
   * comparison makes it); with no pair below the starting value `top`
   * (`DBL_MAX` in `truncation2`) it stays `top` and `closest` stays `begin`.
   */
  ghost predicate ClosestFirst(p: seq<Individual>, s: seq<int>, begin: nat, closest: nat, minDist: real, top: real)
    requires IndividualsFit(p, s)
  {
    && begin <= closest < |p| && minDist <= top
    && (forall a :: begin <= a < |p| ==> RowAtLeast(p, s, a, |p|, minDist))
    && (forall a :: begin <= a < closest ==> RowAbove(p, s, a, minDist))
    && (minDist < top ==> Attained(p, s, closest, minDist))
    && (minDist == top ==> closest == begin)
  }

  /** Every pair `(a, b)` with `a < b < j` is at least `m` apart. */
  ghost predicate RowAtLeast(p: seq<Individual>, s: seq<int>, a: nat, j: nat, m: real)
    requires IndividualsFit(p, s) && a < |p| && j <= |p|
  {
    forall b :: a < b < j ==> Distance(p[a].obj, p[b].obj) >= m
  }

  /** Every pair `(a, b)` with `a < b` is strictly more than `m` apart. */
  ghost predicate RowAbove(p: seq<Individual>, s: seq<int>, a: nat, m: real)
    requires IndividualsFit(p, s) && a < |p|
  {
    forall b :: a < b < |p| ==> Distance(p[a].obj, p[b].obj) > m
  }

  /** Some pair `(c, b)` with `c < b` is exactly `m` apart. */
  ghost predicate Attained(p: seq<Individual>, s: seq<int>, c: nat, m: real)
    requires IndividualsFit(p, s) && c < |p|
  {
    exists b :: c < b < |p| && Distance(p[c].obj, p[b].obj) == m
  }

  /** Comparing two outcomes of the search from the side of the first. */
  lemma ClosestBound(p: seq<Individual>, s: seq<int>, begin: nat, c1: nat, m1: real, c2: nat, m2: real, top: real)
    requires IndividualsFit(p, s)
    requires ClosestFirst(p, s, begin, c1, m1, top) && ClosestFirst(p, s, begin, c2, m2, top)
    ensures m1 < top ==> m2 <= m1
    ensures m1 < top && c1 < c2 ==> m2 < m1
  {
    if m1 < top {
      var b1 :| c1 < b1 < |p| && Distance(p[c1].obj, p[b1].obj) == m1;
      assert RowAtLeast(p, s, c1, |p|, m2);
      assert c1 < c2 ==> RowAbove(p, s, c1, m2);
    }
  }

  /** The search has exactly one outcome. */
  lemma ClosestUnique(p: seq<Individual>, s: seq<int>, begin: nat, c1: nat, m1: real, c2: nat, m2: real, top: real)
    requires IndividualsFit(p, s)
    requires ClosestFirst(p, s, begin, c1, m1, top) && ClosestFirst(p, s, begin, c2, m2, top)
    ensures c1 == c2 && m1 == m2
  {
    ClosestBound(p, s, begin, c1, m1, c2, m2, top);
    ClosestBound(p, s, begin, c2, m2, c1, m1, top);
  }

  /**
   * One round of case B: the search over `[begin, |p|)` picks `closest`,
   * which `removal` bubbles down to `begin`, leaving the archive.
   */
  ghost predicate ShrinkRound(p: seq<Individual>, q: seq<Individual>, s: seq<int>, begin: nat, top: real)
    requires IndividualsFit(p, s)
  {
    exists c: nat, m: real :: ClosestFirst(p, s, begin, c, m, top) && q == Rotated(p, begin, c)
  }

  /**
   * The state of the pair search after the rows `[begin, i)` and the pairs
   * `(i, b)` with `i < b < j`: `minDist` bounds every scanned distance, is
   * strictly below every distance from a row before `closest`, and is
   * attained by `(closest, partner)` unless nothing has been seen yet.
   */
  ghost predicate PairsScanned(p: seq<Individual>, s: seq<int>, begin: nat, i: nat, j: nat,
                               closest: nat, partner: nat, minDist: real, top: real)
  {
    && IndividualsFit(p, s) && begin <= closest <= i <= |p| && closest < |p| && j <= |p| && minDist <= top
    && (forall a :: begin <= a < i ==> RowAtLeast(p, s, a, |p|, minDist))
    && (i < |p| ==> RowAtLeast(p, s, i, j, minDist))
    && (forall a :: begin <= a < closest ==> RowAbove(p, s, a, minDist))
    && (minDist < top ==> closest < partner < |p| && Distance(p[closest].obj, p[partner].obj) == minDist)
    && (minDist == top ==> closest == begin)
  }

  /** Scanning the pair `(i, j)`: a strictly closer pair replaces the best... */
  lemma ScanCloser(p: seq<Individual>, s: seq<int>, begin: nat, i: nat, j: nat,
                   closest: nat, partner: nat, minDist: real, dist: real, top: real)
    requires PairsScanned(p, s, begin, i, j, closest, partner, minDist, top) && i < j < |p|
    requires dist == Distance(p[i].obj, p[j].obj) < minDist
    ensures PairsScanned(p, s, begin, i, j + 1, i, j, dist, top)
  {
    forall a | begin <= a < i
      ensures RowAtLeast(p, s, a, |p|, dist) && RowAbove(p, s, a, dist)
    {
      assert RowAtLeast(p, s, a, |p|, minDist);
    }
  }

  /** The pair `(i, i)` is skipped. */
  lemma ScanSelf(p: seq<Individual>, s: seq<int>, begin: nat, i: nat,
                 closest: nat, partner: nat, minDist: real, top: real)
    requires PairsScanned(p, s, begin, i, i, closest, partner, minDist, top) && i < |p|
    ensures PairsScanned(p, s, begin, i, i + 1, closest, partner, minDist, top)
  {
  }

  /** ...and any other pair leaves it in place. */
  lemma ScanFarther(p: seq<Individual>, s: seq<int>, begin: nat, i: nat, j: nat,
                    closest: nat, partner: nat, minDist: real, dist: real, top: real)
    requires PairsScanned(p, s, begin, i, j, closest, partner, minDist, top) && i < j < |p|
    requires dist == Distance(p[i].obj, p[j].obj) >= minDist
    ensures PairsScanned(p, s, begin, i, j + 1, closest, partner, minDist, top)
  {
  }

  /** A finished row joins the scanned rows. */
  lemma ScanRow(p: seq<Individual>, s: seq<int>, begin: nat, i: nat,
                closest: nat, partner: nat, minDist: real, top: real)
    requires PairsScanned(p, s, begin, i, |p|, closest, partner, minDist, top) && i < |p|
    ensures PairsScanned(p, s, begin, i + 1, i + 1, closest, partner, minDist, top)
  {
  }

  /** Once every row is scanned, the best pair is the one `truncation2` removes from. */
  lemma ScanDone(p: seq<Individual>, s: seq<int>, begin: nat,
                 closest: nat, partner: nat, minDist: real, top: real)
    requires PairsScanned(p, s, begin, |p|, |p|, closest, partner, minDist, top) && begin < |p|
    ensures ClosestFirst(p, s, begin, closest, minDist, top)
  {
    if minDist < top {
      assert Distance(p[closest].obj, p[partner].obj) == minDist;
    }
  }

  /** Appending one more round to a trace. */
  lemma RoundsExtend(trace: seq<seq<Individual>>, q: seq<Individual>, s: seq<int>, begin: nat, top: real)
    requires Rounds(trace, s, begin, top) && IndividualsFit(q, s)
    requires ShrinkRound(trace[|trace| - 1], q, s, begin + |trace| - 1, top)
    ensures Rounds(trace + [q], s, begin, top)
  {
    var t := trace + [q];
    assert t[..|trace|] == trace && t[|t| - 2] == trace[|trace| - 1];
  }

  /** `trace` lists the arrays between successive rounds, the first starting at `begin`. */
  ghost predicate Rounds(trace: seq<seq<Individual>>, s: seq<int>, begin: nat, top: real)
    decreases |trace|
  {
    && |trace| >= 1
    && IndividualsFit(trace[|trace| - 1], s)
    && (|trace| > 1 ==>
          && Rounds(trace[..|trace| - 1], s, begin, top)
          && ShrinkRound(trace[|trace| - 2], trace[|trace| - 1], s, begin + |trace| - 2, top))
  }

  /** The outcome of `rounds` rounds of case B from `u` to `v`. */
  ghost predicate Shrunk(trace: seq<seq<Individual>>, u: seq<Individual>, v: seq<Individual>,
                         s: seq<int>, begin: nat, rounds: nat, top: real)
  {
    |trace| == rounds + 1 && trace[0] == u && trace[rounds] == v && Rounds(trace, s, begin, top)
  }

  /** One more round, choosing `closest` and rotating it down to `at`, extends the outcome. */
  lemma ShrunkStep(trace: seq<seq<Individual>>, u: seq<Individual>, v: seq<Individual>, q: seq<Individual>,
                   s: seq<int>, begin: nat, rounds: nat, at: nat, closest: nat, minDist: real, top: real)
    requires Shrunk(trace, u, v, s, begin, rounds, top) && IndividualsFit(v, s) && IndividualsFit(q, s)
    requires at == begin + rounds && ClosestFirst(v, s, at, closest, minDist, top)
    requires q == Rotated(v, at, closest)
    ensures Shrunk(trace + [q], u, q, s, begin, rounds + 1, top)
  {
    assert ShrinkRound(v, q, s, at, top);
    RoundsExtend(trace, q, s, begin, top);
  }

  /**
   * One round moves the individual it drops to slot `begin`, just below the
   * shrunken archive, and leaves every slot before `begin` alone.
   */
  lemma ShrinkRoundKeep(p: seq<Individual>, q: seq<Individual>, s: seq<int>, begin: nat, top: real)
    requires IndividualsFit(p, s) && ShrinkRound(p, q, s, begin, top)
    ensures begin < |p| == |q| && q[..begin] == p[..begin]
    ensures multiset(q) == multiset(p)
    ensures multiset(q[begin + 1..]) + multiset{q[begin]} == multiset(p[begin..])
  {
    var c: nat, m: real :| ClosestFirst(p, s, begin, c, m, top) && q == Rotated(p, begin, c);
    RotatedDrop(p, begin, c);
  }

  /** Over all rounds: same length, same multiset, the slots before the archive untouched. */
  lemma {:induction false} RoundsKeep(trace: seq<seq<Individual>>, s: seq<int>, begin: nat, top: real)
    requires Rounds(trace, s, begin, top) && begin <= |trace[0]|
    ensures |trace[|trace| - 1]| == |trace[0]| && begin + |trace| - 1 <= |trace[0]|
    ensures trace[|trace| - 1][..begin] == trace[0][..begin]
    ensures multiset(trace[|trace| - 1]) == multiset(trace[0])
  {
    if |trace| > 1 {
      var n := |trace| - 1;
      RoundsStep(trace, s, begin, n, top);
      var t := trace[..n];
      RoundsKeep(t, s, begin, top);
      assert trace[n - 1] == t[|t| - 1] && t[0] == trace[0];
      RoundKeeps(trace[n - 1], trace[n], trace[0], s, begin, begin + n - 1, top);
    }
  }

  /** One more round keeps what the rounds before it kept. */
  lemma RoundKeeps(p: seq<Individual>, q: seq<Individual>, u: seq<Individual>, s: seq<int>, begin: nat, b: nat, top: real)
    requires IndividualsFit(p, s) && ShrinkRound(p, q, s, b, top) && begin <= b
    requires |p| == |u| && p[..begin] == u[..begin] && multiset(p) == multiset(u)
    ensures |q| == |u| && b < |u| && q[..begin] == u[..begin] && multiset(q) == multiset(u)
  {
    ShrinkRoundKeep(p, q, s, b, top);
    PrefixOfPrefix(q, p, b, begin);
  }

  /** Agreeing on the first `k` elements means agreeing on the first `j <= k`. */
  lemma PrefixOfPrefix<T>(x: seq<T>, y: seq<T>, k: nat, j: nat)
    requires j <= k <= |x| && k <= |y| && x[..k] == y[..k]
    ensures x[..j] == y[..j]
  {
    assert x[..j] == x[..k][..j] && y[..j] == y[..k][..j];
  }

  /** What the rounds from `u` to `v` keep. */
  lemma ShrunkKeep(trace: seq<seq<Individual>>, u: seq<Individual>, v: seq<Individual>,
                   s: seq<int>, begin: nat, rounds: nat, top: real)
    requires Shrunk(trace, u, v, s, begin, rounds, top) && begin <= |u|
    ensures |v| == |u| && v[..begin] == u[..begin] && multiset(v) == multiset(u)
  {
    RoundsKeep(trace, s, begin, top);
    assert trace[|trace| - 1] == v;
  }

  /** Case B is deterministic: traces of the same length from the same start coincide. */
  lemma {:induction false} RoundsUnique(t1: seq<seq<Individual>>, t2: seq<seq<Individual>>, s: seq<int>, begin: nat, top: real)
    requires Rounds(t1, s, begin, top) && Rounds(t2, s, begin, top)
    requires |t1| == |t2| && t1[0] == t2[0]
    ensures t1 == t2
  {
    var n := |t1| - 1;
    if n > 0 {
      RoundsStep(t1, s, begin, n, top);
      RoundsStep(t2, s, begin, n, top);
      var u1, u2 := t1[..n], t2[..n];
      assert u1[0] == t1[0] && u2[0] == t2[0];
      RoundsUnique(u1, u2, s, begin, top);
      assert t1[n - 1] == u1[n - 1] && t2[n - 1] == u2[n - 1];
      ShrinkRoundUnique(t1[n - 1], t1[n], t2[n], s, begin + n - 1, top);
      SplitLast(t1, n);
      SplitLast(t2, n);
    }
  }

  lemma SplitLast<T>(t: seq<T>, n: nat)
    requires |t| == n + 1
    ensures t == t[..n] + [t[n]]
  {
  }

  /** The last round of a trace of `n` rounds, and the trace before it. */
  lemma RoundsStep(t: seq<seq<Individual>>, s: seq<int>, begin: nat, n: nat, top: real)
    requires Rounds(t, s, begin, top) && |t| == n + 1 && n > 0
    ensures Rounds(t[..n], s, begin, top) && IndividualsFit(t[n - 1], s)
    ensures ShrinkRound(t[n - 1], t[n], s, begin + n - 1, top)
  {
    assert t[..n][n - 1] == t[n - 1];
  }

  /** One round has one outcome. */
  lemma ShrinkRoundUnique(p: seq<Individual>, q1: seq<Individual>, q2: seq<Individual>, s: seq<int>, begin: nat, top: real)
    requires IndividualsFit(p, s) && ShrinkRound(p, q1, s, begin, top) && ShrinkRound(p, q2, s, begin, top)
    ensures q1 == q2
  {
    var c1: nat, m1: real :| ClosestFirst(p, s, begin, c1, m1, top) && q1 == Rotated(p, begin, c1);
    var c2: nat, m2: real :| ClosestFirst(p, s, begin, c2, m2, top) && q2 == Rotated(p, begin, c2);
    ClosestUnique(p, s, begin, c1, m1, c2, m2, top);
  }

  // ---------------------------------------------------------------------
  // Strength, raw fitness and the fitness `fitnessAssign` leaves.
  // ---------------------------------------------------------------------

  /** Slot `i` dominates a different slot `j`: the pairs both loops of `fitnessAssign` count. */
  predicate Beats(p: seq<Individual>, s: seq<int>, i: nat, j: nat)
    requires IndividualsFit(p, s) && i < |p| && j < |p|
  {
    i != j && Dominates(p[i].obj, p[j].obj, s)
  }

  /** How many slots of `[0, m)` slot `i` dominates. */
  function DominatedCount(p: seq<Individual>, s: seq<int>, i: nat, m: nat): (r: nat)
    requires IndividualsFit(p, s) && i < |p| && m <= |p|
    ensures r <= m
  {
    if m == 0 then 0
    else DominatedCount(p, s, i, m - 1) + (if Beats(p, s, i, m - 1) then 1 else 0)
  }

  /** The strength `strenght[i]`: the slots of the scanned prefix `[0, n)` that `i` dominates. */
  function Strength(p: seq<Individual>, s: seq<int>, n: nat, i: nat): (r: nat)
    requires IndividualsFit(p, s) && i < |p| && n <= |p|
    ensures r <= n
  {
    DominatedCount(p, s, i, n)
  }

  /** The strengths of the dominators of `j` among the slots `[0, m)`, summed. */
  function RawFrom(p: seq<Individual>, s: seq<int>, n: nat, j: nat, m: nat): nat
    requires IndividualsFit(p, s) && n <= |p| && j < |p| && m <= n
  {
    if m == 0 then 0
    else RawFrom(p, s, n, j, m - 1) + (if Beats(p, s, m - 1, j) then Strength(p, s, n, m - 1) else 0)
  }

  /** The raw fitness of slot `j`: the strengths of its dominators in the prefix. */
  function Raw(p: seq<Individual>, s: seq<int>, n: nat, j: nat): nat
    requires IndividualsFit(p, s) && n <= |p| && j < |p|
  {
    RawFrom(p, s, n, j, n)
  }

  /** A slot that dominates some slot of `[0, m)` has a positive count. */
  lemma {:induction false} CountPositive(p: seq<Individual>, s: seq<int>, i: nat, j: nat, m: nat)
    requires IndividualsFit(p, s) && i < |p| && j < m <= |p| && Beats(p, s, i, j)
    ensures DominatedCount(p, s, i, m) >= 1
  {
    if j < m - 1 {
      CountPositive(p, s, i, j, m - 1);
    }
  }

  /** No dominator among `[0, m)` means a zero sum, and only then. */
  lemma {:induction false} RawFromZero(p: seq<Individual>, s: seq<int>, n: nat, j: nat, m: nat)
    requires IndividualsFit(p, s) && j < n <= |p| && m <= n
    ensures RawFrom(p, s, n, j, m) == 0 <==> forall i :: 0 <= i < m ==> !Beats(p, s, i, j)
  {
    if m > 0 {
      RawFromZero(p, s, n, j, m - 1);
      if Beats(p, s, m - 1, j) {
        CountPositive(p, s, m - 1, j, n);
      }
    }
  }

  /** `k * w + kth`, the density read of row `k`, lies inside an `N * N` matrix. */
  lemma FlatBound(k: nat, w: nat, kth: nat, N: nat)
    requires k < w <= N && kth < N
    ensures k * w + kth < N * N
  {
    assert k * w <= k * N;
    assert k * N <= (N - 1) * N;
  }

  /**
   * The slot `k` after `fitnessAssign` over the prefix `[0, n)` of `p`: raw
   * fitness plus the density read at column `kth` of row `k` of the matrix
   * `d`, whose rows are `n` wide; slots past the prefix are untouched.
   */
  function Fitted(p: seq<Individual>, s: seq<int>, n: nat, d: seq<Ind>, kth: nat, k: nat): Individual
    requires IndividualsFit(p, s) && n <= |p| && k < |p| && kth < |p| && |d| == |p| * |p|
  {
    if k < n then
      FlatBound(k, n, kth, |p|);
      p[k].(fitness := Raw(p, s, n, k) as real + Density(d[k * n + kth].eDist))
    else p[k]
  }

  /**
   * The selection test of SPEA2: a scanned slot ends with fitness below 1
   * exactly when nothing in the prefix dominates it, and above 1 otherwise;
   * a fitness of exactly 1 never occurs. Its label and objectives stay.
   */
  lemma FittedSelection(p: seq<Individual>, s: seq<int>, n: nat, d: seq<Ind>, kth: nat, k: nat)
    requires IndividualsFit(p, s) && k < n <= |p| && kth < |p| && |d| == |p| * |p|
    ensures Selected(Fitted(p, s, n, d, kth, k)) <==> forall i :: 0 <= i < n ==> !Beats(p, s, i, k)
    ensures Selected(Fitted(p, s, n, d, kth, k)) || AboveOne(Fitted(p, s, n, d, kth, k))
    ensures Fitted(p, s, n, d, kth, k).obj == p[k].obj && Fitted(p, s, n, d, kth, k).index == p[k].index
  {
    RawFromZero(p, s, n, k, n);
  }

  /**
   * The slot `k` while the raw-fitness loop has summed the rows `[0, i)` and
   * row `i` up to column `j`.
   */
  function Partial(p: seq<Individual>, s: seq<int>, n: nat, i: nat, j: nat, k: nat): Individual
    requires IndividualsFit(p, s) && n <= |p| && k < |p| && i <= n
  {
    if k < n then
      p[k].(fitness := (RawFrom(p, s, n, k, i)
                         + (if i < n && k < j && Beats(p, s, i, k) then Strength(p, s, n, i) else 0)) as real)
    else p[k]
  }

  /** Only fitness values change: the objectives, hence the dimensions, stay. */
  lemma FittedFit(p: seq<Individual>, q: seq<Individual>, s: seq<int>, n: nat, d: seq<Ind>, kth: nat)
    requires IndividualsFit(p, s) && n <= |p| == |q| && kth < |p| && |d| == |p| * |p|
    requires forall k :: 0 <= k < |q| ==> q[k] == Fitted(p, s, n, d, kth, k)
    ensures IndividualsFit(q, s)
  {
    forall k | 0 <= k < |q|
      ensures |q[k].obj| == |s|
    {
      assert q[k] == Fitted(p, s, n, d, kth, k);
    }
  }

  // ---------------------------------------------------------------------
  // The distance matrix that densityCalc builds.
  // ---------------------------------------------------------------------

  /** The position of cell `(a, b)` in a matrix stored row by row, `w` cells to a row. */
  function Flat(a: nat, b: nat, w: nat): nat {
    Mul(a, w) + b
  }

  lemma FlatInRange(a: nat, b: nat, w: nat)
    requires a < w && b < w
    ensures Flat(a, b, w) < Mul(w, w)
  {
    MulMono(a, w, w);
  }

  /** Two different cells of a `w`-wide matrix have different positions. */
  lemma FlatDistinct(a: nat, b: nat, c: nat, d: nat, w: nat)
    requires b < w && d < w && (a != c || b != d)
    ensures Flat(a, b, w) != Flat(c, d, w)
  {
    if a < c {
      MulMono(a, c, w);
    } else if c < a {
      MulMono(c, a, w);
    }
  }

  /** The `w * w` cells in use fit in a matrix over `|p|` individuals. */
  lemma SquareFits(w: nat, n: nat)
    requires w <= n
    ensures Mul(w, w) <= n * n
  {
    MulProduct(w, w);
    SquareMonotone(w, n);
  }

  /** The cells `[0, c)` reset to `Ind(0, 0.0)`, as the first loop of `densityCalc` leaves them. */
  function Cleared(d: seq<Ind>, c: nat): (r: seq<Ind>)
    ensures |r| == |d|
    ensures forall k :: 0 <= k < |d| ==> r[k] == if k < c then Ind(0, 0.0) else d[k]
  {
    seq(|d|, k requires 0 <= k < |d| => if k < c then Ind(0, 0.0) else d[k])
  }

  /**
   * The entry the pair loop of `densityCalc` writes at `(a, b)`, `a != b`:
   * the neighbour `b`, and the distance computed once for the pair with the
   * lower slot first.
   */
  function Cell(p: seq<Individual>, s: seq<int>, a: nat, b: nat): Ind
    requires IndividualsFit(p, s) && a < |p| && b < |p|
  {
    if a <= b then Ind(b, Distance(p[a].obj, p[b].obj))
    else Ind(b, Distance(p[b].obj, p[a].obj))
  }

  /** The pass of the pair loop at `(i, j)`, `i < j`: the entry and its mirror. */
  function WritePair(m: seq<Ind>, p: seq<Individual>, s: seq<int>, w: nat, i: nat, j: nat): (r: seq<Ind>)
    requires IndividualsFit(p, s) && i < j < w <= |p| && Mul(w, w) <= |m|
    ensures |r| == |m|
  {
    FlatInRange(i, j, w);
    FlatInRange(j, i, w);
    m[Flat(i, j, w) := Cell(p, s, i, j)][Flat(j, i, w) := Ind(i, Cell(p, s, i, j).eDist)]
  }

  /** Row `i` of the pair loop, for the columns before `j` (the diagonal is skipped). */
  function RowPairs(m: seq<Ind>, p: seq<Individual>, s: seq<int>, w: nat, i: nat, j: nat): (r: seq<Ind>)
    requires IndividualsFit(p, s) && i < w <= |p| && i <= j <= w && Mul(w, w) <= |m|
    ensures |r| == |m|
    decreases j
  {
    if j <= i + 1 then m
    else WritePair(RowPairs(m, p, s, w, i, j - 1), p, s, w, i, j - 1)
  }

  lemma RowPairsStep(m: seq<Ind>, p: seq<Individual>, s: seq<int>, w: nat, i: nat, j: nat)
    requires IndividualsFit(p, s) && i < j < w <= |p| && Mul(w, w) <= |m|
    ensures RowPairs(m, p, s, w, i, j + 1) == WritePair(RowPairs(m, p, s, w, i, j), p, s, w, i, j)
  {
  }

  /** The rows `[0, i)` of the pair loop. */
  function AllPairs(m: seq<Ind>, p: seq<Individual>, s: seq<int>, w: nat, i: nat): (r: seq<Ind>)
    requires IndividualsFit(p, s) && i <= w <= |p| && Mul(w, w) <= |m|
    ensures |r| == |m|
  {
    if i == 0 then m
    else RowPairs(AllPairs(m, p, s, w, i - 1), p, s, w, i - 1, w)
  }

  lemma AllPairsStep(m: seq<Ind>, p: seq<Individual>, s: seq<int>, w: nat, i: nat)
    requires IndividualsFit(p, s) && i < w <= |p| && Mul(w, w) <= |m|
    ensures AllPairs(m, p, s, w, i + 1) == RowPairs(AllPairs(m, p, s, w, i), p, s, w, i, w)
  {
  }

  /**
   * The matrix `densityCalc` has built over the prefix `[0, w)` of `p` before
   * it sorts the rows: the cells in use cleared, then every pair written.
   */
  function Matrix(p: seq<Individual>, s: seq<int>, w: nat, d: seq<Ind>): (r: seq<Ind>)
    requires IndividualsFit(p, s) && w <= |p| && |d| == |p| * |p|
    ensures |r| == |d| && Mul(w, w) <= |r|
  {
    SquareFits(w, |p|);
    AllPairs(Cleared(d, Mul(w, w)), p, s, w, w)
  }

  /** What row `i` of the pair loop has written by column `j`; the cells past the matrix in use stay. */
  lemma {:induction false} RowPairsCell(m: seq<Ind>, p: seq<Individual>, s: seq<int>, w: nat, i: nat, j: nat,
                                        a: nat, b: nat)
    requires IndividualsFit(p, s) && i < w <= |p| && i <= j <= w && Mul(w, w) <= |m| && a < w && b < w
    ensures Flat(a, b, w) < Mul(w, w)
    ensures RowPairs(m, p, s, w, i, j)[Flat(a, b, w)] ==
            if (a == i && i < b < j) || (b == i && i < a < j) then Cell(p, s, a, b) else m[Flat(a, b, w)]
    decreases j
  {
    FlatInRange(a, b, w);
    if j > i + 1 {
      var c := j - 1;
      RowPairsCell(m, p, s, w, i, c, a, b);
      FlatInRange(i, c, w);
      FlatInRange(c, i, w);
      if a != i || b != c {
        FlatDistinct(a, b, i, c, w);
      }
      if a != c || b != i {
        FlatDistinct(a, b, c, i, w);
      }
    }
  }

  lemma {:induction false} RowPairsOutside(m: seq<Ind>, p: seq<Individual>, s: seq<int>, w: nat, i: nat, j: nat, k: nat)
    requires IndividualsFit(p, s) && i < w <= |p| && i <= j <= w && Mul(w, w) <= k < |m|
    ensures RowPairs(m, p, s, w, i, j)[k] == m[k]
    decreases j
  {
    if j > i + 1 {
      RowPairsOutside(m, p, s, w, i, j - 1, k);
      FlatInRange(i, j - 1, w);
      FlatInRange(j - 1, i, w);
    }
  }

  /** After the rows `[0, i)`, every pair whose lower slot is below `i` is written, in both cells. */
  lemma {:induction false} AllPairsCell(m: seq<Ind>, p: seq<Individual>, s: seq<int>, w: nat, i: nat, a: nat, b: nat)
    requires IndividualsFit(p, s) && i <= w <= |p| && Mul(w, w) <= |m| && a < w && b < w
    ensures Flat(a, b, w) < Mul(w, w)
    ensures AllPairs(m, p, s, w, i)[Flat(a, b, w)] ==
            if a != b && Min(a, b) < i then Cell(p, s, a, b) else m[Flat(a, b, w)]
  {
    FlatInRange(a, b, w);
    if i > 0 {
      AllPairsCell(m, p, s, w, i - 1, a, b);
      RowPairsCell(AllPairs(m, p, s, w, i - 1), p, s, w, i - 1, w, a, b);
    }
  }

  lemma {:induction false} AllPairsOutside(m: seq<Ind>, p: seq<Individual>, s: seq<int>, w: nat, i: nat, k: nat)
    requires IndividualsFit(p, s) && i <= w <= |p| && Mul(w, w) <= k < |m|
    ensures AllPairs(m, p, s, w, i)[k] == m[k]
  {
    if i > 0 {
      AllPairsOutside(m, p, s, w, i - 1, k);
      RowPairsOutside(AllPairs(m, p, s, w, i - 1), p, s, w, i - 1, w, k);
    }
  }

  /**
   * The matrix before the row sorts: cell `(a, b)` holds the distance of
   * `a` and `b` with the neighbour label `b`; the matrix is symmetric in its
   * distances, its diagonal is `Ind(0, 0.0)`, and the cells past the
   * `w * w` in use keep their old contents.
   */
  lemma MatrixCells(p: seq<Individual>, s: seq<int>, w: nat, d: seq<Ind>, a: nat, b: nat)
    requires IndividualsFit(p, s) && w <= |p| && |d| == |p| * |p| && a < w && b < w
    ensures Flat(a, b, w) < Mul(w, w) && Flat(b, a, w) < Mul(w, w)
    ensures Matrix(p, s, w, d)[Flat(a, b, w)].eDist == Distance(p[a].obj, p[b].obj)
    ensures Matrix(p, s, w, d)[Flat(a, b, w)].eDist == Matrix(p, s, w, d)[Flat(b, a, w)].eDist
    ensures a != b ==> Matrix(p, s, w, d)[Flat(a, b, w)].index == b
    ensures a == b ==> Matrix(p, s, w, d)[Flat(a, b, w)] == Ind(0, 0.0)
  {
    SquareFits(w, |p|);
    var c := Cleared(d, Mul(w, w));
    FlatInRange(a, b, w);
    FlatInRange(b, a, w);
    AllPairsCell(c, p, s, w, w, a, b);
    AllPairsCell(c, p, s, w, w, b, a);
    DistanceSymmetric(p[a].obj, p[b].obj);
    DistanceZero(p[a].obj, p[a].obj);
  }

  lemma MatrixOutside(p: seq<Individual>, s: seq<int>, w: nat, d: seq<Ind>, k: nat)
    requires IndividualsFit(p, s) && w <= |p| && |d| == |p| * |p| && Mul(w, w) <= k < |d|
    ensures Matrix(p, s, w, d)[k] == d[k]
  {
    SquareFits(w, |p|);
    AllPairsOutside(Cleared(d, Mul(w, w)), p, s, w, w, k);
  }

  // ---------------------------------------------------------------------
  // The engine.
  // ---------------------------------------------------------------------

  class Spea2 {
    /** `POPSIZE`: the scanned prefix; it becomes `all_pop` after the first generation. */
    var popsize: nat
    /** `ARCSIZE`: the archive size. */
    const arcsize: nat
    /** `all_pop`: the population plus the archive, the length of the array. */
    const allPop: nat
    /** `kth`: the neighbour rank the density reads. */
    const kth: nat
    /** The sign configuration, one entry per objective. */
    const signs: seq<int>
    /** `population`: the archive occupies the tail. */
    const population: array<Individual>
    /** `distance`: the `all_pop * all_pop` matrix, rows of width `POPSIZE` in use. */
    const distance: array<Ind>

    ghost predicate Valid()
      reads this, population
    {
      && arcsize >= 1 && 1 <= popsize <= allPop && arcsize < allPop
      && population.Length == allPop && distance.Length == allPop * allPop
      && kth == Kth(allPop) && kth < allPop
      && IndividualsFit(population[..], signs)
    }

    /** The engine over an initial population and archive supplied by the representation layer. */
    constructor (n: nat, arcSize: nat, s: seq<int>, initial: seq<Individual>)
      requires n >= 1 && arcSize >= 1 && |initial| == n + arcSize
      requires IndividualsFit(initial, s)
      ensures Valid() && fresh(population) && fresh(distance)
      ensures popsize == n && arcsize == arcSize && allPop == n + arcSize && signs == s
      ensures population[..] == initial
    {
      popsize, arcsize, allPop, signs := n, arcSize, n + arcSize, s;
      population := new Individual[n + arcSize](k requires 0 <= k < n + arcSize => initial[k]);
      distance := new Ind[(n + arcSize) * (n + arcSize)](_ => Ind(0, 0.0));
      kth := Kth(n + arcSize);
      KthInRange(n + arcSize);
      new;
      assert population[..] == initial;
    }

    /** After the first generation, `POPSIZE = POPSIZE + ARCSIZE`: scans cover the whole array. */
    method Widen()
      requires Valid() && popsize + arcsize <= allPop
      modifies this
      ensures Valid() && popsize == old(popsize) + arcsize
    {
      popsize := popsize + arcsize;
    }

    /**
     * `changePos(a, b)`: with `a != b` the two slots exchange their whole
     * records, the label travelling with its data; with `a == b` nothing
     * happens.
     */
    method ChangePos(a: nat, b: nat)
      requires Valid() && a < allPop && b < allPop
      modifies population
      ensures Valid()
      ensures population[..] == Swap(old(population[..]), a, b)
    {
      ghost var was := population[..];
      SwapEffect(was, a, b);
      if a == b {
        return;
      }
      var pointer := population[a];
      var index := population[b].index;
      population[a] := population[b];
      population[a] := population[a].(index := index);
      population[b] := pointer;
      population[b] := population[b].(index := pointer.index);
      assert population[..] == Swap(was, a, b);
      SameIndividualsFit(was, population[..], signs);
    }

    /**
     * `removal(begin, idx)`: bubbles slot `idx` down to `begin` by exchanges
     * of neighbours; nothing happens when `idx <= begin`.
     */
    method Removal(begin: nat, idx: nat)
      requires Valid() && idx < allPop
      modifies population
      ensures Valid()
      ensures population[..] ==
        if begin <= idx then Rotated(old(population[..]), begin, idx) else old(population[..])
    {
      ghost var was := population[..];
      RotatedNone(was, idx);
      var i: nat := idx;
      while i > begin
        invariant if begin <= idx then begin <= i <= idx else i == idx
        invariant Valid()
        invariant population[..] == Rotated(was, i, idx)
      {
        RotatedStep(was, i, idx);
        ChangePos(i, i - 1);
        i := i - 1;
      }
    }

    /**
     * The loop of `environmentSelection`: scanning the prefix from its last
     * slot down, each individual with fitness below 1 is sent to the slot
     * before the archive built so far.
     */
    method CompactSelected() returns (inArchive: nat)
      requires Valid()
      modifies population
      ensures Valid()
      ensures inArchive <= popsize
      ensures population[..] == CompactionTo(old(population[..]), 0, popsize)
      ensures population[allPop - inArchive..] == Filtered(old(population[..popsize]), Selected)
      ensures forall k :: 0 <= k < allPop - inArchive && (k >= popsize || !Selected(old(population[k]))) ==>
        population[k] == old(population[k])
      ensures multiset(population[..]) == old(multiset(population[..]))
    {
      ghost var s := population[..];
      var count: int := allPop - 1;
      inArchive := 0;
      assert s[popsize..popsize] == [];
      ghost var p := s;
      for i := popsize downto 0
        invariant Valid() && population[..] == p && p == CompactionTo(s, i, popsize)
        invariant count == allPop - 1 - inArchive && inArchive == |Filtered(s[i..popsize], Selected)|
      {
        CompactionNext(s, i, popsize, p, inArchive, count);
        if population[i].fitness < 1.0 {
          ChangePos(count, i);
          p := Swap(p, count, i);
          count := count - 1;
          inArchive := inArchive + 1;
        }
      }
      assert s[..popsize] == s[0..popsize];
      CompactionResult(s, popsize);
    }
  
    /**
     * Case A of `truncation2`: the archive holds `arc0 < ARCSIZE`
     * individuals. The prefix outside the archive is sorted by ascending
     * fitness and scanned from its first slot; each individual above 1 is
     * sent to the slot before the archive, until the archive is full.
     */
    method FillArchive(arc0: nat) returns (arc: nat, ghost sorted: seq<Individual>)
      requires Valid() && arc0 < arcsize
      modifies population
      ensures Valid()
      ensures CaseAResult(old(population[..]), sorted, allPop - arcsize, arc0, population[..], arc)
    {
      var limit := allPop - arcsize;
      ghost var was := population[..];
      FitnessBeforeIsStrictWeakOrder();
      SortRange(population, 0, limit, FitnessBefore);
      sorted := population[..];
      SortsRangeEffect(was, sorted, 0, limit, FitnessBefore);
      SameIndividualsFit(was, sorted, signs);
      arc := FillScan(sorted, arc0);
    }

    /**
     * The loop of case A over the sorted array `t`: each slot of the prefix
     * whose individual is above 1 is exchanged with the slot before the
     * archive, which grows by one; the scan returns as soon as the archive
     * is full.
     */
    method FillScan(ghost t: seq<Individual>, arc0: nat) returns (arc: nat)
      requires Valid() && arc0 < arcsize && population[..] == t
      modifies population
      ensures Valid()
      ensures Filling(population[..], t, allPop - arcsize, allPop - arcsize, arc0, arc)
      ensures multiset(population[..]) == multiset(t)
    {
      var limit := allPop - arcsize;
      arc := arc0;
      FillStart(t, limit, arc0);
      var i := 0;
      while i < limit && arc < arcsize
        invariant Valid() && i <= limit && arc <= arcsize
        invariant Filling(population[..], t, i, limit, arc0, arc)
        invariant multiset(population[..]) == multiset(t)
      {
        i, arc := ScanSlot(t, i, limit, arc0, arc);
      }
      FillDone(population[..], t, i, limit, arc0, arc);
    }

    /**
     * One slot of the scan of case A: slot `i`, when above 1, is exchanged
     * with the slot before the archive, which grows by one; otherwise the
     * scan passes it over.
     */
    method ScanSlot(ghost t: seq<Individual>, i: nat, limit: nat, ghost arc0: nat, arc: nat) returns (i': nat, arc': nat)
      requires Valid() && limit == allPop - arcsize && i < limit && arc < arcsize
      requires Filling(population[..], t, i, limit, arc0, arc)
      requires multiset(population[..]) == multiset(t)
      modifies population
      ensures Valid()
      ensures i' == i + 1 && arc' == if AboveOne(t[i]) then arc + 1 else arc
      ensures Filling(population[..], t, i', limit, arc0, arc')
      ensures multiset(population[..]) == multiset(t)
    {
      FillSlot(population[..], t, i, limit, arc0, arc);
      if population[i].fitness > 1.0 {
        ghost var p := population[..];
        ChangePos(allPop - arc - 1, i);
        FillTake(p, population[..], t, i, limit, arc0, arc);
        i', arc' := i + 1, arc + 1;
      } else {
        FillSkip(population[..], t, i + 1, limit, arc0, arc);
        i', arc' := i + 1, arc;
      }
    }

    /**
     * The search of one round of case B: the pair loops over the archive
     * `[begin, all_pop)`, each unordered pair once, keeping the first pair
     * whose distance is strictly below the best so far.
     */
    method ClosestPair(begin: nat) returns (closest: nat, minDist: real)
      requires Valid() && begin < allPop
      ensures ClosestFirst(population[..], signs, begin, closest, minDist, DblMax)
    {
      ghost var p := population[..];
      ghost var partner: nat := begin;
      closest := begin;
      minDist := DblMax;
      for i := begin to allPop
        invariant PairsScanned(p, signs, begin, i, i, closest, partner, minDist, DblMax)
      {
        for j := i to allPop
          invariant PairsScanned(p, signs, begin, i, j, closest, partner, minDist, DblMax)
        {
          if i == j {
            ScanSelf(p, signs, begin, i, closest, partner, minDist, DblMax);
            continue;
          }
          var dist := Distance(population[i].obj, population[j].obj);
          assert dist == Distance(p[i].obj, p[j].obj);
          if dist < minDist {
            ScanCloser(p, signs, begin, i, j, closest, partner, minDist, dist, DblMax);
            minDist := dist;
            closest := i;
            partner := j;
          } else {
            ScanFarther(p, signs, begin, i, j, closest, partner, minDist, dist, DblMax);
          }
        }
        ScanRow(p, signs, begin, i, closest, partner, minDist, DblMax);
      }
      ScanDone(p, signs, begin, closest, partner, minDist, DblMax);
    }

    /**
     * Case B of `truncation2`: while the archive `[beginArch, all_pop)` holds
     * more than `ARCSIZE` individuals, the first member of the closest pair
     * is rotated down to `beginArch`, which then moves up past it.
     */
    method ShrinkArchive(arc0: nat) returns (ghost trace: seq<seq<Individual>>)
      requires Valid() && arcsize <= arc0 <= allPop
      modifies population
      ensures Valid()
      ensures Shrunk(trace, old(population[..]), population[..], signs, allPop - arc0, arc0 - arcsize, DblMax)
    {
      var arcSize := arc0;
      var beginArch := allPop - arc0;
      trace := [population[..]];
      while arcSize > arcsize
        invariant Valid() && arcsize <= arcSize <= arc0 && beginArch == allPop - arcSize
        invariant Shrunk(trace, old(population[..]), population[..], signs, allPop - arc0, arc0 - arcSize, DblMax)
      {
        var closest, minDist := ClosestPair(beginArch);
        ghost var before := population[..];
        Removal(beginArch, closest);
        ShrunkStep(trace, old(population[..]), before, population[..], signs,
                   allPop - arc0, arc0 - arcSize, beginArch, closest, minDist, DblMax);
        trace := trace + [population[..]];
        beginArch := beginArch + 1;
        arcSize := arcSize - 1;
      }
    }

    /**
     * `truncation2(arc_size)`: fills the archive from the sorted prefix when
     * it holds fewer than `ARCSIZE` individuals (case A), and shrinks it by
     * nearest-pair removal otherwise (case B).
     */
    method Truncation2(arc0: nat) returns (ghost filled: nat, ghost sorted: seq<Individual>,
                                           ghost trace: seq<seq<Individual>>)
      requires Valid() && arc0 <= allPop
      modifies population
      ensures Valid()
      ensures multiset(population[..]) == multiset(old(population[..]))
      ensures arc0 < arcsize ==> CaseAResult(old(population[..]), sorted, allPop - arcsize, arc0, population[..], filled)
      ensures arcsize <= arc0 ==>
        Shrunk(trace, old(population[..]), population[..], signs, allPop - arc0, arc0 - arcsize, DblMax)
    {
      if arc0 < arcsize {
        filled, sorted := FillArchive(arc0);
        trace := [population[..]];
      } else {
        filled, sorted := arcsize, population[..];
        ghost var was := population[..];
        trace := ShrinkArchive(arc0);
        ShrunkKeep(trace, was, population[..], signs, allPop - arc0, arc0 - arcsize, DblMax);
      }
    }

    /**
     * `environmentSelection`: the individuals of the prefix with fitness
     * below 1 move to the archive (`mid` is the array after that step);
     * unless they are exactly `ARCSIZE`, `truncation2` then fills or
     * shrinks the archive.
     */
    method EnvironmentSelection() returns (ghost inArchive: nat, ghost mid: seq<Individual>, ghost filled: nat,
                                           ghost sorted: seq<Individual>, ghost trace: seq<seq<Individual>>)
      requires Valid()
      modifies population
      ensures Valid() && inArchive <= popsize && |mid| == allPop
      ensures mid == CompactionTo(old(population[..]), 0, popsize)
      ensures mid[allPop - inArchive..] == Filtered(old(population[..popsize]), Selected)
      ensures forall k :: 0 <= k < allPop - inArchive && (k >= popsize || !Selected(old(population[k]))) ==>
        mid[k] == old(population[k])
      ensures multiset(mid) == multiset(old(population[..])) == multiset(population[..])
      ensures inArchive == arcsize ==> population[..] == mid
      ensures inArchive < arcsize ==> CaseAResult(mid, sorted, allPop - arcsize, inArchive, population[..], filled)
      ensures arcsize < inArchive ==>
        Shrunk(trace, mid, population[..], signs, allPop - inArchive, inArchive - arcsize, DblMax)
    {
      var count := CompactSelected();
      inArchive := count;
      mid := population[..];
      filled, sorted := count, mid;
      trace := [mid];
      if count == arcsize {
        return;
      }
      filled, sorted, trace := Truncation2(count);
    }

    /**
     * `densityCalc`: relabels each slot of the prefix `[0, POPSIZE)` by its
     * position, builds the `POPSIZE`-wide distance matrix over the prefix and
     * sorts each of its rows by ascending distance.
     */
    method DensityCalc()
      requires Valid()
      modifies population, distance
      ensures Valid()
      ensures forall k :: 0 <= k < allPop ==>
        population[k] == if k < popsize then old(population[k]).(index := k) else old(population[k])
      ensures RowsSorted(Matrix(old(population[..]), signs, popsize, old(distance[..])), distance[..], popsize, popsize, IndLess)
    {
      ghost var p := population[..];
      ghost var d := distance[..];
      SquareFits(popsize, allPop);
      ClearMatrix();
      ghost var cleared := distance[..];
      FillPairs(p, cleared);
      assert distance[..] == Matrix(p, signs, popsize, d);
      SortMatrixRows(distance[..]);
    }

    /** The first loop of `densityCalc`: slots relabelled, the `POPSIZE * POPSIZE` cells in use cleared. */
    method ClearMatrix()
      requires Valid()
      modifies population, distance
      ensures Valid()
      ensures forall k :: 0 <= k < allPop ==>
        population[k] == if k < popsize then old(population[k]).(index := k) else old(population[k])
      ensures distance[..] == Cleared(old(distance[..]), Mul(popsize, popsize))
    {
      var n := popsize;
      ghost var p := population[..];
      ghost var d := distance[..];
      SquareFits(n, allPop);
      for i := 0 to n
        invariant forall k :: 0 <= k < allPop ==> population[k] == if k < i then p[k].(index := k) else p[k]
        invariant distance[..] == Cleared(d, Mul(i, n))
      {
        population[i] := population[i].(index := i);
        MulProduct(i, n);
        MulMono(i, n, n);
        for j := 0 to n
          invariant forall k :: 0 <= k < allPop ==> population[k] == if k <= i then p[k].(index := k) else p[k]
          invariant distance[..] == Cleared(d, Flat(i, j, n))
        {
          distance[i * n + j] := Ind(0, 0.0);
          assert distance[..] == Cleared(d, Flat(i, j + 1, n));
        }
      }
      forall k | 0 <= k < allPop
        ensures |population[k].obj| == |signs|
      {
        assert population[k].obj == p[k].obj;
      }
    }

    /**
     * The pair loop of `densityCalc`: for each pair `i < j` of the prefix,
     * cell `(i, j)` gets `j` and their distance, and cell `(j, i)` gets `i`
     * and the same distance.
     */
    method FillPairs(ghost p: seq<Individual>, ghost m: seq<Ind>)
      requires Valid() && |p| == allPop && IndividualsFit(p, signs)
      requires forall k :: 0 <= k < allPop ==> population[k].obj == p[k].obj
      requires distance[..] == m && Mul(popsize, popsize) <= |m|
      modifies distance
      ensures distance[..] == AllPairs(m, p, signs, popsize, popsize)
    {
      var n := popsize;
      for i := 0 to n
        invariant distance[..] == AllPairs(m, p, signs, n, i)
      {
        for j := i to n
          invariant distance[..] == RowPairs(AllPairs(m, p, signs, n, i), p, signs, n, i, j)
        {
          if i == j {
            continue;
          }
          StorePair(p, i, j);
          RowPairsStep(AllPairs(m, p, signs, n, i), p, signs, n, i, j);
        }
        AllPairsStep(m, p, signs, n, i);
      }
    }

    /** One pass of the pair loop at `(i, j)`, `i < j`: cell `(i, j)` and its mirror `(j, i)`. */
    method StorePair(ghost p: seq<Individual>, i: nat, j: nat)
      requires Valid() && |p| == allPop && IndividualsFit(p, signs)
      requires forall k :: 0 <= k < allPop ==> population[k].obj == p[k].obj
      requires i < j < popsize && Mul(popsize, popsize) <= distance.Length
      modifies distance
      ensures distance[..] == WritePair(old(distance[..]), p, signs, popsize, i, j)
    {
      var n := popsize;
      MulProduct(i, n);
      MulProduct(j, n);
      FlatInRange(i, j, n);
      FlatInRange(j, i, n);
      distance[i * n + j] := Ind(j, Distance(population[i].obj, population[j].obj));
      distance[j * n + i] := Ind(i, distance[i * n + j].eDist);
    }

    /** The last loop of `densityCalc`: each row `[POPSIZE * i, POPSIZE * (i + 1))` sorted by `compare`. */
    method SortMatrixRows(ghost m: seq<Ind>)
      requires distance[..] == m && Mul(popsize, popsize) <= |m|
      modifies distance
      ensures RowsSorted(m, distance[..], popsize, popsize, IndLess)
    {
      var n := popsize;
      IndLessIsStrictWeakOrder();
      for i := 0 to n
        invariant Mul(i, n) <= Mul(n, n)
        invariant RowsSorted(m, distance[..], n, i, IndLess)
      {
        MulProduct(i, n);
        MulMono(i, n, n);
        ghost var t := distance[..];
        SortRange(distance, n * i, n * (i + 1), IndLess);
        RowsSortedStep(m, t, distance[..], n, i, IndLess);
      }
    }

    /**
     * `getDensity(i)`: `1 / (d + 2)` of the distance at column `kth` of row
     * `i`, rows being `POPSIZE` wide.
     */
    method GetDensity(i: nat) returns (density: real)
      requires i < popsize && i * popsize + kth < distance.Length
      ensures 0.0 < density <= 0.5
      ensures density == Density(distance[i * popsize + kth].eDist)
    {
      density := Density(distance[i * popsize + kth].eDist);
    }

    /**
     * `fitnessAssign`: the strengths of the prefix, then every raw fitness
     * as the summed strengths of its dominators, then the density added.
     */
    method FitnessAssign()
      requires Valid()
      modifies population
      ensures Valid()
      ensures forall k :: 0 <= k < allPop ==>
        population[k] == Fitted(old(population[..]), signs, popsize, distance[..], kth, k)
    {
      ghost var p := population[..];
      var strength := StrengthLoop();
      RawLoop(p, strength);
      DensityLoop(p);
      FittedFit(p, population[..], signs, popsize, distance[..], kth);
    }

    /** The first loop: fitness reset to 0 and `strenght[i]` counted over the prefix. */
    method StrengthLoop() returns (strength: array<int>)
      requires Valid()
      modifies population
      ensures fresh(strength) && strength.Length == allPop
      ensures forall k :: 0 <= k < allPop ==> population[k] == Partial(old(population[..]), signs, popsize, 0, 0, k)
      ensures forall k :: 0 <= k < allPop ==>
        strength[k] == if k < popsize then Strength(old(population[..]), signs, popsize, k) else 0
    {
      ghost var p := population[..];
      strength := new int[allPop](_ => 0);
      for i := 0 to popsize
        invariant forall k :: 0 <= k < allPop ==> population[k] == if k < i then p[k].(fitness := 0.0) else p[k]
        invariant forall k :: 0 <= k < allPop ==> strength[k] == if k < i then Strength(p, signs, popsize, k) else 0
      {
        population[i] := population[i].(fitness := 0.0);
        for j := 0 to popsize
          invariant forall k :: 0 <= k < allPop ==> population[k] == if k <= i then p[k].(fitness := 0.0) else p[k]
          invariant forall k :: 0 <= k < allPop && k != i ==> strength[k] == if k < i then Strength(p, signs, popsize, k) else 0
          invariant strength[i] == DominatedCount(p, signs, i, j)
        {
          if i == j {
            continue;
          }
          if Dominate(population[i].obj, population[j].obj, signs) == Dominated {
            strength[i] := strength[i] + 1;
          }
        }
      }
    }

    /** The second loop: each dominator's strength added to the slots it dominates. */
    method RawLoop(ghost p: seq<Individual>, strength: array<int>)
      requires |p| == allPop == population.Length && popsize <= allPop && IndividualsFit(p, signs)
      requires strength.Length == allPop
      requires forall k :: 0 <= k < allPop ==> population[k] == Partial(p, signs, popsize, 0, 0, k)
      requires forall k :: 0 <= k < popsize ==> strength[k] == Strength(p, signs, popsize, k)
      modifies population
      ensures forall k :: 0 <= k < allPop ==> population[k] == Partial(p, signs, popsize, popsize, 0, k)
    {
      for i := 0 to popsize
        invariant forall k :: 0 <= k < allPop ==> population[k] == Partial(p, signs, popsize, i, 0, k)
      {
        for j := 0 to popsize
          invariant forall k :: 0 <= k < allPop ==> population[k] == Partial(p, signs, popsize, i, j, k)
        {
          if i == j {
            continue;
          }
          if Dominate(population[i].obj, population[j].obj, signs) == Dominated {
            population[j] := population[j].(fitness := population[j].fitness + strength[i] as real);
          }
        }
      }
    }

    /** The third loop: each scanned slot gains its density. */
    method DensityLoop(ghost p: seq<Individual>)
      requires |p| == allPop == population.Length && popsize <= allPop && IndividualsFit(p, signs)
      requires kth < allPop && distance.Length == allPop * allPop
      requires forall k :: 0 <= k < allPop ==> population[k] == Partial(p, signs, popsize, popsize, 0, k)
      modifies population
      ensures forall k :: 0 <= k < allPop ==> population[k] == Fitted(p, signs, popsize, distance[..], kth, k)
    {
      for i := 0 to popsize
        invariant forall k :: 0 <= k < allPop ==>
          population[k] == if k < i then Fitted(p, signs, popsize, distance[..], kth, k)
                           else Partial(p, signs, popsize, popsize, 0, k)
      {
        FlatBound(i, popsize, kth, allPop);
        var density := GetDensity(i);
        population[i] := population[i].(fitness := population[i].fitness + density);
      }
    }
  }
}
