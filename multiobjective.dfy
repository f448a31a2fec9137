/**
 * The dominance oracle shared by both engines: weak, sign-aware Pareto
 * dominance, the distance between two objective vectors, and the
 * count-the-dominators selection of non-dominated points.
 *
 * An objective vector is a `seq<real>`; the sign configuration is an explicit
 * `seq<int>` (+1 minimise, -1 maximise) of the same length, in place of the
 * process-wide configuration of the original.
 */
module MultiObjective {

  type Vector = seq<real>

  /** The two results of `dominate`. */
  const Dominated: int := 1
  const NonDominated: int := 0

  /** `a` and `b` have the dimension the configuration `s` fixes. */
  predicate SameDimension(a: Vector, b: Vector, s: seq<int>) {
    |a| == |s| && |b| == |s|
  }

  /** Axis `i`, scaled by its sign: `a` is strictly worse than `b` there. */
  predicate WorseAt(a: Vector, b: Vector, s: seq<int>, i: nat)
    requires SameDimension(a, b, s) && i < |s|
  {
    a[i] * (s[i] as real) > b[i] * (s[i] as real)
  }

  /** Some axis has `a` strictly worse than `b`: the reference definition. */
  ghost predicate WorseSomewhere(a: Vector, b: Vector, s: seq<int>)
    requires SameDimension(a, b, s)
  {
    exists i :: 0 <= i < |s| && WorseAt(a, b, s, i)
  }

  /** The loop of `dominate` from axis `i` on: it returns at the first worse axis. */
  function DominateFrom(a: Vector, b: Vector, s: seq<int>, i: nat): (r: int)
    requires SameDimension(a, b, s) && i <= |s|
    decreases |s| - i
  {
    if i == |s| then Dominated
    else if WorseAt(a, b, s, i) then NonDominated
    else DominateFrom(a, b, s, i + 1)
  }

  /** `dominate(a, b)`: 1 when `a` (weakly) dominates `b`, 0 otherwise. */
  function Dominate(a: Vector, b: Vector, s: seq<int>): (r: int)
    requires SameDimension(a, b, s)
  {
    DominateFrom(a, b, s, 0)
  }

  /** `a` dominates `b` when `Dominate` answers 1. */
  predicate Dominates(a: Vector, b: Vector, s: seq<int>)
    requires SameDimension(a, b, s)
  {
    Dominate(a, b, s) == Dominated
  }

  /**
   * The loop exactly as written, with the counter `equal` of axes that a
   * caller-supplied tolerance test `close` finds equal. The counter is
   * never read: the result is the same as that of the loop without it.
   */
  function DominateTallied(a: Vector, b: Vector, s: seq<int>, close: (real, real) -> bool,
                           i: nat, equal: nat): (r: int)
    requires SameDimension(a, b, s) && i <= |s|
    ensures r == DominateFrom(a, b, s, i)
    decreases |s| - i
  {
    if i == |s| then Dominated
    else
      var equal' := if close(a[i], b[i]) then equal + 1 else equal;
      if WorseAt(a, b, s, i) then NonDominated
      else DominateTallied(a, b, s, close, i + 1, equal')
  }

  lemma {:induction false} DominateFromSpec(a: Vector, b: Vector, s: seq<int>, i: nat)
    requires SameDimension(a, b, s) && i <= |s|
    ensures DominateFrom(a, b, s, i) == NonDominated <==>
            exists k :: i <= k < |s| && WorseAt(a, b, s, k)
    ensures DominateFrom(a, b, s, i) == Dominated || DominateFrom(a, b, s, i) == NonDominated
    decreases |s| - i
  {
    if i < |s| && !WorseAt(a, b, s, i) {
      DominateFromSpec(a, b, s, i + 1);
      if exists k :: i <= k < |s| && WorseAt(a, b, s, k) {
        var k :| i <= k < |s| && WorseAt(a, b, s, k);
        assert i + 1 <= k;
      }
    }
  }

  /** `dominate` returns 0 exactly when some axis is worse, and 1 otherwise. */
  lemma DominateSpec(a: Vector, b: Vector, s: seq<int>)
    requires SameDimension(a, b, s)
    ensures Dominate(a, b, s) == NonDominated <==> WorseSomewhere(a, b, s)
    ensures Dominate(a, b, s) == Dominated <==> !WorseSomewhere(a, b, s)
  {
    DominateFromSpec(a, b, s, 0);
  }

  /** Dominance in terms of the reference definition. */
  lemma DominatesIff(a: Vector, b: Vector, s: seq<int>)
    requires SameDimension(a, b, s)
    ensures Dominates(a, b, s) <==> forall i :: 0 <= i < |s| ==> !WorseAt(a, b, s, i)
  {
    DominateSpec(a, b, s);
  }

  /** Every vector dominates itself (weak dominance). */
  lemma DominatesReflexive(a: Vector, s: seq<int>)
    requires |a| == |s|
    ensures Dominates(a, a, s)
  {
    DominatesIff(a, a, s);
  }

  /** Dominance is transitive. */
  lemma DominatesTransitive(a: Vector, b: Vector, c: Vector, s: seq<int>)
    requires |a| == |s| && |b| == |s| && |c| == |s|
    requires Dominates(a, b, s) && Dominates(b, c, s)
    ensures Dominates(a, c, s)
  {
    DominatesIff(a, b, s);
    DominatesIff(b, c, s);
    DominatesIff(a, c, s);
    forall i | 0 <= i < |s|
      ensures !WorseAt(a, c, s, i)
    {
      assert !WorseAt(a, b, s, i) && !WorseAt(b, c, s, i);
    }
  }

  /** Mutual dominance holds iff the sign-scaled vectors agree on every axis. */
  lemma MutualDominance(a: Vector, b: Vector, s: seq<int>)
    requires SameDimension(a, b, s)
    ensures Dominates(a, b, s) && Dominates(b, a, s) <==>
            forall i :: 0 <= i < |s| ==> a[i] * (s[i] as real) == b[i] * (s[i] as real)
  {
    DominatesIff(a, b, s);
    DominatesIff(b, a, s);
    forall i | 0 <= i < |s|
      ensures !WorseAt(a, b, s, i) && !WorseAt(b, a, s, i) <==>
              a[i] * (s[i] as real) == b[i] * (s[i] as real)
    {
    }
  }

  /** Every sign is +1 or -1, as the configuration demands. */
  predicate UnitSigns(s: seq<int>) {
    forall i :: 0 <= i < |s| ==> s[i] == 1 || s[i] == -1
  }

  /** With signs in {+1, -1}, mutual dominance is equality. */
  lemma MutualDominanceIsEquality(a: Vector, b: Vector, s: seq<int>)
    requires SameDimension(a, b, s) && UnitSigns(s)
    ensures Dominates(a, b, s) && Dominates(b, a, s) <==> a == b
  {
    MutualDominance(a, b, s);
    if Dominates(a, b, s) && Dominates(b, a, s) {
      forall i | 0 <= i < |s|
        ensures a[i] == b[i]
      {
        assert a[i] * (s[i] as real) == b[i] * (s[i] as real);
      }
    }
  }

  /** A sign of +1 minimises its axis, a sign of -1 maximises it. */
  lemma DominatesBySigns(a: Vector, b: Vector, s: seq<int>)
    requires SameDimension(a, b, s) && UnitSigns(s)
    ensures Dominates(a, b, s) <==>
            forall i :: 0 <= i < |s| ==> if s[i] == 1 then a[i] <= b[i] else a[i] >= b[i]
  {
    DominatesIff(a, b, s);
    forall i | 0 <= i < |s|
      ensures WorseAt(a, b, s, i) <==> if s[i] == 1 then a[i] > b[i] else a[i] < b[i]
    {
      if s[i] == 1 {
        assert a[i] * (s[i] as real) == a[i] && b[i] * (s[i] as real) == b[i];
      } else {
        assert a[i] * (s[i] as real) == -a[i] && b[i] * (s[i] as real) == -b[i];
      }
    }
  }

  /** With every sign +1, dominance is the componentwise `<=`. */
  lemma DominatesMinimising(a: Vector, b: Vector, s: seq<int>)
    requires SameDimension(a, b, s)
    requires forall i :: 0 <= i < |s| ==> s[i] == 1
    ensures Dominates(a, b, s) <==> forall i :: 0 <= i < |s| ==> a[i] <= b[i]
  {
    DominatesBySigns(a, b, s);
  }

  /** A non-negative real. */
  type NonNegReal = r: real | 0.0 <= r

  /**
   * The sum of the squared differences that `distanceCalc` accumulates over
   * axes `i..`; its square root (left out) is the Euclidean distance, and
   * the square root is monotone, so comparing these sums compares distances.
   */
  function SquaredSum(a: Vector, b: Vector, i: nat): (r: real)
    requires |a| == |b| && i <= |a|
    ensures r >= 0.0
    decreases |a| - i
  {
    if i == |a| then 0.0
    else (a[i] - b[i]) * (a[i] - b[i]) + SquaredSum(a, b, i + 1)
  }

  /** The distance between two objective vectors (raw values, no signs). */
  function Distance(a: Vector, b: Vector): NonNegReal
    requires |a| == |b|
  {
    SquaredSum(a, b, 0)
  }

  lemma {:induction false} SquaredSumSymmetric(a: Vector, b: Vector, i: nat)
    requires |a| == |b| && i <= |a|
    ensures SquaredSum(a, b, i) == SquaredSum(b, a, i)
    decreases |a| - i
  {
    if i < |a| {
      SquaredSumSymmetric(a, b, i + 1);
      assert (a[i] - b[i]) * (a[i] - b[i]) == (b[i] - a[i]) * (b[i] - a[i]);
    }
  }

  /** Vectors that agree from axis `i` on add nothing from `i` on. */
  lemma {:induction false} SquaredSumZero(a: Vector, b: Vector, i: nat)
    requires |a| == |b| && i <= |a|
    requires a[i..] == b[i..]
    ensures SquaredSum(a, b, i) == 0.0
    decreases |a| - i
  {
    if i < |a| {
      assert a[i] == a[i..][0] == b[i..][0] == b[i];
      assert a[i + 1..] == a[i..][1..] == b[i..][1..] == b[i + 1..];
      SquaredSumZero(a, b, i + 1);
    }
  }

  /** The distance is symmetric. */
  lemma DistanceSymmetric(a: Vector, b: Vector)
    requires |a| == |b|
    ensures Distance(a, b) == Distance(b, a)
  {
    SquaredSumSymmetric(a, b, 0);
  }

  /** Equal vectors are at distance zero. */
  lemma DistanceZero(a: Vector, b: Vector)
    requires |a| == |b| && a == b
    ensures Distance(a, b) == 0.0
  {
    SquaredSumZero(a, b, 0);
  }

  /** Every point has the dimension of the configuration. */
  predicate WellFormed(points: seq<Vector>, s: seq<int>) {
    forall k :: 0 <= k < |points| ==> |points[k]| == |s|
  }

  /** The number of `j < n`, `j != i`, whose point dominates point `i`. */
  function DominatorCount(points: seq<Vector>, s: seq<int>, i: nat, n: nat): (c: nat)
    requires WellFormed(points, s) && i < |points| && n <= |points|
    ensures c <= n
  {
    if n == 0 then 0
    else DominatorCount(points, s, i, n - 1) +
         (if n - 1 != i && Dominates(points[n - 1], points[i], s) then 1 else 0)
  }

  /** No other point dominates point `i`. */
  ghost predicate Undominated(points: seq<Vector>, s: seq<int>, i: nat)
    requires WellFormed(points, s) && i < |points|
  {
    forall j :: 0 <= j < |points| && j != i ==> !Dominates(points[j], points[i], s)
  }

  lemma {:induction false} DominatorCountZero(points: seq<Vector>, s: seq<int>, i: nat, n: nat)
    requires WellFormed(points, s) && i < |points| && n <= |points|
    ensures DominatorCount(points, s, i, n) == 0 <==>
            forall j :: 0 <= j < n && j != i ==> !Dominates(points[j], points[i], s)
  {
    if n > 0 {
      DominatorCountZero(points, s, i, n - 1);
    }
  }

  /** Two equal points dominate each other, so the filter rejects both. */
  lemma EqualPointsRejected(points: seq<Vector>, s: seq<int>, i: nat, j: nat)
    requires WellFormed(points, s) && i < |points| && j < |points|
    requires i != j && points[i] == points[j]
    ensures !Undominated(points, s, i) && !Undominated(points, s, j)
  {
    DominatesReflexive(points[i], s);
  }

  /**
   * The selection loop of `filter`: point `i` is kept (printed, in the
   * original) when its count of dominators among the other points is 0.
   * The kept indices are returned in increasing order.
   */
  method Filter(points: seq<Vector>, s: seq<int>) returns (kept: seq<nat>)
    requires WellFormed(points, s)
    ensures forall k :: 0 <= k < |kept| ==> kept[k] < |points|
    ensures forall k, l :: 0 <= k < l < |kept| ==> kept[k] < kept[l]
    ensures forall i :: 0 <= i < |points| ==> (i in kept <==> Undominated(points, s, i))
  {
    kept := [];
    var i := 0;
    while i < |points|
      invariant 0 <= i <= |points|
      invariant forall k :: 0 <= k < |kept| ==> kept[k] < i
      invariant forall k, l :: 0 <= k < l < |kept| ==> kept[k] < kept[l]
      invariant forall m :: 0 <= m < i ==> (m in kept <==> Undominated(points, s, m))
    {
      var count := 0;
      var j := 0;
      while j < |points|
        invariant 0 <= j <= |points|
        invariant count == DominatorCount(points, s, i, j)
      {
        if j != i && Dominates(points[j], points[i], s) {
          count := count + 1;
        }
        j := j + 1;
      }
      DominatorCountZero(points, s, i, |points|);
      if count == 0 {
        kept := kept + [i];
      }
      i := i + 1;
    }
  }
}
