/**
 * The ranking and selection kernel of the NSGA-II selector (after Deb et al.
 * 2002): the pairwise dominated-by counters, the sort by counter, the
 * partition of the sorted combined population into fronts, the walk that
 * finds the boundary front, and the crowded-comparison sort of that front.
 */
module NsgaEngine {
  import opened MultiObjective
  import opened Sorting

  /**
   * One individual of the combined population: its identity label, its
   * objective vector, its dominated-by counter (`fitness`, always a whole
   * number) and its crowding distance.
   */
  datatype Member = Member(index: int, obj: Vector, fitness: int, crowding: real)

  /** A front: its label, its member count, and its first and last position. */
  datatype Front = Front(index: int, counter: int, begin: int, end: int)

  /** The order of `compareByFitness`: ascending counter. */
  predicate FitnessLess(x: Member, y: Member) {
    x.fitness < y.fitness
  }

  /** `compareByCrownding`: lower counter first, then larger crowding distance first. */
  predicate CrowdedLess(x: Member, y: Member) {
    x.fitness < y.fitness || (x.fitness == y.fitness && x.crowding > y.crowding)
  }

  lemma FitnessLessIsStrictWeakOrder()
    ensures StrictWeakOrder(FitnessLess)
  {
  }

  /** The crowded-comparison operator is a strict weak order, so sorting by it is meaningful. */
  lemma CrowdedLessIsStrictWeakOrder()
    ensures StrictWeakOrder(CrowdedLess)
  {
  }

  function Objectives(pop: seq<Member>): (objs: seq<Vector>)
    ensures |objs| == |pop|
    ensures forall k :: 0 <= k < |pop| ==> objs[k] == pop[k].obj
  {
    seq(|pop|, k requires 0 <= k < |pop| => pop[k].obj)
  }

  function Counters(pop: seq<Member>): (c: seq<int>)
    ensures |c| == |pop|
    ensures forall k :: 0 <= k < |pop| ==> c[k] == pop[k].fitness
  {
    seq(|pop|, k requires 0 <= k < |pop| => pop[k].fitness)
  }

  // ---------------------------------------------------------------------
  // What the pair scan of fast_nom_dominated_sort counts.
  // ---------------------------------------------------------------------

  /**
   * When the scan compares `y` with `x`, `x`'s counter is incremented: for
   * `y > x` when `y` dominates `x`, for `y < x` when `y` dominates `x` and
   * `x` does not dominate `y` (the first test of the pair wins).
   */
  predicate Charges(objs: seq<Vector>, s: seq<int>, y: nat, x: nat)
    requires WellFormed(objs, s) && y < |objs| && x < |objs|
  {
    y != x && Dominates(objs[y], objs[x], s) && (y > x || !Dominates(objs[x], objs[y], s))
  }

  /** The number of `y < n` that charge `x`. */
  function ChargeCount(objs: seq<Vector>, s: seq<int>, x: nat, n: nat): nat
    requires WellFormed(objs, s) && x < |objs| && n <= |objs|
  {
    if n == 0 then 0
    else ChargeCount(objs, s, x, n - 1) + (if Charges(objs, s, n - 1, x) then 1 else 0)
  }

  /** A counter never exceeds the number of other individuals: at most 2N-1. */
  lemma {:induction false} ChargeCountBound(objs: seq<Vector>, s: seq<int>, x: nat, n: nat)
    requires WellFormed(objs, s) && x < n <= |objs|
    ensures ChargeCount(objs, s, x, n) <= n - 1
  {
    if n - 1 > x {
      ChargeCountBound(objs, s, x, n - 1);
    } else {
      ChargeCountAtMost(objs, s, x, n - 1);
    }
  }

  lemma {:induction false} ChargeCountAtMost(objs: seq<Vector>, s: seq<int>, x: nat, n: nat)
    requires WellFormed(objs, s) && x < |objs| && n <= |objs|
    ensures ChargeCount(objs, s, x, n) <= n
  {
    if n > 0 {
      ChargeCountAtMost(objs, s, x, n - 1);
    }
  }

  lemma {:induction false} ChargeCountZero(objs: seq<Vector>, s: seq<int>, x: nat, n: nat)
    requires WellFormed(objs, s) && x < |objs| && n <= |objs|
    ensures ChargeCount(objs, s, x, n) == 0 <==> forall y :: 0 <= y < n ==> !Charges(objs, s, y, x)
  {
    if n > 0 {
      ChargeCountZero(objs, s, x, n - 1);
    }
  }

  /**
   * A final counter is 0 exactly when every other individual that dominates
   * `x` has a lower position and is dominated by `x` in turn.
   */
  lemma CounterZeroIff(objs: seq<Vector>, s: seq<int>, x: nat)
    requires WellFormed(objs, s) && x < |objs|
    ensures ChargeCount(objs, s, x, |objs|) == 0 <==>
            forall y :: 0 <= y < |objs| && y != x && Dominates(objs[y], objs[x], s) ==>
              y < x && Dominates(objs[x], objs[y], s)
  {
    ChargeCountZero(objs, s, x, |objs|);
    forall y | 0 <= y < |objs|
      ensures !Charges(objs, s, y, x) <==>
              (y != x && Dominates(objs[y], objs[x], s) ==> y < x && Dominates(objs[x], objs[y], s))
    {
    }
  }

  /** An individual that nobody else dominates ends with counter 0. */
  lemma UndominatedCounterZero(objs: seq<Vector>, s: seq<int>, x: nat)
    requires WellFormed(objs, s) && x < |objs|
    requires Undominated(objs, s, x)
    ensures ChargeCount(objs, s, x, |objs|) == 0
  {
    CounterZeroIff(objs, s, x);
  }

  /** A strict dominator always contributes to the counter of the one it dominates. */
  lemma StrictDominatorCharges(objs: seq<Vector>, s: seq<int>, y: nat, x: nat)
    requires WellFormed(objs, s) && y < |objs| && x < |objs|
    requires Dominates(objs[y], objs[x], s) && !Dominates(objs[x], objs[y], s)
    ensures Charges(objs, s, y, x) && !Charges(objs, s, x, y)
  {
    DominatesReflexive(objs[x], s);
  }

  /** Of two identical vectors, only the lower-positioned one has its counter incremented. */
  lemma IdenticalChargesLower(objs: seq<Vector>, s: seq<int>, y: nat, x: nat)
    requires WellFormed(objs, s) && y < |objs| && x < |objs|
    requires y != x && objs[y] == objs[x]
    ensures Charges(objs, s, y, x) <==> y > x
  {
    DominatesReflexive(objs[x], s);
  }

  /** How one comparison of the scan, of `j` with a later `i`, moves the two counters. */
  lemma ChargeStep(objs: seq<Vector>, s: seq<int>, i: nat, j: nat)
    requires WellFormed(objs, s) && j < i < |objs|
    ensures ChargeCount(objs, s, j, i + 1) ==
            ChargeCount(objs, s, j, i) + (if Dominates(objs[i], objs[j], s) then 1 else 0)
    ensures ChargeCount(objs, s, i, j + 1) ==
            ChargeCount(objs, s, i, j) +
            (if !Dominates(objs[i], objs[j], s) && Dominates(objs[j], objs[i], s) then 1 else 0)
  {
  }

  lemma ChargesAsymmetric(objs: seq<Vector>, s: seq<int>, y: nat, x: nat)
    requires WellFormed(objs, s) && y < |objs| && x < |objs|
    requires Charges(objs, s, y, x)
    ensures !Charges(objs, s, x, y)
  {
  }

  /** Charging is transitive: it is a strict order on positions. */
  lemma ChargesTransitive(objs: seq<Vector>, s: seq<int>, y: nat, x: nat, w: nat)
    requires WellFormed(objs, s) && y < |objs| && x < |objs| && w < |objs|
    requires Charges(objs, s, y, x) && Charges(objs, s, x, w)
    ensures Charges(objs, s, y, w)
  {
    var a, b, c := objs[y], objs[x], objs[w];
    DominatesTransitive(a, b, c, s);
    if y == w {
      ChargesAsymmetric(objs, s, y, x);
    } else if Dominates(c, a, s) {
      DominatesTransitive(b, c, a, s);
      DominatesTransitive(c, a, b, s);
    }
  }

  lemma {:induction false} MaximalAmongFirst(objs: seq<Vector>, s: seq<int>, n: nat) returns (m: nat)
    requires WellFormed(objs, s) && 1 <= n <= |objs|
    ensures m < n && forall y :: 0 <= y < n ==> !Charges(objs, s, y, m)
  {
    if n == 1 {
      m := 0;
    } else {
      m := MaximalAmongFirst(objs, s, n - 1);
      if Charges(objs, s, n - 1, m) {
        var top := n - 1;
        forall y | 0 <= y < n
          ensures !Charges(objs, s, y, top)
        {
          if Charges(objs, s, y, top) {
            ChargesTransitive(objs, s, y, top, m);
          }
        }
        m := top;
      }
    }
  }

  /** In every non-empty population some individual ends with counter 0. */
  lemma SomeCounterIsZero(objs: seq<Vector>, s: seq<int>) returns (x: nat)
    requires WellFormed(objs, s) && |objs| > 0
    ensures x < |objs| && ChargeCount(objs, s, x, |objs|) == 0
  {
    x := MaximalAmongFirst(objs, s, |objs|);
    ChargeCountZero(objs, s, x, |objs|);
  }

  /** The population with every counter computed and every crowding distance reset. */
  function Ranked(pop: seq<Member>, s: seq<int>): (r: seq<Member>)
    requires WellFormed(Objectives(pop), s)
    ensures |r| == |pop|
  {
    seq(|pop|, k requires 0 <= k < |pop| =>
      pop[k].(fitness := ChargeCount(Objectives(pop), s, k, |pop|), crowding := 0.0))
  }

  /**
   * The array before row `i` of the scan: the first `i` members carry the
   * charges from the first `i` positions, the rest are untouched.
   */
  ghost function Pending(was: seq<Member>, s: seq<int>, i: nat): seq<Member>
    requires WellFormed(Objectives(was), s) && i <= |was|
  {
    seq(|was|, k requires 0 <= k < |was| =>
      if k < i then was[k].(fitness := ChargeCount(Objectives(was), s, k, i), crowding := 0.0)
      else was[k])
  }

  /** The array inside row `i`, before comparing `i` with `j`. */
  ghost function Scanning(was: seq<Member>, s: seq<int>, i: nat, j: nat): seq<Member>
    requires WellFormed(Objectives(was), s) && j <= i < |was|
  {
    seq(|was|, k requires 0 <= k < |was| =>
      if k < j then was[k].(fitness := ChargeCount(Objectives(was), s, k, i + 1), crowding := 0.0)
      else if k < i then was[k].(fitness := ChargeCount(Objectives(was), s, k, i), crowding := 0.0)
      else if k == i then was[k].(fitness := ChargeCount(Objectives(was), s, i, j), crowding := 0.0)
      else was[k])
  }

  /** Resetting member `i` opens row `i`. */
  lemma ScanStart(was: seq<Member>, s: seq<int>, i: nat)
    requires WellFormed(Objectives(was), s) && i < |was|
    ensures var p := Pending(was, s, i);
            p[i := p[i].(crowding := 0.0, fitness := 0)] == Scanning(was, s, i, 0)
  {
  }

  /** Comparing `i` with `j` increments the counter that the charge rule names. */
  lemma ScanStep(was: seq<Member>, s: seq<int>, i: nat, j: nat)
    requires WellFormed(Objectives(was), s) && j < i < |was|
    ensures var p := Scanning(was, s, i, j);
            && SameDimension(p[i].obj, p[j].obj, s)
            && Scanning(was, s, i, j + 1) ==
               if Dominates(p[i].obj, p[j].obj, s) then p[j := p[j].(fitness := p[j].fitness + 1)]
               else if Dominates(p[j].obj, p[i].obj, s) then p[i := p[i].(fitness := p[i].fitness + 1)]
               else p
  {
    ChargeStep(Objectives(was), s, i, j);
  }

  /** Row `i` done: the first `i + 1` members carry the charges from the first `i + 1` positions. */
  lemma ScanEnd(was: seq<Member>, s: seq<int>, i: nat)
    requires WellFormed(Objectives(was), s) && i < |was|
    ensures Scanning(was, s, i, i) == Pending(was, s, i + 1)
  {
  }

  lemma PendingAll(was: seq<Member>, s: seq<int>)
    requires WellFormed(Objectives(was), s)
    ensures Pending(was, s, |was|) == Ranked(was, s)
  {
  }

  /** Every member has the configured dimension. */
  ghost predicate MembersFit(pop: seq<Member>, s: seq<int>) {
    forall k :: 0 <= k < |pop| ==> |pop[k].obj| == |s|
  }

  lemma MembersFitWellFormed(pop: seq<Member>, s: seq<int>)
    requires MembersFit(pop, s)
    ensures WellFormed(Objectives(pop), s)
  {
  }

  lemma SameMembersFit(was: seq<Member>, now: seq<Member>, s: seq<int>)
    requires MembersFit(was, s) && multiset(now) == multiset(was)
    ensures MembersFit(now, s)
  {
    forall k | 0 <= k < |now|
      ensures |now[k].obj| == |s|
    {
      assert now[k] in multiset(was);
    }
  }

  lemma SameMembersFitRanked(pop: seq<Member>, s: seq<int>)
    requires MembersFit(pop, s)
    ensures WellFormed(Objectives(pop), s) && MembersFit(Ranked(pop, s), s)
  {
  }

  /**
   * Sorting the ranked population by counter puts a zero counter first:
   * every counter is a count, and some counter is zero.
   */
  lemma SortedRankedStartsAtZero(was: seq<Member>, now: seq<Member>, s: seq<int>)
    requires MembersFit(was, s) && |was| > 0
    requires WellFormed(Objectives(was), s)
    requires multiset(now) == multiset(Ranked(was, s))
    requires SortedBy(now, FitnessLess)
    ensures |now| == |was|
    ensures forall k :: 0 <= k < |now| ==> now[k].fitness >= 0
    ensures now[0].fitness == 0
    ensures Ascending(Counters(now))
  {
    var ranked := Ranked(was, s);
    assert |now| == |ranked| by {
      calc {
        |now|;
        |multiset(now)|;
        |multiset(ranked)|;
        |ranked|;
      }
    }
    var zero := SomeCounterIsZero(Objectives(was), s);
    assert ranked[zero] in multiset(now);
    forall k | 0 <= k < |now|
      ensures now[k].fitness >= 0
    {
      assert now[k] in multiset(ranked);
    }
  }

  /** The population after the pair scan and the sort by counter. */
  lemma RankedThenSorted(was: seq<Member>, ranked: seq<Member>, sorted: seq<Member>, s: seq<int>)
    requires MembersFit(was, s) && |was| > 0
    requires WellFormed(Objectives(was), s) && ranked == Ranked(was, s)
    requires SortsRange(ranked, sorted, 0, |ranked|, FitnessLess)
    ensures multiset(sorted) == multiset(Ranked(was, s))
    ensures SortedBy(sorted, FitnessLess)
    ensures MembersFit(sorted, s)
    ensures sorted[0].fitness == 0
    ensures Ascending(Counters(sorted))
  {
    SortsWhole(ranked, sorted, FitnessLess);
    SameMembersFitRanked(was, s);
    SameMembersFit(ranked, sorted, s);
    SortedRankedStartsAtZero(was, sorted, s);
  }

  // ---------------------------------------------------------------------
  // Fronts.
  // ---------------------------------------------------------------------

  /** The fronts partition positions `0..n-1` into labelled, contiguous, ordered ranges. */
  ghost predicate WellTiled(fronts: seq<Front>, n: int) {
    && |fronts| > 0
    && fronts[0].begin == 0
    && fronts[|fronts| - 1].end == n - 1
    && (forall k :: 0 <= k < |fronts| ==>
          && fronts[k].index == k
          && 0 <= fronts[k].begin <= fronts[k].end < n
          && fronts[k].counter == fronts[k].end - fronts[k].begin + 1)
    && (forall k, l :: 0 <= k && l == k + 1 && l < |fronts| ==> fronts[l].begin == fronts[k].end + 1)
  }

  lemma FrontInRange(fronts: seq<Front>, n: int, f: nat)
    requires WellTiled(fronts, n) && f < |fronts|
    ensures 0 <= fronts[f].begin <= fronts[f].end < n
  {
  }

  /** The counter `create_fronts` is tracking during front `k`: 0 for the first front. */
  function Rank(fronts: seq<Front>, c: seq<int>, k: nat): int
    requires k < |fronts| && 0 <= fronts[k].begin < |c|
  {
    if k == 0 then 0 else c[fronts[k].begin]
  }

  /**
   * The fronts follow the counters `c` as `create_fronts` reads them: inside
   * a front every member after the first carries the front's tracked
   * counter, and the next front starts where the counter differs from it.
   */
  ghost predicate FollowsCounters(fronts: seq<Front>, c: seq<int>)
    requires WellTiled(fronts, |c|)
  {
    && (forall k, p :: 0 <= k < |fronts| && fronts[k].begin < p <= fronts[k].end ==>
          c[p] == Rank(fronts, c, k))
    && (forall k, l :: 0 <= k && l == k + 1 && l < |fronts| ==> c[fronts[l].begin] != Rank(fronts, c, k))
  }

  ghost predicate Ascending(c: seq<int>) {
    forall i, j :: 0 <= i < j < |c| ==> c[i] <= c[j]
  }

  /**
   * On counters sorted ascending that start at 0, each front is a maximal
   * run of equal counters, and counters strictly increase from one front to
   * the next.
   */
  lemma FrontsAreRuns(fronts: seq<Front>, c: seq<int>)
    requires WellTiled(fronts, |c|) && FollowsCounters(fronts, c)
    requires Ascending(c) && c[0] == 0
    ensures forall k, p :: 0 <= k < |fronts| && fronts[k].begin <= p <= fronts[k].end ==>
              c[p] == c[fronts[k].begin]
    ensures forall k, l :: 0 <= k && l == k + 1 && l < |fronts| ==> c[fronts[k].begin] < c[fronts[l].begin]
  {
    forall k | 0 <= k < |fronts|
      ensures Rank(fronts, c, k) == c[fronts[k].begin]
    {
    }
    forall k, l | 0 <= k && l == k + 1 && l < |fronts|
      ensures c[fronts[k].begin] < c[fronts[l].begin]
    {
      var e := fronts[k].end;
      assert c[e] == c[fronts[k].begin];
      assert e < fronts[l].begin;
    }
  }

  /** If position 0 has a non-zero counter, it forms a front of its own. */
  lemma FirstAloneWhenNonZero(fronts: seq<Front>, c: seq<int>)
    requires WellTiled(fronts, |c|) && FollowsCounters(fronts, c)
    requires Ascending(c) && (forall p :: 0 <= p < |c| ==> c[p] >= 0)
    requires c[0] != 0
    ensures fronts[0].begin == fronts[0].end == 0
  {
    if |c| > 1 {
      assert c[0] <= c[1];
      assert c[1] != Rank(fronts, c, 0);
    }
  }

  /**
   * What `create_fronts` has built after reading positions `0..i-1`: every
   * front but the last is closed and follows the counters; the last one is
   * open, with its member count so far.
   */
  ghost predicate Partial(fronts: seq<Front>, c: seq<int>, i: int) {
    TiledSoFar(fronts, |c|, i) && RanksSoFar(fronts, c, i)
  }

  /** The shape half of `Partial`: the fronts tile `[0, i)` of an array of `n`, the last one open. */
  ghost predicate TiledSoFar(fronts: seq<Front>, n: int, i: int) {
    && 1 <= i <= n
    && |fronts| >= 1
    && fronts[0].begin == 0
    && (forall k :: 0 <= k < |fronts| ==> fronts[k].index == k && 0 <= fronts[k].begin < i)
    && (forall k :: 0 <= k < |fronts| - 1 ==>
          && fronts[k].begin <= fronts[k].end < i
          && fronts[k].counter == fronts[k].end - fronts[k].begin + 1)
    && (forall k, l :: 0 <= k && l == k + 1 && l < |fronts| ==> fronts[l].begin == fronts[k].end + 1)
    && fronts[|fronts| - 1].counter == i - fronts[|fronts| - 1].begin
  }

  /** The counter half of `Partial`: each front's positions carry its counter, and neighbours differ. */
  ghost predicate RanksSoFar(fronts: seq<Front>, c: seq<int>, i: int)
    requires TiledSoFar(fronts, |c|, i)
  {
    && (forall k, p :: 0 <= k < |fronts| - 1 && fronts[k].begin < p <= fronts[k].end ==>
          c[p] == Rank(fronts, c, k))
    && (forall p :: fronts[|fronts| - 1].begin < p < i ==> c[p] == Rank(fronts, c, |fronts| - 1))
    && (forall k, l :: 0 <= k && l == k + 1 && l < |fronts| ==> c[fronts[l].begin] != Rank(fronts, c, k))
  }

  lemma PartialStart(c: seq<int>)
    requires |c| >= 1
    ensures Partial([Front(0, 1, 0, 0)], c, 1)
  {
  }

  /** Position `i` differs from the tracked counter: close the last front and open one at `i`. */
  lemma PartialOpen(fronts: seq<Front>, g: seq<Front>, c: seq<int>, i: int)
    requires Partial(fronts, c, i) && i < |c|
    requires c[i] != Rank(fronts, c, |fronts| - 1)
    requires |g| == |fronts| + 1
    requires forall k :: 0 <= k < |fronts| - 1 ==> g[k] == fronts[k]
    requires g[|fronts| - 1] == fronts[|fronts| - 1].(end := i - 1)
    requires g[|fronts|] == Front(|fronts|, 1, i, 0)
    ensures Partial(g, c, i + 1) && Rank(g, c, |fronts|) == c[i]
  {
    OpenTiles(fronts, g, |c|, i);
    OpenRanks(fronts, g, c, i);
  }

  lemma OpenTiles(fronts: seq<Front>, g: seq<Front>, n: int, i: int)
    requires TiledSoFar(fronts, n, i) && i < n
    requires |g| == |fronts| + 1
    requires forall k :: 0 <= k < |fronts| - 1 ==> g[k] == fronts[k]
    requires g[|fronts| - 1] == fronts[|fronts| - 1].(end := i - 1)
    requires g[|fronts|] == Front(|fronts|, 1, i, 0)
    ensures TiledSoFar(g, n, i + 1)
  {
  }

  lemma OpenRanks(fronts: seq<Front>, g: seq<Front>, c: seq<int>, i: int)
    requires Partial(fronts, c, i) && i < |c|
    requires c[i] != Rank(fronts, c, |fronts| - 1)
    requires |g| == |fronts| + 1
    requires forall k :: 0 <= k < |fronts| - 1 ==> g[k] == fronts[k]
    requires g[|fronts| - 1] == fronts[|fronts| - 1].(end := i - 1)
    requires g[|fronts|] == Front(|fronts|, 1, i, 0)
    requires TiledSoFar(g, |c|, i + 1)
    ensures RanksSoFar(g, c, i + 1) && Rank(g, c, |fronts|) == c[i]
  {
    var last := |fronts| - 1;
    forall k | 0 <= k < |fronts|
      ensures g[k].begin == fronts[k].begin && Rank(g, c, k) == Rank(fronts, c, k)
    {
    }
    forall k, p | 0 <= k < |g| - 1 && g[k].begin < p <= g[k].end
      ensures c[p] == Rank(g, c, k)
    {
      if k < last {
        assert g[k] == fronts[k];
      }
    }
    forall k, l | 0 <= k && l == k + 1 && l < |g|
      ensures c[g[l].begin] != Rank(g, c, k)
    {
      if l < |fronts| {
        assert c[fronts[l].begin] != Rank(fronts, c, k);
      }
    }
  }

  /** Position `i` carries the tracked counter: the last front grows by one. */
  lemma PartialExtend(fronts: seq<Front>, g: seq<Front>, c: seq<int>, i: int)
    requires Partial(fronts, c, i) && i < |c|
    requires c[i] == Rank(fronts, c, |fronts| - 1)
    requires |g| == |fronts|
    requires forall k :: 0 <= k < |fronts| - 1 ==> g[k] == fronts[k]
    requires g[|fronts| - 1] == fronts[|fronts| - 1].(counter := fronts[|fronts| - 1].counter + 1)
    ensures Partial(g, c, i + 1) && Rank(g, c, |g| - 1) == Rank(fronts, c, |fronts| - 1)
  {
    ExtendTiles(fronts, g, |c|, i);
    ExtendRanks(fronts, g, c, i);
  }

  lemma ExtendTiles(fronts: seq<Front>, g: seq<Front>, n: int, i: int)
    requires TiledSoFar(fronts, n, i) && i < n
    requires |g| == |fronts|
    requires forall k :: 0 <= k < |fronts| - 1 ==> g[k] == fronts[k]
    requires g[|fronts| - 1] == fronts[|fronts| - 1].(counter := fronts[|fronts| - 1].counter + 1)
    ensures TiledSoFar(g, n, i + 1)
  {
  }

  lemma ExtendRanks(fronts: seq<Front>, g: seq<Front>, c: seq<int>, i: int)
    requires Partial(fronts, c, i) && i < |c|
    requires c[i] == Rank(fronts, c, |fronts| - 1)
    requires |g| == |fronts|
    requires forall k :: 0 <= k < |fronts| - 1 ==> g[k] == fronts[k]
    requires g[|fronts| - 1] == fronts[|fronts| - 1].(counter := fronts[|fronts| - 1].counter + 1)
    requires TiledSoFar(g, |c|, i + 1)
    ensures RanksSoFar(g, c, i + 1) && Rank(g, c, |g| - 1) == Rank(fronts, c, |fronts| - 1)
  {
    forall k | 0 <= k < |fronts|
      ensures g[k].begin == fronts[k].begin && Rank(g, c, k) == Rank(fronts, c, k)
    {
    }
    forall k, p | 0 <= k < |g| - 1 && g[k].begin < p <= g[k].end
      ensures c[p] == Rank(g, c, k)
    {
      assert g[k] == fronts[k];
    }
    forall k, l | 0 <= k && l == k + 1 && l < |g|
      ensures c[g[l].begin] != Rank(g, c, k)
    {
      assert c[fronts[l].begin] != Rank(fronts, c, k);
    }
  }

  /** After the last position, closing the open front yields a tiling that follows the counters. */
  lemma PartialClose(fronts: seq<Front>, g: seq<Front>, c: seq<int>)
    requires Partial(fronts, c, |c|)
    requires |g| == |fronts|
    requires forall k :: 0 <= k < |fronts| - 1 ==> g[k] == fronts[k]
    requires g[|fronts| - 1] == fronts[|fronts| - 1].(end := |c| - 1)
    ensures WellTiled(g, |c|) && FollowsCounters(g, c)
  {
    CloseTiles(fronts, g, |c|);
    forall k | 0 <= k < |fronts|
      ensures g[k].begin == fronts[k].begin && Rank(g, c, k) == Rank(fronts, c, k)
    {
    }
    forall k, p | 0 <= k < |g| && g[k].begin < p <= g[k].end
      ensures c[p] == Rank(g, c, k)
    {
      if k < |fronts| - 1 {
        assert g[k] == fronts[k];
      }
    }
    forall k, l | 0 <= k && l == k + 1 && l < |g|
      ensures c[g[l].begin] != Rank(g, c, k)
    {
      assert c[fronts[l].begin] != Rank(fronts, c, k);
    }
  }

  lemma CloseTiles(fronts: seq<Front>, g: seq<Front>, n: int)
    requires TiledSoFar(fronts, n, n)
    requires |g| == |fronts|
    requires forall k :: 0 <= k < |fronts| - 1 ==> g[k] == fronts[k]
    requires g[|fronts| - 1] == fronts[|fronts| - 1].(end := n - 1)
    ensures WellTiled(g, n)
  {
  }

  /** The sum of the member counts of `fronts`. */
  function SumCounters(fronts: seq<Front>): int {
    if fronts == [] then 0 else SumCounters(fronts[..|fronts| - 1]) + fronts[|fronts| - 1].counter
  }

  /** The fronts before front `k` hold exactly `fronts[k].begin` members, and all of them `n`. */
  lemma {:induction false} SumCountersIsBegin(fronts: seq<Front>, n: int, k: nat)
    requires WellTiled(fronts, n) && k <= |fronts|
    ensures k < |fronts| ==> SumCounters(fronts[..k]) == fronts[k].begin
    ensures k == |fronts| ==> SumCounters(fronts[..k]) == n
  {
    if k > 0 {
      SumCountersIsBegin(fronts, n, k - 1);
      assert fronts[..k][..k - 1] == fronts[..k - 1];
    }
  }

  /**
   * The pass of `create_fronts` over the sorted population: a new front
   * starts wherever the counter differs from the one being tracked (0 at
   * the start), and the previous front is closed just before it.
   */
  method ScanFronts(pop: seq<Member>) returns (fronts: seq<Front>)
    requires |pop| >= 1
    ensures WellTiled(fronts, |pop|)
    ensures FollowsCounters(fronts, Counters(pop))
  {
    var f := 0;
    fronts := [Front(f, 1, f, 0)];
    var rank := 0;
    PartialStart(Counters(pop));
    for i := 1 to |pop|
      invariant |fronts| == f + 1
      invariant Partial(fronts, Counters(pop), i)
      invariant rank == Rank(fronts, Counters(pop), f)
    {
      fronts, f, rank := ScanPosition(pop, fronts, f, rank, i);
    }
    ghost var open := fronts;
    fronts := fronts[f := fronts[f].(end := |pop| - 1)];
    PartialClose(open, fronts, Counters(pop));
  }

  /** One iteration of the pass of `create_fronts`, at position `i`. */
  method ScanPosition(pop: seq<Member>, fronts: seq<Front>, f: nat, rank: int, i: nat)
    returns (fronts': seq<Front>, f': nat, rank': int)
    requires i < |pop| && |fronts| == f + 1
    requires Partial(fronts, Counters(pop), i) && rank == Rank(fronts, Counters(pop), f)
    ensures |fronts'| == f' + 1
    ensures Partial(fronts', Counters(pop), i + 1) && rank' == Rank(fronts', Counters(pop), f')
  {
    fronts', f', rank' := fronts, f, rank;
    if rank != pop[i].fitness {
      f' := f' + 1;
      rank' := pop[i].fitness;
      fronts' := fronts' + [Front(f', 1, i, 0)];
      fronts' := fronts'[f' - 1 := fronts'[f' - 1].(end := i - 1)];
      PartialOpen(fronts, fronts', Counters(pop), i);
    } else {
      fronts' := fronts'[f' := fronts'[f'].(counter := fronts'[f'].counter + 1)];
      PartialExtend(fronts, fronts', Counters(pop), i);
    }
  }

  // ---------------------------------------------------------------------
  // Crowding distance.
  // ---------------------------------------------------------------------

  /** The crowding distance `crownding_distance` gives the first and last member of a front. */
  const Boundary: real := 100000.0

  /** Objective `o` of a member, the key of `compareByObjective(o)`; 0 where the member has no such objective. */
  function ObjectiveOf(x: Member, o: nat): real {
    if o < |x.obj| then x.obj[o] else 0.0
  }

  /** The order of `compareByObjective(o)`: ascending value of objective `o`. */
  function ObjectiveLess(o: nat): (Member, Member) -> bool {
    (x: Member, y: Member) => ObjectiveOf(x, o) < ObjectiveOf(y, o)
  }

  lemma ObjectiveLessIsStrictWeakOrder(o: nat)
    ensures StrictWeakOrder(ObjectiveLess(o))
  {
  }

  /**
   * The quotient of one crowding step. A zero denominator (every member of
   * the front has the same value of the objective) adds nothing.
   */
  function Quotient(n: real, d: real): (r: real)
    ensures n >= 0.0 && d >= 0.0 ==> r >= 0.0
    ensures d > 0.0 ==> r * d == n
  {
    if d == 0.0 then 0.0 else n / d
  }

  /** The members with their crowding distances cleared: what `crownding_distance` does not change. */
  function Uncrowded(s: seq<Member>): (r: seq<Member>)
    ensures |r| == |s|
  {
    seq(|s|, k requires 0 <= k < |s| => s[k].(crowding := 0.0))
  }

  lemma UncrowdedConcat(x: seq<Member>, y: seq<Member>)
    ensures Uncrowded(x + y) == Uncrowded(x) + Uncrowded(y)
  {
  }

  /** Taking out the element at `j` of a permutation of `a` leaves a permutation of `a[1..]` when it is `a[0]`. */
  lemma RemoveFirst<T>(a: seq<T>, b: seq<T>, j: nat)
    requires multiset(a) == multiset(b) && 0 < |a| && j < |b| && b[j] == a[0]
    ensures multiset(a[1..]) == multiset(b[..j] + b[j + 1..])
  {
    assert a == [a[0]] + a[1..];
    assert b == b[..j] + [b[j]] + b[j + 1..];
    assert multiset(a) == multiset{a[0]} + multiset(a[1..]);
    assert multiset(b) == multiset(b[..j]) + multiset{b[j]} + multiset(b[j + 1..]);
    assert multiset(b[..j] + b[j + 1..]) == multiset(b[..j]) + multiset(b[j + 1..]);
    assert multiset(a[1..]) == multiset(a) - multiset{a[0]};
    assert multiset(b[..j] + b[j + 1..]) == multiset(b) - multiset{b[j]};
  }

  /** Permuting the members permutes them with their crowding distances cleared. */
  lemma {:induction false} UncrowdedPermutes(a: seq<Member>, b: seq<Member>)
    requires multiset(a) == multiset(b)
    ensures multiset(Uncrowded(a)) == multiset(Uncrowded(b))
    decreases |a|
  {
    if a == [] {
      assert |b| == |multiset(b)| == 0;
    } else {
      assert a[0] in multiset(b);
      var j :| 0 <= j < |b| && b[j] == a[0];
      RemoveFirst(a, b, j);
      UncrowdedPermutes(a[1..], b[..j] + b[j + 1..]);
      assert a == [a[0]] + a[1..];
      assert b == b[..j] + [b[j]] + b[j + 1..];
      UncrowdedConcat([a[0]], a[1..]);
      UncrowdedConcat(b[..j] + [b[j]], b[j + 1..]);
      UncrowdedConcat(b[..j], [b[j]]);
      UncrowdedConcat(b[..j], b[j + 1..]);
    }
  }

  /**
   * `now` is `was` with the members of `[lo, hi)` reordered among themselves
   * and given new crowding distances; nothing outside the range changes.
   */
  ghost predicate Recrowded(was: seq<Member>, now: seq<Member>, lo: nat, hi: nat) {
    && lo <= hi <= |was| == |now|
    && now[..lo] == was[..lo]
    && now[hi..] == was[hi..]
    && multiset(Uncrowded(now[lo..hi])) == multiset(Uncrowded(was[lo..hi]))
  }

  lemma RecrowdedTransitive(a: seq<Member>, b: seq<Member>, c: seq<Member>, lo: nat, hi: nat)
    requires Recrowded(a, b, lo, hi) && Recrowded(b, c, lo, hi)
    ensures Recrowded(a, c, lo, hi)
  {
  }

  /** A sort of the range reorders its members without changing any of them. */
  lemma SortRecrowds(was: seq<Member>, now: seq<Member>, lo: nat, hi: nat, lt: (Member, Member) -> bool)
    requires SortsRange(was, now, lo, hi, lt)
    ensures Recrowded(was, now, lo, hi)
    ensures CrowdingNonNegative(was, lo, hi) ==> CrowdingNonNegative(now, lo, hi)
  {
    UncrowdedPermutes(now[lo..hi], was[lo..hi]);
    if CrowdingNonNegative(was, lo, hi) {
      SortKeepsNonNegative(was, now, lo, hi, lt);
    }
  }

  /** Setting the crowding distance of one member of the range keeps the range recrowded. */
  lemma SetCrowding(was: seq<Member>, now: seq<Member>, lo: nat, hi: nat, i: nat, c: real)
    requires Recrowded(was, now, lo, hi) && lo <= i < hi
    ensures Recrowded(was, now[i := now[i].(crowding := c)], lo, hi)
  {
    var next := now[i := now[i].(crowding := c)];
    assert next[..lo] == now[..lo] && next[hi..] == now[hi..];
    assert Uncrowded(next[lo..hi]) == Uncrowded(now[lo..hi]);
  }

  /** Recrowded members keep their objective vectors, hence their dimension. */
  lemma RecrowdedFit(was: seq<Member>, now: seq<Member>, lo: nat, hi: nat, s: seq<int>)
    requires Recrowded(was, now, lo, hi) && MembersFit(was, s)
    ensures MembersFit(now, s)
  {
    assert was == was[..lo] + was[lo..hi] + was[hi..];
    forall k | 0 <= k < |now|
      ensures |now[k].obj| == |s|
    {
      if k < lo {
        assert now[k] == now[..lo][k] == was[..lo][k];
      } else if k >= hi {
        assert now[k] == now[hi..][k - hi] == was[hi..][k - hi];
      } else {
        assert Uncrowded(now[lo..hi])[k - lo] == now[k].(crowding := 0.0);
        assert now[k].(crowding := 0.0) in multiset(Uncrowded(was[lo..hi]));
        var j :| 0 <= j < hi - lo && Uncrowded(was[lo..hi])[j] == now[k].(crowding := 0.0);
        assert was[lo + j].obj == now[k].obj;
      }
    }
  }

  /** No member of `[lo, hi)` has a negative crowding distance. */
  ghost predicate CrowdingNonNegative(s: seq<Member>, lo: nat, hi: nat) {
    forall k :: lo <= k < hi && k < |s| ==> s[k].crowding >= 0.0
  }

  /** A sort of the range moves its members only within it, so none becomes negative. */
  lemma SortKeepsNonNegative(was: seq<Member>, now: seq<Member>, lo: nat, hi: nat, lt: (Member, Member) -> bool)
    requires SortsRange(was, now, lo, hi, lt) && CrowdingNonNegative(was, lo, hi)
    ensures CrowdingNonNegative(now, lo, hi)
  {
    forall k | lo <= k < hi && k < |now|
      ensures now[k].crowding >= 0.0
    {
      assert now[k] == now[lo..hi][k - lo];
      assert now[k] in multiset(was[lo..hi]);
      var j :| 0 <= j < hi - lo && was[lo..hi][j] == now[k];
      assert was[lo + j] == now[k];
    }
  }

  /** Sorted by objective `o`, a range has its values of `o` ascending. */
  lemma SortedObjective(s: seq<Member>, lo: nat, hi: nat, o: nat, a: nat, b: nat, sg: seq<int>)
    requires lo <= a <= b < hi <= |s| && MembersFit(s, sg) && o < |sg|
    requires SortedBy(s[lo..hi], ObjectiveLess(o))
    ensures s[a].obj[o] <= s[b].obj[o]
  {
    if a < b {
      assert s[lo..hi][a - lo] == s[a] && s[lo..hi][b - lo] == s[b];
      assert !ObjectiveLess(o)(s[b], s[a]);
    }
  }

  /**
   * What `crownding_distance` leaves in front `fr`, compared with `was`: the
   * same members with new crowding distances, the first and last of them at
   * `Boundary` when there is at least one objective.
   */
  ghost predicate FrontRecrowded(was: seq<Member>, now: seq<Member>, fr: Front, objectives: nat) {
    && 0 <= fr.begin <= fr.end < |was| == |now|
    && multiset(Uncrowded(now[fr.begin..fr.end + 1])) == multiset(Uncrowded(was[fr.begin..fr.end + 1]))
    && (objectives > 0 ==> now[fr.begin].crowding == Boundary && now[fr.end].crowding == Boundary)
  }

  /** The first `n` fronts are recrowded. */
  ghost predicate FrontsRecrowded(was: seq<Member>, now: seq<Member>, fronts: seq<Front>, n: nat, objectives: nat) {
    n <= |fronts| && forall k :: 0 <= k < n ==> FrontRecrowded(was, now, fronts[k], objectives)
  }

  /** A front that lies before position `b` stays as it is when nothing before `b` changes. */
  lemma FrontKept(was: seq<Member>, t: seq<Member>, u: seq<Member>, fr: Front, objectives: nat, b: nat)
    requires FrontRecrowded(was, t, fr, objectives)
    requires fr.end < b <= |t| == |u| && u[..b] == t[..b]
    ensures FrontRecrowded(was, u, fr, objectives)
  {
    assert u[fr.begin..fr.end + 1] == u[..b][fr.begin..fr.end + 1];
    assert t[fr.begin..fr.end + 1] == t[..b][fr.begin..fr.end + 1];
    assert u[fr.begin] == u[..b][fr.begin] && t[fr.begin] == t[..b][fr.begin];
    assert u[fr.end] == u[..b][fr.end] && t[fr.end] == t[..b][fr.end];
  }

  /** Every front before front `f` ends before `f` begins. */
  lemma {:induction false} FrontBefore(fronts: seq<Front>, n: int, k: nat, f: nat)
    requires WellTiled(fronts, n) && k < f < |fronts|
    ensures fronts[k].end < fronts[f].begin
    decreases f - k
  {
    assert fronts[k + 1].begin == fronts[k].end + 1;
    if k + 1 < f {
      FrontBefore(fronts, n, k + 1, f);
    }
  }

  /** The fronts before `f` stay recrowded while nothing before front `f` changes. */
  lemma FrontsKept(was: seq<Member>, t: seq<Member>, u: seq<Member>, fronts: seq<Front>, f: nat, objectives: nat)
    requires WellTiled(fronts, |was|) && f < |fronts| && FrontsRecrowded(was, t, fronts, f, objectives)
    requires fronts[f].begin <= |t| == |u| && u[..fronts[f].begin] == t[..fronts[f].begin]
    ensures FrontsRecrowded(was, u, fronts, f, objectives)
  {
    forall k | 0 <= k < f
      ensures FrontRecrowded(was, u, fronts[k], objectives)
    {
      FrontBefore(fronts, |was|, k, f);
      FrontKept(was, t, u, fronts[k], objectives, fronts[f].begin);
    }
  }

  /** The walk of `nextPopulation` before front `f`: the fronts before it recrowded, the rest as in `was`. */
  ghost predicate WalkedTo(was: seq<Member>, now: seq<Member>, fronts: seq<Front>, f: nat, objectives: nat) {
    && f < |fronts| && 0 <= fronts[f].begin <= fronts[f].end < |was| == |now|
    && FrontsRecrowded(was, now, fronts, f, objectives)
    && now[fronts[f].begin..] == was[fronts[f].begin..]
  }

  /** The walk of `nextPopulation` through front `f`: the fronts up to it recrowded, the rest as in `was`. */
  ghost predicate CrowdedThrough(was: seq<Member>, now: seq<Member>, fronts: seq<Front>, f: nat, objectives: nat) {
    && f < |fronts| && 0 <= fronts[f].begin <= fronts[f].end < |was| == |now|
    && FrontsRecrowded(was, now, fronts, f + 1, objectives)
    && now[fronts[f].end + 1..] == was[fronts[f].end + 1..]
  }

  /** Moving on to the next front, which starts where front `f` ends, when front `f` does not end the population. */
  lemma WalkAdvance(was: seq<Member>, now: seq<Member>, fronts: seq<Front>, f: nat, objectives: nat)
    requires WellTiled(fronts, |was|) && CrowdedThrough(was, now, fronts, f, objectives)
    requires fronts[f].begin + fronts[f].counter < |was|
    ensures f + 1 < |fronts| && fronts[f + 1].begin == fronts[f].begin + fronts[f].counter
    ensures WalkedTo(was, now, fronts, f + 1, objectives)
  {
    assert fronts[f + 1].begin == fronts[f].end + 1;
  }

  /** Two sequences that agree from `b` on agree on `[b, e)` and from `e` on. */
  lemma SuffixSlices<T>(t: seq<T>, was: seq<T>, b: nat, e: nat)
    requires b <= e <= |t| == |was| && t[b..] == was[b..]
    ensures t[b..e] == was[b..e] && t[e..] == was[e..]
  {
    assert t[b..e] == t[b..][..e - b] && was[b..e] == was[b..][..e - b];
    assert t[e..] == t[b..][e - b..] && was[e..] == was[b..][e - b..];
  }

  /**
   * `crownding_distance` on front `f`, the fronts before it already done:
   * front `f` and those before it are recrowded, and the rest is as in `was`.
   */
  lemma FrontStep(was: seq<Member>, t: seq<Member>, u: seq<Member>, fronts: seq<Front>, f: nat, objectives: nat)
    requires WellTiled(fronts, |was|) && WalkedTo(was, t, fronts, f, objectives)
    requires Recrowded(t, u, fronts[f].begin, fronts[f].end + 1)
    requires objectives > 0 ==> PassDone(t, u, fronts[f].begin, fronts[f].end)
    ensures CrowdedThrough(was, u, fronts, f, objectives)
  {
    FrontsKept(was, t, u, fronts, f, objectives);
    SuffixSlices(t, was, fronts[f].begin, fronts[f].end + 1);
    assert FrontRecrowded(was, u, fronts[f], objectives);
  }

  /**
   * The state within one objective of `crownding_distance` once the front
   * `[lo, hi]` is sorted (`sorted`) and its ends are set: the same members,
   * with the same objective vectors at the same positions, the two ends at
   * `Boundary`.
   */
  ghost predicate PassState(sorted: seq<Member>, now: seq<Member>, lo: nat, hi: nat) {
    && lo <= hi && Recrowded(sorted, now, lo, hi + 1)
    && (forall k :: 0 <= k < |now| ==> now[k].obj == sorted[k].obj)
    && now[lo].crowding == Boundary && now[hi].crowding == Boundary
  }

  /** Adding `q` to the crowding distance of member `i`, strictly inside `[lo, hi]`, keeps the pass state. */
  lemma GapStep(sorted: seq<Member>, prev: seq<Member>, now: seq<Member>, lo: nat, hi: nat, i: nat, q: real)
    requires lo < i < hi && PassState(sorted, prev, lo, hi)
    requires now == prev[i := prev[i].(crowding := prev[i].crowding + q)]
    ensures PassState(sorted, now, lo, hi)
  {
    SetCrowding(sorted, prev, lo, hi + 1, i, prev[i].crowding + q);
    forall k | 0 <= k < |now|
      ensures now[k].obj == sorted[k].obj
    {
      assert now[k].obj == prev[k].obj;
    }
  }

  /** A non-negative gap keeps the crowding distances of the range non-negative. */
  lemma GapNonNegativeStep(prev: seq<Member>, now: seq<Member>, lo: nat, hi: nat, i: nat, q: real)
    requires lo <= i < hi <= |prev| && q >= 0.0 && CrowdingNonNegative(prev, lo, hi)
    requires now == prev[i := prev[i].(crowding := prev[i].crowding + q)]
    ensures CrowdingNonNegative(now, lo, hi)
  {
  }

  /**
   * One objective of `crownding_distance` on the front `[lo, hi]`, from `was`
   * to `now`: the range is recrowded, its two ends are at `Boundary`, and
   * distances that were non-negative stay so.
   */
  ghost predicate PassDone(was: seq<Member>, now: seq<Member>, lo: nat, hi: nat) {
    && lo <= hi && Recrowded(was, now, lo, hi + 1)
    && now[lo].crowding == Boundary && now[hi].crowding == Boundary
    && (CrowdingNonNegative(was, lo, hi + 1) ==> CrowdingNonNegative(now, lo, hi + 1))
  }

  /** The sort of one objective followed by the pass over the sorted range. */
  lemma PassComposes(was: seq<Member>, sorted: seq<Member>, now: seq<Member>, lo: nat, hi: nat)
    requires Recrowded(was, sorted, lo, hi + 1)
    requires CrowdingNonNegative(was, lo, hi + 1) ==> CrowdingNonNegative(sorted, lo, hi + 1)
    requires PassState(sorted, now, lo, hi)
    requires CrowdingNonNegative(sorted, lo, hi + 1) ==> CrowdingNonNegative(now, lo, hi + 1)
    ensures PassDone(was, now, lo, hi)
  {
    RecrowdedTransitive(was, sorted, now, lo, hi + 1);
  }

  /** One more pass after the passes so far, which recrowded `was` into `before`. */
  lemma PassAfter(was: seq<Member>, before: seq<Member>, now: seq<Member>, lo: nat, hi: nat)
    requires Recrowded(was, before, lo, hi + 1)
    requires CrowdingNonNegative(was, lo, hi + 1) ==> CrowdingNonNegative(before, lo, hi + 1)
    requires PassDone(before, now, lo, hi)
    ensures PassDone(was, now, lo, hi)
  {
    RecrowdedTransitive(was, before, now, lo, hi + 1);
  }

  /** In the pass state, the neighbours of an interior member have ascending values of objective `o`. */
  lemma GapNonNegative(sorted: seq<Member>, now: seq<Member>, lo: nat, hi: nat, i: nat, o: nat, s: seq<int>)
    requires lo < i < hi && PassState(sorted, now, lo, hi) && MembersFit(sorted, s) && o < |s|
    requires SortedBy(sorted[lo..hi + 1], ObjectiveLess(o))
    ensures o < |now[i - 1].obj| && o < |now[i + 1].obj| && now[i - 1].obj[o] <= now[i + 1].obj[o]
  {
    SortedObjective(sorted, lo, hi + 1, o, i - 1, i + 1, s);
  }

  /**
   * Front `fr` of `now` holds the members of that front of `was` with new
   * crowding distances, sorted by the crowded-comparison operator.
   */
  ghost predicate FrontCrowdSorted(was: seq<Member>, now: seq<Member>, fr: Front) {
    && 0 <= fr.begin <= fr.end < |was| == |now|
    && multiset(Uncrowded(now[fr.begin..fr.end + 1])) == multiset(Uncrowded(was[fr.begin..fr.end + 1]))
    && SortedBy(now[fr.begin..fr.end + 1], CrowdedLess)
  }

  /**
   * The walk stopped at an overflowing front `f`: the fronts before it
   * recrowded, `f` itself sorted by the crowded comparison, the rest as in `was`.
   */
  ghost predicate SortedThrough(was: seq<Member>, now: seq<Member>, fronts: seq<Front>, f: nat, objectives: nat) {
    && f < |fronts| && 0 <= fronts[f].begin <= fronts[f].end < |was| == |now|
    && FrontsRecrowded(was, now, fronts, f, objectives)
    && FrontCrowdSorted(was, now, fronts[f])
    && now[fronts[f].end + 1..] == was[fronts[f].end + 1..]
  }

  /** The crowded sort of the boundary front `f` keeps what the walk left in every other front. */
  lemma BoundarySorted(was: seq<Member>, t: seq<Member>, u: seq<Member>, fronts: seq<Front>, f: nat, objectives: nat)
    requires WellTiled(fronts, |was|) && CrowdedThrough(was, t, fronts, f, objectives)
    requires SortsRange(t, u, fronts[f].begin, fronts[f].end + 1, CrowdedLess)
    ensures SortedThrough(was, u, fronts, f, objectives)
  {
    assert FrontRecrowded(was, t, fronts[f], objectives);
    FrontsKept(was, t, u, fronts, f, objectives);
    SortRecrowds(t, u, fronts[f].begin, fronts[f].end + 1, CrowdedLess);
  }

  // ---------------------------------------------------------------------
  // The engine.
  // ---------------------------------------------------------------------

  class Nsga2 {
    /** `m_popsize`: the target population N; the array holds 2N. */
    const popsize: nat
    /** The sign configuration, one entry per objective. */
    const signs: seq<int>
    /** `m_population`: parents in `[0, N)`, offspring in `[N, 2N)`. */
    const population: array<Member>
    /** The fronts built by the last `CreateFronts`. */
    var fronts: seq<Front>

    ghost predicate Valid()
      reads this, population
    {
      && popsize >= 1
      && population.Length == 2 * popsize
      && MembersFit(population[..], signs)
    }

    /** The engine over a combined population supplied by the representation layer. */
    constructor (n: nat, s: seq<int>, initial: seq<Member>)
      requires n >= 1 && |initial| == 2 * n
      requires MembersFit(initial, s)
      ensures Valid() && fresh(population)
      ensures popsize == n && signs == s && population[..] == initial && fronts == []
    {
      popsize, signs := n, s;
      population := new Member[2 * n](k requires 0 <= k < 2 * n => initial[k]);
      fronts := [];
      new;
      assert population[..] == initial;
    }

    /**
     * `fast_nom_dominated_sort`: counts the charges, sorts the population by
     * counter, and builds the fronts.
     */
    method FastNonDominatedSort()
      requires Valid()
      modifies this, population
      ensures Valid()
      ensures multiset(population[..]) == multiset(Ranked(old(population[..]), signs))
      ensures SortedBy(population[..], FitnessLess)
      ensures population[0].fitness == 0
      ensures Ascending(Counters(population[..]))
      ensures WellTiled(fronts, population.Length)
      ensures FollowsCounters(fronts, Counters(population[..]))
    {
      RankAndSort();
      CreateFronts();
    }

    /** The first two steps of `fast_nom_dominated_sort`: the pair scan, then the sort by counter. */
    method RankAndSort()
      requires Valid()
      modifies population
      ensures Valid()
      ensures multiset(population[..]) == multiset(Ranked(old(population[..]), signs))
      ensures SortedBy(population[..], FitnessLess)
      ensures population[0].fitness == 0
      ensures Ascending(Counters(population[..]))
    {
      ghost var was := population[..];
      MembersFitWellFormed(was, signs);
      CountCharges();
      ghost var ranked := population[..];
      FitnessLessIsStrictWeakOrder();
      SortRange(population, 0, population.Length, FitnessLess);
      RankedThenSorted(was, ranked, population[..], signs);
    }

    /**
     * The pair scan of `fast_nom_dominated_sort`: for every `i`, resets the
     * counter and crowding distance of `i`, then for each `j < i` increments
     * the counter of `j` when `i` dominates `j`, and otherwise that of `i`
     * when `j` dominates `i`.
     */
    method CountCharges()
      requires Valid()
      modifies population
      ensures Valid()
      ensures population[..] == Ranked(old(population[..]), signs)
    {
      var n := 2 * popsize;
      ghost var was := population[..];
      MembersFitWellFormed(was, signs);
      ghost var objs := Objectives(was);
      for i := 0 to n
        invariant population[..] == Pending(was, signs, i)
      {
        ScanStart(was, signs, i);
        population[i] := population[i].(crowding := 0.0, fitness := 0);
        for j := 0 to i
          invariant population[..] == Scanning(was, signs, i, j)
        {
          ScanStep(was, signs, i, j);
          if Dominates(population[i].obj, population[j].obj, signs) {
            population[j] := population[j].(fitness := population[j].fitness + 1);
          } else if Dominates(population[j].obj, population[i].obj, signs) {
            population[i] := population[i].(fitness := population[i].fitness + 1);
          }
        }
        ScanEnd(was, signs, i);
      }
      PendingAll(was, signs);
      SameMembersFitRanked(was, signs);
    }

    /** `create_fronts`, on the engine's array. */
    method CreateFronts()
      requires Valid()
      modifies this
      ensures Valid()
      ensures WellTiled(fronts, population.Length)
      ensures FollowsCounters(fronts, Counters(population[..]))
    {
      fronts := ScanFronts(population[..]);
    }

    /**
     * `crownding_distance(begin, end)`: for each objective, sorts the front
     * `[begin, end]` by that objective, gives its first and last member the
     * crowding distance `Boundary`, and adds to each member between them the
     * gap between its neighbours' values, divided by the spread of the front.
     */
    method CrowdingDistance(begin: nat, end: nat)
      requires Valid() && begin <= end < population.Length
      modifies population
      ensures Valid()
      ensures Recrowded(old(population[..]), population[..], begin, end + 1)
      ensures |signs| > 0 ==> PassDone(old(population[..]), population[..], begin, end)
      ensures CrowdingNonNegative(old(population[..]), begin, end + 1) ==>
        CrowdingNonNegative(population[..], begin, end + 1)
    {
      ghost var was := population[..];
      for o := 0 to |signs|
        invariant Valid()
        invariant Recrowded(was, population[..], begin, end + 1)
        invariant o > 0 ==> PassDone(was, population[..], begin, end)
        invariant CrowdingNonNegative(was, begin, end + 1) ==> CrowdingNonNegative(population[..], begin, end + 1)
      {
        ghost var before := population[..];
        CrowdingPass(begin, end, o);
        PassAfter(was, before, population[..], begin, end);
      }
    }

    /** One objective `o` of `crownding_distance`. */
    method CrowdingPass(begin: nat, end: nat, o: nat)
      requires Valid() && begin <= end < population.Length && o < |signs|
      modifies population
      ensures Valid() && PassDone(old(population[..]), population[..], begin, end)
    {
      ghost var was := population[..];
      SortByObjective(begin, end, o);
      ghost var sorted := population[..];
      var max := population[end].obj[o];
      var min := population[begin].obj[o];
      SortedObjective(sorted, begin, end + 1, o, begin, end, signs);
      SetBoundary(sorted, begin, end);
      var denom := max - min;
      AddGaps(sorted, begin, end, o, denom);
      PassComposes(was, sorted, population[..], begin, end);
    }

    /** `std::sort` of the front `[begin, end]` by `compareByObjective(o)`. */
    method SortByObjective(begin: nat, end: nat, o: nat)
      requires Valid() && begin <= end < population.Length
      modifies population
      ensures Valid()
      ensures SortsRange(old(population[..]), population[..], begin, end + 1, ObjectiveLess(o))
      ensures Recrowded(old(population[..]), population[..], begin, end + 1)
      ensures CrowdingNonNegative(old(population[..]), begin, end + 1) ==>
        CrowdingNonNegative(population[..], begin, end + 1)
    {
      ghost var was := population[..];
      ObjectiveLessIsStrictWeakOrder(o);
      SortRange(population, begin, end + 1, ObjectiveLess(o));
      SortRecrowds(was, population[..], begin, end + 1, ObjectiveLess(o));
      RecrowdedFit(was, population[..], begin, end + 1, signs);
    }

    /**
     * The inner loop of one objective of `crownding_distance`: each member
     * strictly between `begin` and `end` gains the gap between its
     * neighbours' values of objective `o`, divided by `denom`.
     */
    method AddGaps(ghost sorted: seq<Member>, begin: nat, end: nat, o: nat, denom: real)
      requires Valid() && begin <= end < population.Length && o < |signs|
      requires PassState(sorted, population[..], begin, end)
      requires MembersFit(sorted, signs) && SortedBy(sorted[begin..end + 1], ObjectiveLess(o)) && denom >= 0.0
      requires CrowdingNonNegative(sorted, begin, end + 1) ==> CrowdingNonNegative(population[..], begin, end + 1)
      modifies population
      ensures Valid()
      ensures PassState(sorted, population[..], begin, end)
      ensures CrowdingNonNegative(sorted, begin, end + 1) ==> CrowdingNonNegative(population[..], begin, end + 1)
    {
      var i := begin + 1;
      while i < end
        invariant begin + 1 <= i && (begin < end ==> i <= end)
        invariant Valid() && PassState(sorted, population[..], begin, end)
        invariant CrowdingNonNegative(sorted, begin, end + 1) ==> CrowdingNonNegative(population[..], begin, end + 1)
      {
        GapNonNegative(sorted, population[..], begin, end, i, o, signs);
        ghost var prev := population[..];
        var q := Quotient(population[i + 1].obj[o] - population[i - 1].obj[o], denom);
        AddCrowding(i, q);
        GapStep(sorted, prev, population[..], begin, end, i, q);
        if CrowdingNonNegative(sorted, begin, end + 1) {
          GapNonNegativeStep(prev, population[..], begin, end + 1, i, q);
        }
        i := i + 1;
      }
    }

    /** `m_population[i]->crownding += q`. */
    method AddCrowding(i: nat, q: real)
      requires Valid() && i < population.Length
      modifies population
      ensures Valid()
      ensures population[..] == old(population[..])[i := old(population[i]).(crowding := old(population[i]).crowding + q)]
    {
      population[i] := population[i].(crowding := population[i].crowding + q);
      assert forall k :: 0 <= k < population.Length ==> population[k].obj == old(population[k]).obj;
    }

    /** The two boundary assignments of one objective of `crownding_distance`. */
    method SetBoundary(ghost sorted: seq<Member>, begin: nat, end: nat)
      requires Valid() && begin <= end < population.Length && population[..] == sorted
      modifies population
      ensures Valid()
      ensures PassState(sorted, population[..], begin, end)
      ensures CrowdingNonNegative(sorted, begin, end + 1) ==> CrowdingNonNegative(population[..], begin, end + 1)
    {
      assert Recrowded(sorted, population[..], begin, end + 1);
      SetCrowding(sorted, population[..], begin, end + 1, begin, Boundary);
      population[begin] := population[begin].(crowding := Boundary);
      SetCrowding(sorted, population[..], begin, end + 1, end, population[begin].crowding);
      population[end] := population[end].(crowding := population[begin].crowding);
      RecrowdedFit(sorted, population[..], begin, end + 1, signs);
    }

    /**
     * `nextPopulation`: walks the fronts in rank order, computing the
     * crowding distances of each front it reaches, adding whole fronts while
     * they fit, and stops at the boundary front `f`, the first whose members
     * reach or overflow the population size. When `f` overflows, it alone is
     * sorted by the crowded-comparison operator.
     */
    method NextPopulation() returns (size: int, f: nat, needCrowding: bool)
      requires Valid() && WellTiled(fronts, population.Length)
      modifies population
      ensures Valid()
      ensures f < |fronts| && size == SumCounters(fronts[..f])
      ensures size < popsize <= size + fronts[f].counter
      ensures needCrowding <==> size + fronts[f].counter > popsize
      ensures !needCrowding ==> CrowdedThrough(old(population[..]), population[..], fronts, f, |signs|)
      ensures needCrowding ==> SortedThrough(old(population[..]), population[..], fronts, f, |signs|)
    {
      var walked := fronts;
      ghost var was := population[..];
      size, f, needCrowding := WalkFronts(was, walked);
      if needCrowding {
        SortBoundary(was, walked, f);
      }
      assert fronts == walked;
    }

    /** The `std::sort` of the overflowing front `f` by the crowded-comparison operator. */
    method SortBoundary(ghost was: seq<Member>, walked: seq<Front>, f: nat)
      requires Valid() && WellTiled(walked, population.Length) && CrowdedThrough(was, population[..], walked, f, |signs|)
      modifies population
      ensures Valid() && SortedThrough(was, population[..], walked, f, |signs|)
    {
      ghost var crowded := population[..];
      SortFront(walked[f].begin, walked[f].end + 1);
      BoundarySorted(was, crowded, population[..], walked, f, |signs|);
    }

    /**
     * The loop of `nextPopulation`: computes the crowding distances of each
     * front it reaches and stops at the first front whose members reach or
     * overflow the population size.
     */
    method WalkFronts(ghost was: seq<Member>, walked: seq<Front>) returns (size: int, f: nat, needCrowding: bool)
      requires Valid() && WellTiled(walked, population.Length) && population[..] == was
      modifies population
      ensures Valid()
      ensures f < |walked| && size == SumCounters(walked[..f])
      ensures size < popsize <= size + walked[f].counter
      ensures needCrowding <==> size + walked[f].counter > popsize
      ensures CrowdedThrough(was, population[..], walked, f, |signs|)
    {
      size, f, needCrowding := 0, 0, false;
      while size < popsize
        invariant Valid() && WalkedTo(was, population[..], walked, f, |signs|)
        invariant size == walked[f].begin < popsize
        decreases |walked| - f
      {
        ghost var before := population[..];
        CrowdingDistance(walked[f].begin, walked[f].end);
        FrontStep(was, before, population[..], walked, f, |signs|);
        SumCountersIsBegin(walked, population.Length, f);
        if size + walked[f].counter > popsize {
          needCrowding := true;
          return;
        } else if size + walked[f].counter == popsize {
          return;
        }
        WalkAdvance(was, population[..], walked, f, |signs|);
        size := size + walked[f].counter;
        f := f + 1;
      }
    }

    /** The `std::sort` of one front by the crowded-comparison operator. */
    method SortFront(b: nat, e: nat)
      requires Valid() && b <= e <= population.Length
      modifies population
      ensures Valid()
      ensures SortsRange(old(population[..]), population[..], b, e, CrowdedLess)
    {
      ghost var was := population[..];
      CrowdedLessIsStrictWeakOrder();
      SortRange(population, b, e, CrowdedLess);
      SortsRangeEffect(was, population[..], b, e, CrowdedLess);
      SameMembersFit(was, population[..], signs);
    }

    /**
     * The choice rule of `binary_tournament`, given its two distinct random
     * draws from the parents: the first wins only with a strictly smaller
     * counter, so ties go to the second.
     */
    method BinaryTournament(ind1: nat, ind2: nat) returns (winner: nat)
      requires Valid() && ind1 < popsize && ind2 < popsize && ind1 != ind2
      ensures winner == ind1 || winner == ind2
      ensures winner < popsize
      ensures winner == ind1 <==> population[ind1].fitness < population[ind2].fitness
    {
      winner := if population[ind1].fitness < population[ind2].fitness then ind1 else ind2;
    }
  }
}
