/**
 * Paths of the task graph from a task to a task without successors, in the
 * order a depth-first walk meets them, and the reports (path, summed
 * duration) that the path listing produces for them.
 *
 * The walk only terminates when no cycle can be reached from where it
 * starts; here that is witnessed by a rank: a number below `n` for every
 * task of a region closed under successors, growing along every edge out of
 * the region. Cycles outside the region are allowed.
 */
module Paths {
  import opened TaskGraph

  /**
   * The keys of `rank` form a region closed under successors, every rank is
   * below `n`, and every edge out of a task of the region climbs in `rank`.
   */
  ghost predicate Ranked(g: map<nat, seq<nat>>, n: nat, rank: map<nat, nat>)
  {
    && (forall u | u in rank :: rank[u] < n)
    && (forall u: nat, s | u in rank && s in SuccOf(g, u) :: Climbs(rank, u, s))
  }

  /** `s` is ranked strictly above `u`. */
  ghost predicate Climbs(rank: map<nat, nat>, u: nat, s: nat)
  {
    u in rank && s in rank && rank[u] < rank[s]
  }

  /** Every registered task with an empty predecessor list, where the path listing starts, is ranked. */
  ghost predicate SourcesRanked(tasks: map<nat, Task>, preds: map<nat, seq<nat>>, rank: map<nat, nat>)
  {
    forall u | u in tasks && PredsOf(preds, u) == [] :: u in rank
  }

  /** Position of `u` in `order`; zero when `u` does not occur. */
  function IndexIn(order: seq<nat>, u: nat): (i: nat)
    ensures u in order ==> i < |order| && order[i] == u
    ensures u !in order ==> i == 0
  {
    if u !in order then 0
    else if order[0] == u then 0
    else
      assert u in order[1..] by {
        var k :| 0 <= k < |order| && order[k] == u;
        assert order[1..][k - 1] == u;
      }
      1 + IndexIn(order[1..], u)
  }

  /** Every registered task ranked by its position in `order`. */
  function RankOf(tasks: map<nat, Task>, order: seq<nat>): (rank: map<nat, nat>)
    ensures rank.Keys == tasks.Keys
    ensures forall u | u in tasks :: rank[u] == IndexIn(order, u)
  {
    map u | u in tasks :: IndexIn(order, u)
  }

  /** A set of names below `n` has at most `n` members. */
  lemma {:induction false} RangeCard(S: set<nat>, n: nat)
    requires forall x | x in S :: x < n
    ensures |S| <= n
  {
    if n > 0 {
      RangeCard(S - {n - 1}, n - 1);
    } else {
      assert S == {};
    }
  }

  /**
   * A Kahn order that holds every registered task ranks the whole registry:
   * every edge goes from an earlier to a later position.
   */
  lemma KahnRank(n: nat, tasks: map<nat, Task>, g: map<nat, seq<nat>>, preds: map<nat, seq<nat>>, order: seq<nat>)
    requires WellFormed(n, tasks, g, preds) && KahnOrder(tasks, g, order)
    requires forall v | v in tasks :: v in order
    ensures Ranked(g, n, RankOf(tasks, order)) && SourcesRanked(tasks, preds, RankOf(tasks, order))
  {
    var rank := RankOf(tasks, order);
    DistinctSetSize(order);
    RangeCard(Elems(order), n);
    forall u: nat, s | u in rank && s in SuccOf(g, u) ensures Climbs(rank, u, s) {
      assert u in tasks && s in tasks;
      var i := IndexIn(order, s);
      assert u in order[..i];
      var k :| 0 <= k < i && order[k] == u;
      assert IndexIn(order, u) == k;
    }
  }

  /** On an acyclic graph whose declared predecessors are registered, the positions in the Kahn order rank it. */
  lemma AcyclicRanked(n: nat, tasks: map<nat, Task>, g: map<nat, seq<nat>>, preds: map<nat, seq<nat>>, order: seq<nat>)
    requires WellFormed(n, tasks, g, preds) && KahnOrder(tasks, g, order)
    requires PredsRegistered(tasks, g) && Acyclic(tasks, g)
    ensures Ranked(g, n, RankOf(tasks, order)) && SourcesRanked(tasks, preds, RankOf(tasks, order))
  {
    KahnComplete(tasks, g, order);
    KahnRank(n, tasks, g, preds, order);
  }

  /** A nonempty walk along edges. */
  ghost predicate IsPath(g: map<nat, seq<nat>>, p: seq<nat>)
  {
    |p| > 0 && forall i | 0 <= i < |p| - 1 :: p[i + 1] in SuccOf(g, p[i])
  }

  /** A walk along edges that ends at a task without successors. */
  ghost predicate IsSinkPath(g: map<nat, seq<nat>>, p: seq<nat>)
  {
    IsPath(g, p) && SuccOf(g, p[|p| - 1]) == []
  }

  /** `v` put in front of every path of `ps`. */
  function Prepend(v: nat, ps: seq<seq<nat>>): (r: seq<seq<nat>>)
    ensures |r| == |ps|
    ensures forall i | 0 <= i < |ps| :: r[i] == [v] + ps[i]
  {
    seq(|ps|, i requires 0 <= i < |ps| => [v] + ps[i])
  }

  /**
   * The paths from `v` to a task without successors, in depth-first order:
   * `[v]` alone when `v` has no successors, otherwise the paths through each
   * successor in the order of the successor list.
   */
  function PathsFrom(g: map<nat, seq<nat>>, n: nat, rank: map<nat, nat>, v: nat): seq<seq<nat>>
    requires Ranked(g, n, rank) && v in rank
    decreases n - rank[v], 1, 0
  {
    var ss := SuccOf(g, v);
    if ss == [] then [[v]] else PathsVia(g, n, rank, v, ss)
  }

  /** The paths from `v` whose second task is one of `ss`, grouped by `ss` in order. */
  function PathsVia(g: map<nat, seq<nat>>, n: nat, rank: map<nat, nat>, v: nat, ss: seq<nat>): seq<seq<nat>>
    requires Ranked(g, n, rank) && v in rank
    requires forall s | s in ss :: s in SuccOf(g, v)
    decreases n - rank[v], 0, |ss|
  {
    if ss == [] then []
    else
      var s := ss[|ss| - 1];
      assert s in ss;
      PathsVia(g, n, rank, v, ss[..|ss| - 1]) + Prepend(v, PathsFrom(g, n, rank, s))
  }

  /** Every enumerated path starts at `v` and is a walk to a task without successors. */
  lemma {:induction false} PathsFromSound(g: map<nat, seq<nat>>, n: nat, rank: map<nat, nat>, v: nat, p: seq<nat>)
    requires Ranked(g, n, rank) && v in rank
    requires p in PathsFrom(g, n, rank, v)
    ensures IsSinkPath(g, p) && p[0] == v
    decreases n - rank[v], 1, 0
  {
    var ss := SuccOf(g, v);
    if ss != [] {
      PathsViaSound(g, n, rank, v, ss, p);
    }
  }

  lemma {:induction false} PathsViaSound(g: map<nat, seq<nat>>, n: nat, rank: map<nat, nat>, v: nat, ss: seq<nat>, p: seq<nat>)
    requires Ranked(g, n, rank) && v in rank
    requires forall s | s in ss :: s in SuccOf(g, v)
    requires p in PathsVia(g, n, rank, v, ss)
    ensures IsSinkPath(g, p) && p[0] == v
    decreases n - rank[v], 0, |ss|
  {
    var init := ss[..|ss| - 1];
    var s := ss[|ss| - 1];
    assert s in ss;
    if p in PathsVia(g, n, rank, v, init) {
      PathsViaSound(g, n, rank, v, init, p);
    } else {
      var qs := PathsFrom(g, n, rank, s);
      var i :| 0 <= i < |qs| && p == [v] + qs[i];
      PathsFromSound(g, n, rank, s, qs[i]);
      PrependPath(g, v, qs[i]);
    }
  }

  /** A walk that starts at a successor of `v` extends to a walk from `v`. */
  lemma PrependPath(g: map<nat, seq<nat>>, v: nat, q: seq<nat>)
    requires IsSinkPath(g, q) && q[0] in SuccOf(g, v)
    ensures IsSinkPath(g, [v] + q)
  {
    var p := [v] + q;
    forall i | 0 <= i < |p| - 1 ensures p[i + 1] in SuccOf(g, p[i]) {
      if i > 0 {
        assert p[i] == q[i - 1] && p[i + 1] == q[i];
      }
    }
  }

  /** Every walk from `v` to a task without successors is enumerated. */
  lemma {:induction false} PathsFromComplete(g: map<nat, seq<nat>>, n: nat, rank: map<nat, nat>, v: nat, p: seq<nat>)
    requires Ranked(g, n, rank) && v in rank
    requires IsSinkPath(g, p) && p[0] == v
    ensures p in PathsFrom(g, n, rank, v)
    decreases n - rank[v]
  {
    var ss := SuccOf(g, v);
    if ss == [] {
      assert p == [v];
    } else {
      assert |p| > 1;
      var s := p[1];
      assert s in SuccOf(g, p[0]);
      var q := p[1..];
      assert IsSinkPath(g, q) by {
        forall i | 0 <= i < |q| - 1 ensures q[i + 1] in SuccOf(g, q[i]) {
          assert q[i] == p[i + 1] && q[i + 1] == p[i + 2];
        }
      }
      PathsFromComplete(g, n, rank, s, q);
      assert p == [v] + q;
      PathsViaContains(g, n, rank, v, ss, s, q);
    }
  }

  /** Through a successor `s` listed in `ss`, every path from `s` appears with `v` in front. */
  lemma {:induction false} PathsViaContains(g: map<nat, seq<nat>>, n: nat, rank: map<nat, nat>, v: nat, ss: seq<nat>, s: nat, q: seq<nat>)
    requires Ranked(g, n, rank) && v in rank
    requires forall x | x in ss :: x in SuccOf(g, v)
    requires s in ss && s in SuccOf(g, v) && q in PathsFrom(g, n, rank, s)
    ensures [v] + q in PathsVia(g, n, rank, v, ss)
    decreases |ss|
  {
    var init := ss[..|ss| - 1];
    var last := ss[|ss| - 1];
    if s == last {
      var qs := PathsFrom(g, n, rank, s);
      var i :| 0 <= i < |qs| && qs[i] == q;
      assert Prepend(v, qs)[i] == [v] + q;
    } else {
      assert s in init;
      PathsViaContains(g, n, rank, v, init, s, q);
    }
  }

  // ---------------------------------------------------------------------
  // Reports

  /** One line of the path listing: a path and its total duration. */
  datatype PathReport = PathReport(path: seq<nat>, duration: int)

  /** Duration of a task; a name that is not registered counts as zero. */
  function DurationOf(tasks: map<nat, Task>, x: nat): int
  {
    if x in tasks then tasks[x].duration else 0
  }

  /** Sum of the durations of the tasks of `p`. */
  function SumDur(tasks: map<nat, Task>, p: seq<nat>): int
  {
    if p == [] then 0 else DurationOf(tasks, p[0]) + SumDur(tasks, p[1..])
  }

  /** The reports for `ps` after a walk `prefix` whose durations add up to `total`. */
  function Reports(tasks: map<nat, Task>, prefix: seq<nat>, total: int, ps: seq<seq<nat>>): (r: seq<PathReport>)
    ensures |r| == |ps|
    ensures forall i | 0 <= i < |ps| :: r[i] == PathReport(prefix + ps[i], total + SumDur(tasks, ps[i]))
  {
    seq(|ps|, i requires 0 <= i < |ps| => PathReport(prefix + ps[i], total + SumDur(tasks, ps[i])))
  }

  lemma ReportsAppend(tasks: map<nat, Task>, prefix: seq<nat>, total: int, ps: seq<seq<nat>>, qs: seq<seq<nat>>)
    ensures Reports(tasks, prefix, total, ps + qs) == Reports(tasks, prefix, total, ps) + Reports(tasks, prefix, total, qs)
  {
  }

  /** Moving `v` from the front of every path to the end of the prefix leaves the reports unchanged. */
  lemma ReportsPrepend(tasks: map<nat, Task>, prefix: seq<nat>, total: int, v: nat, ps: seq<seq<nat>>)
    ensures Reports(tasks, prefix, total, Prepend(v, ps)) == Reports(tasks, prefix + [v], total + DurationOf(tasks, v), ps)
  {
    forall i | 0 <= i < |ps| ensures prefix + ([v] + ps[i]) == (prefix + [v]) + ps[i] && SumDur(tasks, [v] + ps[i]) == DurationOf(tasks, v) + SumDur(tasks, ps[i]) {
      assert ([v] + ps[i])[1..] == ps[i];
    }
  }

  /**
   * The paths the listing walks: for every registered name in ascending
   * order that has an empty predecessor list, the paths from it.
   */
  function SourcePaths(tasks: map<nat, Task>, preds: map<nat, seq<nat>>, g: map<nat, seq<nat>>, n: nat, rank: map<nat, nat>, k: nat): seq<seq<nat>>
    requires Ranked(g, n, rank) && SourcesRanked(tasks, preds, rank) && k <= n
  {
    if k == 0 then []
    else
      var u := k - 1;
      SourcePaths(tasks, preds, g, n, rank, u) + (if u in tasks && PredsOf(preds, u) == [] then PathsFrom(g, n, rank, u) else [])
  }

  /** A path the listing walks starts at a registered task with no predecessors and ends at one without successors. */
  lemma {:induction false} SourcePathsSound(tasks: map<nat, Task>, preds: map<nat, seq<nat>>, g: map<nat, seq<nat>>, n: nat, rank: map<nat, nat>, k: nat, p: seq<nat>)
    requires Ranked(g, n, rank) && SourcesRanked(tasks, preds, rank) && k <= n
    requires p in SourcePaths(tasks, preds, g, n, rank, k)
    ensures IsSinkPath(g, p) && p[0] in tasks && PredsOf(preds, p[0]) == []
  {
    var u := k - 1;
    if p in SourcePaths(tasks, preds, g, n, rank, u) {
      SourcePathsSound(tasks, preds, g, n, rank, u, p);
    } else {
      PathsFromSound(g, n, rank, u, p);
    }
  }

  /** Every walk from a registered task with no predecessors to one without successors is walked. */
  lemma {:induction false} SourcePathsComplete(tasks: map<nat, Task>, preds: map<nat, seq<nat>>, g: map<nat, seq<nat>>, n: nat, rank: map<nat, nat>, k: nat, p: seq<nat>)
    requires Ranked(g, n, rank) && SourcesRanked(tasks, preds, rank) && k <= n
    requires IsSinkPath(g, p) && p[0] < k && p[0] in tasks && PredsOf(preds, p[0]) == []
    ensures p in SourcePaths(tasks, preds, g, n, rank, k)
  {
    var u := k - 1;
    if p[0] == u {
      PathsFromComplete(g, n, rank, u, p);
    } else {
      SourcePathsComplete(tasks, preds, g, n, rank, u, p);
    }
  }

  // ---------------------------------------------------------------------
  // Each path once

  /** No path occurs twice in `ps`. */
  ghost predicate DistinctPaths(ps: seq<seq<nat>>)
  {
    forall i, j | 0 <= i < j < |ps| :: ps[i] != ps[j]
  }

  /** Every successor list of the ranked region names each successor once. */
  ghost predicate SuccsDistinct(g: map<nat, seq<nat>>, rank: map<nat, nat>)
  {
    forall u | u in rank :: Distinct(SuccOf(g, u))
  }

  lemma DistinctAppend(ps: seq<seq<nat>>, qs: seq<seq<nat>>)
    requires DistinctPaths(ps) && DistinctPaths(qs)
    requires forall p, q | p in ps && q in qs :: p != q
    ensures DistinctPaths(ps + qs)
  {
    forall i, j | 0 <= i < j < |ps + qs| ensures (ps + qs)[i] != (ps + qs)[j] {
      if j >= |ps| && i < |ps| {
        assert (ps + qs)[i] in ps && (ps + qs)[j] in qs;
      }
    }
  }

  lemma PrependDistinct(v: nat, ps: seq<seq<nat>>)
    requires DistinctPaths(ps)
    ensures DistinctPaths(Prepend(v, ps))
  {
    var r := Prepend(v, ps);
    forall i, j | 0 <= i < j < |r| ensures r[i] != r[j] {
      assert r[i][1..] == ps[i] && r[j][1..] == ps[j];
    }
  }

  /** A path through one of `ss` has one of `ss` as its second task. */
  lemma {:induction false} PathsViaSecond(g: map<nat, seq<nat>>, n: nat, rank: map<nat, nat>, v: nat, ss: seq<nat>, p: seq<nat>)
    requires Ranked(g, n, rank) && v in rank
    requires forall s | s in ss :: s in SuccOf(g, v)
    requires p in PathsVia(g, n, rank, v, ss)
    ensures |p| > 1 && p[1] in ss
    decreases |ss|
  {
    var init := ss[..|ss| - 1];
    var s := ss[|ss| - 1];
    assert s in ss;
    if p in PathsVia(g, n, rank, v, init) {
      assert forall x | x in init :: x in ss;
      PathsViaSecond(g, n, rank, v, init, p);
    } else {
      var qs := PathsFrom(g, n, rank, s);
      var i :| 0 <= i < |qs| && p == [v] + qs[i];
      PathsFromSound(g, n, rank, s, qs[i]);
    }
  }

  /** When no successor is listed twice, the walk meets every path once. */
  lemma {:induction false} PathsFromDistinct(g: map<nat, seq<nat>>, n: nat, rank: map<nat, nat>, v: nat)
    requires Ranked(g, n, rank) && v in rank && SuccsDistinct(g, rank)
    ensures DistinctPaths(PathsFrom(g, n, rank, v))
    decreases n - rank[v], 1, 0
  {
    var ss := SuccOf(g, v);
    if ss != [] {
      PathsViaDistinct(g, n, rank, v, ss);
    }
  }

  lemma {:induction false} PathsViaDistinct(g: map<nat, seq<nat>>, n: nat, rank: map<nat, nat>, v: nat, ss: seq<nat>)
    requires Ranked(g, n, rank) && v in rank && SuccsDistinct(g, rank)
    requires forall s | s in ss :: s in SuccOf(g, v)
    requires Distinct(ss)
    ensures DistinctPaths(PathsVia(g, n, rank, v, ss))
    decreases n - rank[v], 0, |ss|
  {
    if ss != [] {
      var init := ss[..|ss| - 1];
      var s := ss[|ss| - 1];
      assert s in ss;
      assert Climbs(rank, v, s);
      assert s !in init by {
        forall k | 0 <= k < |init| ensures init[k] != s {
          assert init[k] == ss[k];
        }
      }
      PathsViaDistinct(g, n, rank, v, init);
      var qs := PathsFrom(g, n, rank, s);
      PathsFromDistinct(g, n, rank, s);
      PrependDistinct(v, qs);
      forall p, q | p in PathsVia(g, n, rank, v, init) && q in Prepend(v, qs) ensures p != q {
        PathsViaSecond(g, n, rank, v, init, p);
        var i :| 0 <= i < |qs| && q == [v] + qs[i];
        PathsFromSound(g, n, rank, s, qs[i]);
        assert q[1] == s;
      }
      DistinctAppend(PathsVia(g, n, rank, v, init), Prepend(v, qs));
    }
  }

  /** Every path the listing walks starts at a name below `k`. */
  lemma {:induction false} SourcePathsBelow(tasks: map<nat, Task>, preds: map<nat, seq<nat>>, g: map<nat, seq<nat>>, n: nat, rank: map<nat, nat>, k: nat, p: seq<nat>)
    requires Ranked(g, n, rank) && SourcesRanked(tasks, preds, rank) && k <= n
    requires p in SourcePaths(tasks, preds, g, n, rank, k)
    ensures |p| > 0 && p[0] < k
  {
    var u := k - 1;
    if p in SourcePaths(tasks, preds, g, n, rank, u) {
      SourcePathsBelow(tasks, preds, g, n, rank, u, p);
    } else {
      PathsFromSound(g, n, rank, u, p);
    }
  }

  /** When no successor is listed twice, the listing walks every path once. */
  lemma {:induction false} SourcePathsDistinct(tasks: map<nat, Task>, preds: map<nat, seq<nat>>, g: map<nat, seq<nat>>, n: nat, rank: map<nat, nat>, k: nat)
    requires Ranked(g, n, rank) && SourcesRanked(tasks, preds, rank) && k <= n && SuccsDistinct(g, rank)
    ensures DistinctPaths(SourcePaths(tasks, preds, g, n, rank, k))
  {
    if k > 0 {
      var u := k - 1;
      var before := SourcePaths(tasks, preds, g, n, rank, u);
      SourcePathsDistinct(tasks, preds, g, n, rank, u);
      if u in tasks && PredsOf(preds, u) == [] {
        var qs := PathsFrom(g, n, rank, u);
        PathsFromDistinct(g, n, rank, u);
        forall p, q | p in before && q in qs ensures p != q {
          SourcePathsBelow(tasks, preds, g, n, rank, u, p);
          PathsFromSound(g, n, rank, u, q);
        }
        DistinctAppend(before, qs);
      } else {
        assert SourcePaths(tasks, preds, g, n, rank, k) == before + [];
      }
    }
  }

  // ---------------------------------------------------------------------
  // A cycle the listing never reaches

  /** Task 0 on its own, and tasks 1 and 2 waiting on each other. */
  const apart: map<nat, Task> := map[0 := Task(0, 1, 0, 0, 0, 0), 1 := Task(1, 1, 0, 0, 0, 0), 2 := Task(2, 1, 0, 0, 0, 0)]
  const apartPreds: map<nat, seq<nat>> := map[0 := [], 1 := [2], 2 := [1]]
  const apartEdges: map<nat, seq<nat>> := map[1 := [2], 2 := [1]]

  lemma ApartValid()
    ensures WellFormed(3, apart, apartEdges, apartPreds)
  {
    forall u: nat, v | v in apart ensures Occ(v, SuccOf(apartEdges, u)) >= Occ(u, PredsOf(apartPreds, v)) {
      if u == 1 {
        assert SuccOf(apartEdges, u) == [2];
      } else if u == 2 {
        assert SuccOf(apartEdges, u) == [1];
      } else {
        assert SuccOf(apartEdges, u) == [];
        assert u !in PredsOf(apartPreds, v);
        OccPositive(u, PredsOf(apartPreds, v));
      }
    }
  }

  lemma ApartRanked()
    ensures Ranked(apartEdges, 3, map[0 := 0]) && SourcesRanked(apart, apartPreds, map[0 := 0])
  {
    assert SuccOf(apartEdges, 0) == [];
  }

  lemma ApartListed()
    ensures Ranked(apartEdges, 3, map[0 := 0]) && SourcesRanked(apart, apartPreds, map[0 := 0])
    ensures SourcePaths(apart, apartPreds, apartEdges, 3, map[0 := 0], 3) == [[0]]
  {
    ApartRanked();
    var rank := map[0 := 0];
    assert SuccOf(apartEdges, 0) == [];
    assert PathsFrom(apartEdges, 3, rank, 0) == [[0]];
    assert SourcePaths(apart, apartPreds, apartEdges, 3, rank, 1) == [[0]];
    assert SourcePaths(apart, apartPreds, apartEdges, 3, rank, 2) == [[0]];
  }

  /**
   * A cycle that no task with an empty predecessor list reaches does not stop
   * the listing: the rank covers task 0 alone, and the listing reports the
   * single path [0].
   */
  lemma UnreachableCycleListed()
    ensures WellFormed(3, apart, apartEdges, apartPreds) && IsCycle(apartEdges, [1, 2])
    ensures Ranked(apartEdges, 3, map[0 := 0]) && SourcesRanked(apart, apartPreds, map[0 := 0])
    ensures SourcePaths(apart, apartPreds, apartEdges, 3, map[0 := 0], 3) == [[0]]
  {
    ApartValid();
    ApartListed();
    assert SuccOf(apartEdges, 1) == [2] && SuccOf(apartEdges, 2) == [1];
  }

  // ---------------------------------------------------------------------
  // A predecessor listed twice

  /** Task 1 lists task 0 twice, so task 0's successor list holds task 1 twice. */
  const twice: map<nat, Task> := map[0 := Task(0, 1, 0, 0, 0, 0), 1 := Task(1, 1, 0, 0, 0, 0)]
  const twicePreds: map<nat, seq<nat>> := map[0 := [], 1 := [0, 0]]
  const twiceEdges: map<nat, seq<nat>> := map[0 := [1, 1]]

  lemma TwiceValid()
    ensures WellFormed(2, twice, twiceEdges, twicePreds)
  {
    forall u: nat, v | v in twice ensures Occ(v, SuccOf(twiceEdges, u)) >= Occ(u, PredsOf(twicePreds, v)) {
      if u == 0 {
        assert SuccOf(twiceEdges, u) == [1, 1];
      } else {
        assert SuccOf(twiceEdges, u) == [];
        OccPositive(u, PredsOf(twicePreds, v));
      }
    }
  }

  lemma TwiceRanked()
    ensures Ranked(twiceEdges, 2, map[0 := 0, 1 := 1]) && SourcesRanked(twice, twicePreds, map[0 := 0, 1 := 1])
    ensures !SuccsDistinct(twiceEdges, map[0 := 0, 1 := 1])
  {
    assert SuccOf(twiceEdges, 0) == [1, 1] && SuccOf(twiceEdges, 1) == [];
    assert PredsOf(twicePreds, 1) == [0, 0];
    assert SuccOf(twiceEdges, 0)[0] == SuccOf(twiceEdges, 0)[1];
    assert !Distinct(SuccOf(twiceEdges, 0));
  }

  /**
   * A predecessor listed twice duplicates the edge, and the listing walks
   * the path through it twice: [0, 1] and again [0, 1].
   */
  lemma TwiceListed()
    ensures WellFormed(2, twice, twiceEdges, twicePreds)
    ensures Ranked(twiceEdges, 2, map[0 := 0, 1 := 1]) && SourcesRanked(twice, twicePreds, map[0 := 0, 1 := 1])
    ensures !SuccsDistinct(twiceEdges, map[0 := 0, 1 := 1])
    ensures SourcePaths(twice, twicePreds, twiceEdges, 2, map[0 := 0, 1 := 1], 2) == [[0, 1], [0, 1]]
  {
    TwiceValid();
    TwiceRanked();
    var rank := map[0 := 0, 1 := 1];
    assert SuccOf(twiceEdges, 0) == [1, 1] && SuccOf(twiceEdges, 1) == [];
    assert PathsFrom(twiceEdges, 2, rank, 1) == [[1]];
    assert [1, 1][..1] == [1] && [1][..0] == [];
    assert [0] + [1] == [0, 1];
    assert Prepend(0, [[1]]) == [[0, 1]];
    assert PathsVia(twiceEdges, 2, rank, 0, [1]) == [[0, 1]];
    assert PathsVia(twiceEdges, 2, rank, 0, [1, 1]) == [[0, 1], [0, 1]];
    assert PathsFrom(twiceEdges, 2, rank, 0) == [[0, 1], [0, 1]];
    var e: seq<seq<nat>> := [];
    assert SourcePaths(twice, twicePreds, twiceEdges, 2, rank, 1) == e + [[0, 1], [0, 1]];
  }
}
