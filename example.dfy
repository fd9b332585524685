/**
 * A worked example: task 0 (duration 1), tasks 1 (duration 2) and 2
 * (duration 3) after 0, and task 3 (duration 1) after 1 and 2.
 */
module Worked {
  import opened TaskGraph
  import opened Kahn
  import opened Timing
  import opened Paths

  const tasks: map<nat, Task> := map[0 := Task(0, 1, 0, 0, 0, 0), 1 := Task(1, 2, 0, 0, 0, 0),
                                     2 := Task(2, 3, 0, 0, 0, 0), 3 := Task(3, 1, 0, 0, 0, 0)]
  const preds: map<nat, seq<nat>> := map[0 := [], 1 := [0], 2 := [0], 3 := [1, 2]]
  const edges: map<nat, seq<nat>> := map[0 := [1, 2], 1 := [3], 2 := [3]]
  const order: seq<nat> := [0, 1, 2, 3]

  lemma Successors()
    ensures SuccOf(edges, 0) == [1, 2] && SuccOf(edges, 1) == [3] && SuccOf(edges, 2) == [3] && SuccOf(edges, 3) == []
    ensures forall u: nat | u > 2 :: SuccOf(edges, u) == []
  {
  }

  lemma WorkedWellFormed()
    ensures WellFormed(4, tasks, edges, preds) && SuccsRegistered(tasks, edges)
  {
    Successors();
    forall u: nat, v | v in tasks ensures Occ(v, SuccOf(edges, u)) >= Occ(u, PredsOf(preds, v)) {
      if u > 2 {
        OccPositive(u, PredsOf(preds, v));
      }
    }
  }

  /** The initial counts and queue: only task 0 has no incoming edge. */
  lemma Seed() returns (deg: map<nat, int>)
    ensures deg == InitialDegrees(tasks, edges, 4)
    ensures deg == map[0 := 0, 1 := 1, 2 := 1, 3 := 2]
    ensures ZeroCounted(deg, 4) == [0]
  {
    Successors();
    deg := InitialDegrees(tasks, edges, 4);
    assert InCount(edges, 0, {}, 4) == 0;
    assert InCount(edges, 1, {}, 4) == 1;
    assert InCount(edges, 2, {}, 4) == 1;
    assert InCount(edges, 3, {}, 4) == 2;
    assert ZeroCounted(deg, 1) == [0];
    assert ZeroCounted(deg, 2) == [0];
    assert ZeroCounted(deg, 3) == [0];
  }

  /** One release: the count drops by one, and the name is queued when it reaches zero. */
  lemma ReleaseOneAt(deg: map<nat, int>, q: seq<nat>, s: nat)
    requires s in deg
    ensures ReleaseOne(deg, q, s) == (deg[s := deg[s] - 1], if deg[s] == 1 then q + [s] else q)
  {
  }

  /** Releasing a single successor. */
  lemma ReleaseSingle(deg: map<nat, int>, q: seq<nat>, s: nat)
    requires s in deg
    ensures Release(deg, q, [s]) == ReleaseOne(deg, q, s)
  {
    assert [s][..0] == [];
  }

  /** One round: the front of the queue moves to the order and its successors are released. */
  lemma Round(deg: map<nat, int>, q: seq<nat>, done: seq<nat>, fuel: nat, deg': map<nat, int>, q': seq<nat>)
    requires forall u: nat, s | s in SuccOf(edges, u) :: s in deg
    requires q != [] && fuel > 0
    requires (deg', q') == Release(deg, q[1..], SuccOf(edges, q[0]))
    ensures Run(edges, deg, q, done, fuel) == Run(edges, deg', q', done + [q[0]], fuel - 1)
  {
  }

  lemma FirstRound(d0: map<nat, int>)
    requires d0 == map[0 := 0, 1 := 1, 2 := 1, 3 := 2]
    ensures Release(d0, [], [1, 2]) == (map[0 := 0, 1 := 0, 2 := 0, 3 := 2], [1, 2])
  {
    ReleaseSingle(d0, [], 1);
    assert [1, 2][..1] == [1];
    ReleaseOneAt(d0, [], 1);
    assert d0[1] == 1;
    var e: seq<nat> := [];
    assert e + [1] == [1];
    assert ReleaseOne(d0, [], 1) == (d0[1 := 0], [1]);
    assert Release(d0, [], [1]) == (d0[1 := 0], [1]);
    assert Release(d0, [], [1, 2]) == ReleaseOne(d0[1 := 0], [1], 2);
    ReleaseOneAt(d0[1 := 0], [1], 2);
    assert d0[1 := 0][2] == 1;
    var one: seq<nat> := [1];
    assert one + [2] == [1, 2];
    assert ReleaseOne(d0[1 := 0], [1], 2) == (d0[1 := 0][2 := 0], [1, 2]);
    assert d0[1 := 0][2 := 0] == map[0 := 0, 1 := 0, 2 := 0, 3 := 2];
  }

  /** Every successor has a count. */
  lemma Counted(deg: map<nat, int>)
    requires deg.Keys == {0, 1, 2, 3}
    ensures forall u: nat, s | s in SuccOf(edges, u) :: s in deg
  {
    Successors();
  }

  /** The last three rounds, after task 0 has released tasks 1 and 2. */
  lemma LaterRounds()
    ensures Run(edges, map[0 := 0, 1 := 0, 2 := 0, 3 := 2], [1, 2], [0], 3) == order
  {
    Successors();
    var d1: map<nat, int> := map[0 := 0, 1 := 0, 2 := 0, 3 := 2];
    var d2: map<nat, int> := map[0 := 0, 1 := 0, 2 := 0, 3 := 1];
    var d3: map<nat, int> := map[0 := 0, 1 := 0, 2 := 0, 3 := 0];
    Counted(d1);
    Counted(d2);
    Counted(d3);
    ReleaseSingle(d1, [2], 3);
    ReleaseOneAt(d1, [2], 3);
    assert d1[3 := 1] == d2;
    Round(d1, [1, 2], [0], 3, d2, [2]);
    ReleaseSingle(d2, [], 3);
    ReleaseOneAt(d2, [], 3);
    var e: seq<nat> := [];
    assert e + [3] == [3];
    assert d2[3 := 0] == d3;
    assert Release(d2, [], [3]) == (d3, [3]);
    assert [2][1..] == [] && [3][1..] == [];
    Round(d2, [2], [0, 1], 2, d3, [3]);
    assert Release(d3, [], []) == (d3, []);
    Round(d3, [3], [0, 1, 2], 1, d3, []);
  }

  /** Four tasks are registered. */
  lemma Count()
    ensures |tasks| == 4
  {
    assert tasks.Keys == {0, 1, 2, 3};
    assert |{0, 1, 2, 3}| == 4;
  }

  /** Kahn's algorithm starts from the counts and queue of `Seed`, for four rounds. */
  lemma Start()
    ensures SuccsRegistered(tasks, edges)
    ensures KahnSort(tasks, edges, 4) == Run(edges, map[0 := 0, 1 := 1, 2 := 1, 3 := 2], [0], [], 4)
  {
    WorkedWellFormed();
    Count();
    var d0 := Seed();
  }

  /** The four rounds of Kahn's algorithm. */
  lemma Sorted()
    ensures SuccsRegistered(tasks, edges)
    ensures KahnSort(tasks, edges, 4) == order
  {
    Start();
    Rounds();
  }

  /** The four rounds from the initial counts and queue. */
  lemma Rounds()
    ensures Run(edges, map[0 := 0, 1 := 1, 2 := 1, 3 := 2], [0], [], 4) == order
  {
    var d0: map<nat, int> := map[0 := 0, 1 := 1, 2 := 1, 3 := 2];
    Counted(d0);
    FirstRound(d0);
    Successors();
    var e: seq<nat> := [];
    assert [0][1..] == e && [0][0] == 0;
    Round(d0, [0], [], 4, map[0 := 0, 1 := 0, 2 := 0, 3 := 2], [1, 2]);
    LaterRounds();
  }

  /** After the forward pass. */
  const early: map<nat, Task> := map[0 := Task(0, 1, 0, 1, 0, 0), 1 := Task(1, 2, 1, 3, 0, 0),
                                     2 := Task(2, 3, 1, 4, 0, 0), 3 := Task(3, 1, 4, 5, 0, 0)]

  /** After both passes. */
  const final: map<nat, Task> := map[0 := Task(0, 1, 0, 1, 0, 1), 1 := Task(1, 2, 1, 3, 2, 4),
                                     2 := Task(2, 3, 1, 4, 1, 4), 3 := Task(3, 1, 4, 5, 4, 5)]

  lemma Early()
    ensures Forward(tasks, preds, order) == early
    ensures ProjectDuration(tasks, preds, order) == 5
  {
    assert order[..3] == [0, 1, 2] && [0, 1, 2][..2] == [0, 1] && [0, 1][..1] == [0] && [0][..0] == [];
    var f0 := ForwardStep(tasks, preds, 0);
    assert Forward(tasks, preds, [0]) == f0;
    var f1 := ForwardStep(f0, preds, 1);
    assert Forward(tasks, preds, [0, 1]) == f1;
    assert MaxFinish(f1, [0], 0) == 1;
    var f2 := ForwardStep(f1, preds, 2);
    assert Forward(tasks, preds, [0, 1, 2]) == f2;
    assert [1, 2][..1] == [1];
    assert MaxFinish(f2, [1, 2], 0) == 4;
    var f3 := ForwardStep(f2, preds, 3);
    assert f3 == early;
  }

  lemma Late()
    ensures Backward(early, edges, order, 5) == final
  {
    Successors();
    assert order[1..] == [1, 2, 3] && [1, 2, 3][1..] == [2, 3] && [2, 3][1..] == [3] && [3][1..] == [];
    var b3 := BackStep(early, edges, 3, 5);
    assert Backward(early, edges, [3], 5) == b3;
    var b2 := BackStep(b3, edges, 2, 5);
    assert MinStart(b3, [3], 5) == 4;
    assert Backward(early, edges, [2, 3], 5) == b2;
    var b1 := BackStep(b2, edges, 1, 5);
    assert MinStart(b2, [3], 5) == 4;
    assert Backward(early, edges, [1, 2, 3], 5) == b1;
    assert [1, 2][..1] == [1];
    assert MinStart(b1, [1, 2], 5) == 1;
    var b0 := BackStep(b1, edges, 0, 5);
    assert b0 == final;
  }

  /**
   * Calculating the example schedules the tasks, in the order 0, 1, 2, 3, with
   * earliest start and finish 0/1, 1/3, 1/4, 4/5, project duration 5 and
   * latest start 0, 2, 1, 4.
   */
  lemma WorkedSchedule()
    ensures WellFormed(4, tasks, edges, preds) && KahnSort(tasks, edges, 4) == order
    ensures ProjectDuration(tasks, preds, order) == 5
    ensures Schedule(tasks, preds, edges, order) == final
  {
    WorkedWellFormed();
    Sorted();
    Early();
    Late();
  }

  /** Exactly tasks 0, 2 and 3 have no slack, and task 1 has a slack of 1. */
  lemma WorkedCritical()
    ensures forall v | v in final :: final[v].earliestStart == final[v].latestStart <==> v in {0, 2, 3}
    ensures final[1].latestStart - final[1].earliestStart == 1
  {
  }

  lemma WorkedRanked()
    ensures Ranked(edges, 4, map[0 := 0, 1 := 1, 2 := 2, 3 := 3])
    ensures SourcesRanked(tasks, preds, map[0 := 0, 1 := 1, 2 := 2, 3 := 3])
  {
    Successors();
  }

  /** Paths from one successor, with `v` in front. */
  lemma Via(rank: map<nat, nat>, v: nat, s: nat, ps: seq<seq<nat>>)
    requires Ranked(edges, 4, rank) && v in rank && SuccOf(edges, v) != [] && s == SuccOf(edges, v)[0] && s in rank
    requires PathsFrom(edges, 4, rank, s) == ps
    ensures PathsVia(edges, 4, rank, v, [s]) == Prepend(v, ps)
  {
    assert s in SuccOf(edges, v);
    assert [s][..0] == [];
  }

  /** The walks from tasks 1, 2 and 3. */
  lemma FromLater(rank: map<nat, nat>)
    requires rank == map[0 := 0, 1 := 1, 2 := 2, 3 := 3]
    ensures Ranked(edges, 4, rank)
    ensures PathsFrom(edges, 4, rank, 1) == [[1, 3]] && PathsFrom(edges, 4, rank, 2) == [[2, 3]]
  {
    Successors();
    WorkedRanked();
    assert PathsFrom(edges, 4, rank, 3) == [[3]];
    Via(rank, 1, 3, [[3]]);
    assert [1] + [3] == [1, 3];
    assert Prepend(1, [[3]]) == [[1, 3]];
    Via(rank, 2, 3, [[3]]);
    assert [2] + [3] == [2, 3];
    assert Prepend(2, [[3]]) == [[2, 3]];
  }

  /** The walks from task 0: through task 1, then through task 2. */
  lemma FromFirst(rank: map<nat, nat>)
    requires rank == map[0 := 0, 1 := 1, 2 := 2, 3 := 3]
    ensures Ranked(edges, 4, rank)
    ensures PathsFrom(edges, 4, rank, 0) == [[0, 1, 3], [0, 2, 3]]
  {
    Successors();
    FromLater(rank);
    assert [1, 2][..1] == [1] && [1, 2][1] == 2;
    Via(rank, 0, 1, [[1, 3]]);
    assert [0] + [1, 3] == [0, 1, 3] && [0] + [2, 3] == [0, 2, 3];
    assert Prepend(0, [[1, 3]]) == [[0, 1, 3]];
    assert Prepend(0, [[2, 3]]) == [[0, 2, 3]];
    assert PathsVia(edges, 4, rank, 0, [1, 2]) == [[0, 1, 3]] + Prepend(0, PathsFrom(edges, 4, rank, 2));
  }

  /** Only task 0 has no predecessors, so the listing walks from task 0 alone. */
  lemma Listed(rank: map<nat, nat>)
    requires rank == map[0 := 0, 1 := 1, 2 := 2, 3 := 3]
    ensures Ranked(edges, 4, rank) && SourcesRanked(tasks, preds, rank)
    ensures SourcePaths(tasks, preds, edges, 4, rank, 4) == [[0, 1, 3], [0, 2, 3]]
  {
    WorkedRanked();
    FromFirst(rank);
    var e: seq<seq<nat>> := [];
    assert SourcePaths(tasks, preds, edges, 4, rank, 1) == e + [[0, 1, 3], [0, 2, 3]];
    assert PredsOf(preds, 1) == [0] && PredsOf(preds, 2) == [0] && PredsOf(preds, 3) == [1, 2];
    assert SourcePaths(tasks, preds, edges, 4, rank, 2) == [[0, 1, 3], [0, 2, 3]];
    assert SourcePaths(tasks, preds, edges, 4, rank, 3) == [[0, 1, 3], [0, 2, 3]];
  }

  /** The durations of the two walks. */
  lemma Durations()
    ensures SumDur(tasks, [0, 1, 3]) == 4 && SumDur(tasks, [0, 2, 3]) == 5
  {
    assert [0, 1, 3][1..] == [1, 3] && [1, 3][1..] == [3] && [3][1..] == [];
    assert [0, 2, 3][1..] == [2, 3] && [2, 3][1..] == [3];
    assert SumDur(tasks, [3]) == 1;
  }

  /** The listing reports the paths 0, 1, 3 (duration 4) and 0, 2, 3 (duration 5). */
  lemma WorkedPaths()
    ensures Ranked(edges, 4, map[0 := 0, 1 := 1, 2 := 2, 3 := 3])
    ensures SourcesRanked(tasks, preds, map[0 := 0, 1 := 1, 2 := 2, 3 := 3])
    ensures Reports(tasks, [], 0, SourcePaths(tasks, preds, edges, 4, map[0 := 0, 1 := 1, 2 := 2, 3 := 3], 4))
         == [PathReport([0, 1, 3], 4), PathReport([0, 2, 3], 5)]
  {
    var rank: map<nat, nat> := map[0 := 0, 1 := 1, 2 := 2, 3 := 3];
    Listed(rank);
    Durations();
    var r := Reports(tasks, [], 0, SourcePaths(tasks, preds, edges, 4, rank, 4));
    var e: seq<nat> := [];
    assert e + [0, 1, 3] == [0, 1, 3] && e + [0, 2, 3] == [0, 2, 3];
    assert |r| == 2 && r[0] == PathReport([0, 1, 3], 4) && r[1] == PathReport([0, 2, 3], 5);
    assert r == [r[0], r[1]];
  }
}
