/**
 * The CPM scheduler object: a registry of tasks and the two adjacency maps,
 * updated in place by registration and by the time propagation.
 */
module Cpm {
  import opened TaskGraph
  import opened Timing
  import opened Paths
  import opened Kahn

  /** The path under construction during the depth-first path listing. */
  class PathBuffer {
    var items: seq<nat>

    constructor ()
      ensures items == []
    {
      items := [];
    }

    method Push(x: nat)
      modifies this
      ensures items == old(items) + [x]
    {
      items := items + [x];
    }

    method Pop()
      requires items != []
      modifies this
      ensures items == old(items)[..|old(items)| - 1]
    {
      items := items[..|items| - 1];
    }
  }

  class CPM {
    /** Names are the numbers below `n`, in ascending name order. */
    const n: nat
    var tasks: map<nat, Task>
    var graph: map<nat, seq<nat>>
    var predecessors: map<nat, seq<nat>>

    ghost predicate Valid()
      reads this
    {
      WellFormed(n, tasks, graph, predecessors)
    }

    constructor (n: nat)
      ensures Valid()
      ensures this.n == n && tasks == map[] && graph == map[] && predecessors == map[]
    {
      this.n := n;
      tasks := map[];
      graph := map[];
      predecessors := map[];
    }

    /**
     * Registers `name` with `duration` and all timing fields zero, records its
     * predecessor list, and appends `name` to the successor list of every
     * listed predecessor, once per listing; no other successor list changes.
     */
    method AddTask(name: nat, duration: int, preds: seq<nat>)
      requires Valid()
      requires name < n
      requires forall p | p in preds :: p < n
      modifies this
      ensures Valid()
      ensures tasks == old(tasks)[name := Task(name, duration, 0, 0, 0, 0)]
      ensures predecessors == old(predecessors)[name := preds]
      ensures Appended(n, old(graph), graph, name, preds)
      ensures name !in old(tasks) && EdgesDeclared(old(graph), old(predecessors)) ==> EdgesDeclared(graph, predecessors)
    {
      tasks := tasks[name := Task(name, duration, 0, 0, 0, 0)];
      predecessors := predecessors[name := preds];
      var i := 0;
      assert preds[..i] == [];
      while i < |preds|
        invariant 0 <= i <= |preds|
        invariant tasks == old(tasks)[name := Task(name, duration, 0, 0, 0, 0)]
        invariant predecessors == old(predecessors)[name := preds]
        invariant Appended(n, old(graph), graph, name, preds[..i])
      {
        var pred := preds[i];
        assert pred in preds;
        AppendStep(n, old(graph), graph, name, preds, i);
        graph := graph[pred := SuccOf(graph, pred) + [name]];
        i := i + 1;
      }
      assert preds[..i] == preds;
      AddTaskKeepsValid(n, old(tasks), old(graph), old(predecessors), graph, name, duration, preds);
      if name !in old(tasks) && EdgesDeclared(old(graph), old(predecessors)) {
        AddKeepsDeclared(n, old(tasks), old(graph), old(predecessors), graph, name, preds);
      }
    }

    /**
     * Kahn's algorithm: counts each task's incoming edges, queues the tasks
     * with none in ascending name order, and repeatedly moves the front of
     * the queue to the order, queueing each successor whose count drops to
     * zero. Tasks on a cycle, or behind an unregistered predecessor, are left
     * out of the order.
     */
    method TopologicalSort() returns (order: seq<nat>)
      requires Valid()
      ensures order == KahnSort(tasks, graph, n)
      ensures KahnOrder(tasks, graph, order)
    {
      var inDegree := CountInDegrees();
      var q := SeedQueue(inDegree);
      order := [];
      ghost var done: set<nat> := {};
      KahnStart(tasks, graph, n, inDegree, q);
      RunStart(tasks, graph, n, inDegree, q);
      while q != []
        invariant KahnInv(tasks, graph, n, order, done, inDegree, q)
        invariant RunsTo(tasks, graph, n, inDegree, q, order)
        decreases tasks.Keys - done
      {
        var task := q[0];
        KahnRound(tasks, graph, n, order, done, inDegree, q);
        q := q[1..];
        order := order + [task];
        done := done + {task};
        inDegree, q := ReleaseSuccessors(task, inDegree, q);
      }
      KahnEnd(tasks, graph, n, order, done, inDegree);
      RunEnd(tasks, graph, n, inDegree, order);
    }

    /**
     * The two passes of the method over the topological order: every ordered
     * task gets its earliest times from its predecessors, then, with the
     * earliest finish of the last ordered task as project duration, its
     * latest times from its successors. The schedule is the one `Schedule`
     * gives for the order `KahnSort` produces.
     */
    method Calculate()
      requires Valid()
      requires exists v :: v in tasks && NoInEdge(graph, v)
      modifies this
      ensures Valid()
      ensures graph == old(graph) && predecessors == old(predecessors)
      ensures KahnOrder(old(tasks), graph, KahnSort(old(tasks), graph, n)) && KahnSort(old(tasks), graph, n) != []
      ensures tasks == Schedule(old(tasks), predecessors, graph, KahnSort(old(tasks), graph, n))
    {
      var topoOrder := TopologicalSort();
      PassesReady(n, tasks, graph, predecessors, topoOrder);
      ForwardPass(topoOrder);
      var projectDuration := tasks[topoOrder[|topoOrder| - 1]].earliestFinish;
      BackwardPass(topoOrder, projectDuration);
      PassesDone(n, old(tasks), tasks, graph, predecessors, topoOrder, projectDuration);
    }

    /** The forward pass: earliest start and finish of every task of `topo`, front to back. */
    method ForwardPass(topo: seq<nat>)
      requires forall t | t in topo :: t in tasks
      requires predecessors.Keys == tasks.Keys
      requires Distinct(topo) && PredsEarlier(predecessors, topo)
      modifies this
      ensures tasks == Forward(old(tasks), predecessors, topo)
      ensures graph == old(graph) && predecessors == old(predecessors)
    {
      var i := 0;
      while i < |topo|
        invariant 0 <= i <= |topo|
        invariant tasks == Forward(old(tasks), predecessors, topo[..i])
        invariant graph == old(graph) && predecessors == old(predecessors)
      {
        var name := topo[i];
        ghost var base := tasks;
        var ps := predecessors[name];
        var j := 0;
        while j < |ps|
          invariant 0 <= j <= |ps|
          invariant tasks == Raised(base, name, ps, j)
          invariant graph == old(graph) && predecessors == old(predecessors)
        {
          var pred := ps[j];
          EarlierPred(predecessors, topo, i, j);
          RaiseStep(base, name, ps, j);
          var es := tasks[name].earliestStart;
          var ef := tasks[pred].earliestFinish;
          tasks := tasks[name := tasks[name].(earliestStart := if es >= ef then es else ef)];
          j := j + 1;
        }
        var task := tasks[name];
        task := task.(earliestFinish := task.earliestStart + task.duration);
        RaiseFinish(base, predecessors, name, ps, tasks, task);
        tasks := tasks[name := task];
        ForwardExtend(old(tasks), predecessors, topo, i, base, tasks);
        i := i + 1;
      }
      assert topo[..i] == topo;
    }

    /** The backward pass: latest finish and start of every task of `topo`, back to front. */
    method BackwardPass(topo: seq<nat>, projectDuration: int)
      requires forall t | t in topo :: t in tasks
      requires SuccsRegistered(tasks, graph)
      requires Distinct(topo) && SuccsLater(graph, topo)
      modifies this
      ensures tasks == Backward(old(tasks), graph, topo, projectDuration)
      ensures graph == old(graph) && predecessors == old(predecessors)
    {
      var i := |topo|;
      while i > 0
        invariant 0 <= i <= |topo|
        invariant tasks == Backward(old(tasks), graph, topo[i..], projectDuration)
        invariant graph == old(graph) && predecessors == old(predecessors)
      {
        var name := topo[i - 1];
        ghost var base := tasks;
        tasks := tasks[name := tasks[name].(latestFinish := projectDuration)];
        var ss := SuccOf(graph, name);
        var j := 0;
        while j < |ss|
          invariant 0 <= j <= |ss|
          invariant tasks == Lowered(base, name, ss, j, projectDuration)
          invariant graph == old(graph) && predecessors == old(predecessors)
        {
          var succ := ss[j];
          LaterSucc(tasks, graph, topo, i - 1, j);
          LowerStep(base, name, ss, j, projectDuration);
          var lf := tasks[name].latestFinish;
          var ls := tasks[succ].latestStart;
          tasks := tasks[name := tasks[name].(latestFinish := if ls < lf then ls else lf)];
          j := j + 1;
        }
        var task := tasks[name];
        task := task.(latestStart := task.latestFinish - task.duration);
        LowerFinish(base, graph, name, projectDuration, tasks, task);
        tasks := tasks[name := task];
        BackwardExtend(old(tasks), graph, topo, i - 1, projectDuration, base, tasks);
        i := i - 1;
      }
    }

    /**
     * The names of the tasks whose earliest and latest start coincide, in
     * ascending name order.
     */
    method GetCriticalPath() returns (criticalPath: seq<nat>)
      requires forall k | k in tasks :: k < n
      ensures forall i, j | 0 <= i < j < |criticalPath| :: criticalPath[i] < criticalPath[j]
      ensures forall v | v in criticalPath :: v in tasks && tasks[v].earliestStart == tasks[v].latestStart
      ensures forall v | v in tasks && tasks[v].earliestStart == tasks[v].latestStart :: v in criticalPath
    {
      criticalPath := [];
      var k := 0;
      while k < n
        invariant 0 <= k <= n
        invariant forall i, j | 0 <= i < j < |criticalPath| :: criticalPath[i] < criticalPath[j]
        invariant forall v | v in criticalPath :: v < k && v in tasks && tasks[v].earliestStart == tasks[v].latestStart
        invariant forall v | v < k && v in tasks && tasks[v].earliestStart == tasks[v].latestStart :: v in criticalPath
      {
        if k in tasks && tasks[k].earliestStart == tasks[k].latestStart {
          assert forall i | 0 <= i < |criticalPath| :: criticalPath[i] in criticalPath;
          criticalPath := criticalPath + [k];
        }
        k := k + 1;
      }
    }

    /**
     * Lists every path from a task with an empty predecessor list to a task
     * without successors, source by source in ascending name order, each
     * with the sum of its durations. The lines the listing prints are
     * returned instead. A path is listed once for each way of choosing its
     * edges from the successor lists, so it is listed once when no list
     * names a successor twice.
     */
    method DisplayAllPaths(ghost rank: map<nat, nat>) returns (found: seq<PathReport>)
      requires Valid() && Ranked(graph, n, rank) && SourcesRanked(tasks, predecessors, rank)
      ensures found == Reports(tasks, [], 0, SourcePaths(tasks, predecessors, graph, n, rank, n))
      ensures forall r | r in found ::
        && IsSinkPath(graph, r.path) && r.path[0] in tasks && predecessors[r.path[0]] == []
        && r.duration == SumDur(tasks, r.path)
      ensures forall p | IsSinkPath(graph, p) && p[0] in tasks && predecessors[p[0]] == [] :: PathReport(p, SumDur(tasks, p)) in found
      ensures SuccsDistinct(graph, rank) ==> forall i, j | 0 <= i < j < |found| :: found[i].path != found[j].path
    {
      var path := new PathBuffer();
      var totalDuration := 0;
      found := [];
      var k := 0;
      while k < n
        invariant 0 <= k <= n
        invariant fresh(path) && path.items == []
        invariant found == Reports(tasks, [], 0, SourcePaths(tasks, predecessors, graph, n, rank, k))
      {
        if k in tasks && predecessors[k] == [] {
          var more := FindPaths(k, path, totalDuration, rank);
          ReportsAppend(tasks, [], 0, SourcePaths(tasks, predecessors, graph, n, rank, k), PathsFrom(graph, n, rank, k));
          found := found + more;
        }
        k := k + 1;
      }
      ListedPaths(n, tasks, graph, predecessors, rank, found);
    }

    /**
     * The depth-first walk from `current`: pushes it on the path, adds its
     * duration, reports the path when `current` has no successors and walks
     * each successor otherwise, then pops it again.
     */
    method FindPaths(current: nat, path: PathBuffer, totalDuration: int, ghost rank: map<nat, nat>) returns (found: seq<PathReport>)
      requires Valid() && Ranked(graph, n, rank) && current in tasks && current in rank
      modifies path
      ensures path.items == old(path.items)
      ensures found == Reports(tasks, old(path.items), totalDuration, PathsFrom(graph, n, rank, current))
      decreases n - rank[current]
    {
      path.Push(current);
      var total := totalDuration + tasks[current].duration;
      var successors := SuccOf(graph, current);
      if successors == [] {
        found := [PathReport(path.items, total)];
        LeafReport(tasks, graph, n, rank, current, old(path.items), totalDuration);
      } else {
        found := [];
        var j := 0;
        while j < |successors|
          invariant 0 <= j <= |successors|
          invariant path.items == old(path.items) + [current]
          invariant found == Reports(tasks, old(path.items), totalDuration, PathsVia(graph, n, rank, current, successors[..j]))
        {
          var succ := successors[j];
          assert succ in tasks;
          WalkStep(tasks, graph, n, rank, current, successors, j, old(path.items), totalDuration);
          var more := FindPaths(succ, path, total, rank);
          found := found + more;
          j := j + 1;
        }
        assert successors[..j] == successors;
      }
      path.Pop();
    }

    /** The in-degree count of every registered task: its incoming edges, with multiplicity. */
    method CountInDegrees() returns (inDegree: map<nat, int>)
      requires SuccsRegistered(tasks, graph)
      ensures inDegree.Keys == tasks.Keys
      ensures forall v | v in tasks :: inDegree[v] == InCount(graph, v, {}, n)
    {
      inDegree := map name | name in tasks :: 0;
      var u := 0;
      while u < n
        invariant 0 <= u <= n
        invariant Counted(tasks, graph, u, [], inDegree)
      {
        var successors := SuccOf(graph, u);
        var j := 0;
        assert successors[..j] == [];
        while j < |successors|
          invariant 0 <= j <= |successors|
          invariant Counted(tasks, graph, u, successors[..j], inDegree)
        {
          var succ := successors[j];
          ghost var d := inDegree;
          assert succ in tasks;
          inDegree := inDegree[succ := inDegree[succ] + 1];
          CountStep(tasks, graph, d, inDegree, u, successors, j);
          j := j + 1;
        }
        CountRow(tasks, graph, inDegree, u, j);
        u := u + 1;
      }
    }

    /** The initial queue: every registered task with in-degree zero, in ascending name order. */
    method SeedQueue(inDegree: map<nat, int>) returns (q: seq<nat>)
      requires inDegree.Keys == tasks.Keys
      requires forall k | k in tasks :: k < n
      ensures forall i, j | 0 <= i < j < |q| :: q[i] < q[j]
      ensures forall x | x in q :: x in tasks && inDegree[x] == 0
      ensures forall v | v in tasks && inDegree[v] == 0 :: v in q
      ensures q == ZeroCounted(inDegree, n)
    {
      q := [];
      var k := 0;
      while k < n
        invariant 0 <= k <= n
        invariant q == ZeroCounted(inDegree, k)
      {
        if k in inDegree && inDegree[k] == 0 {
          q := q + [k];
        }
        k := k + 1;
      }
      ZeroCountedSpec(inDegree, n);
    }

    /**
     * The inner loop of Kahn's algorithm, after `task` has moved to the order:
     * decrements the count of each of its successors and queues the ones
     * whose count reaches zero.
     */
    method ReleaseSuccessors(task: nat, inDegree: map<nat, int>, q: seq<nat>)
      returns (inDegree': map<nat, int>, q': seq<nat>)
      requires forall s | s in SuccOf(graph, task) :: s in inDegree
      ensures (inDegree', q') == Release(inDegree, q, SuccOf(graph, task))
    {
      inDegree', q' := inDegree, q;
      var successors := SuccOf(graph, task);
      var j := 0;
      assert successors[..j] == [];
      while j < |successors|
        invariant 0 <= j <= |successors|
        invariant inDegree'.Keys == inDegree.Keys
        invariant (inDegree', q') == Release(inDegree, q, successors[..j])
      {
        var succ := successors[j];
        assert successors[..j + 1][..j] == successors[..j];
        inDegree' := inDegree'[succ := inDegree'[succ] - 1];
        if inDegree'[succ] == 0 {
          q' := q' + [succ];
        }
        j := j + 1;
      }
      assert successors[..j] == successors;
    }
  }

  /** `t` after its earliest start has been raised past the first `j` tasks of `ps`. */
  ghost function Raised(m: map<nat, Task>, t: nat, ps: seq<nat>, j: nat): map<nat, Task>
    requires t in m && j <= |ps|
  {
    m[t := m[t].(earliestStart := MaxFinish(m, ps[..j], m[t].earliestStart))]
  }

  lemma RaiseStep(m: map<nat, Task>, t: nat, ps: seq<nat>, j: nat)
    requires t in m && j < |ps| && ps[j] in m && ps[j] != t
    ensures var cur := Raised(m, t, ps, j);
      var es := cur[t].earliestStart;
      var ef := cur[ps[j]].earliestFinish;
      Raised(m, t, ps, j + 1) == cur[t := cur[t].(earliestStart := if es >= ef then es else ef)]
  {
    assert ps[..j + 1][..j] == ps[..j];
  }

  /** Raising past every declared predecessor and then setting the finish is one forward step. */
  lemma RaiseFinish(m: map<nat, Task>, preds: map<nat, seq<nat>>, t: nat, ps: seq<nat>, r: map<nat, Task>, task: Task)
    requires t in m && ps == PredsOf(preds, t) && r == Raised(m, t, ps, |ps|)
    requires task == r[t].(earliestFinish := r[t].earliestStart + r[t].duration)
    ensures r[t := task] == ForwardStep(m, preds, t)
  {
    assert ps[..|ps|] == ps;
  }

  /** The forward pass over one more task of the order is one more step. */
  lemma ForwardExtend(m: map<nat, Task>, preds: map<nat, seq<nat>>, order: seq<nat>, i: nat, base: map<nat, Task>, r: map<nat, Task>)
    requires forall t | t in order :: t in m
    requires i < |order| && base == Forward(m, preds, order[..i])
    requires r == ForwardStep(base, preds, order[i])
    ensures r == Forward(m, preds, order[..i + 1])
  {
    assert order[..i + 1][..i] == order[..i];
  }

  /** `t` after its latest finish has been lowered below the first `j` tasks of `ss`, starting from `pd`. */
  ghost function Lowered(m: map<nat, Task>, t: nat, ss: seq<nat>, j: nat, pd: int): map<nat, Task>
    requires t in m && j <= |ss|
  {
    m[t := m[t].(latestFinish := MinStart(m, ss[..j], pd))]
  }

  lemma LowerStep(m: map<nat, Task>, t: nat, ss: seq<nat>, j: nat, pd: int)
    requires t in m && j < |ss| && ss[j] in m && ss[j] != t
    ensures var cur := Lowered(m, t, ss, j, pd);
      var lf := cur[t].latestFinish;
      var ls := cur[ss[j]].latestStart;
      Lowered(m, t, ss, j + 1, pd) == cur[t := cur[t].(latestFinish := if ls < lf then ls else lf)]
  {
    assert ss[..j + 1][..j] == ss[..j];
  }

  /** Lowering below every successor and then setting the start is one backward step. */
  lemma LowerFinish(m: map<nat, Task>, g: map<nat, seq<nat>>, t: nat, pd: int, r: map<nat, Task>, task: Task)
    requires t in m && r == Lowered(m, t, SuccOf(g, t), |SuccOf(g, t)|, pd)
    requires task == r[t].(latestStart := r[t].latestFinish - r[t].duration)
    ensures r[t := task] == BackStep(m, g, t, pd)
  {
    var ss := SuccOf(g, t);
    assert ss[..|ss|] == ss;
  }

  /** The backward pass over one more task of the order, from the back, is one more step. */
  lemma BackwardExtend(m: map<nat, Task>, g: map<nat, seq<nat>>, order: seq<nat>, i: nat, pd: int, base: map<nat, Task>, r: map<nat, Task>)
    requires forall t | t in order :: t in m
    requires i < |order| && base == Backward(m, g, order[i + 1..], pd)
    requires r == BackStep(base, g, order[i], pd)
    ensures r == Backward(m, g, order[i..], pd)
  {
    assert order[i..][1..] == order[i + 1..];
  }

  /** The reports of the walk through one more successor extend those of the walk so far. */
  lemma WalkStep(tasks: map<nat, Task>, g: map<nat, seq<nat>>, n: nat, rank: map<nat, nat>, v: nat, ss: seq<nat>, j: nat,
                 prefix: seq<nat>, total: int)
    requires Ranked(g, n, rank) && v in rank && ss == SuccOf(g, v) && j < |ss|
    ensures ss[j] in rank && rank[v] < rank[ss[j]] < n
    ensures Reports(tasks, prefix, total, PathsVia(g, n, rank, v, ss[..j + 1]))
         == Reports(tasks, prefix, total, PathsVia(g, n, rank, v, ss[..j]))
          + Reports(tasks, prefix + [v], total + DurationOf(tasks, v), PathsFrom(g, n, rank, ss[j]))
  {
    assert ss[j] in SuccOf(g, v);
    assert ss[..j + 1][..j] == ss[..j];
    assert ss[..j + 1][j] == ss[j];
    ReportsAppend(tasks, prefix, total, PathsVia(g, n, rank, v, ss[..j]), Prepend(v, PathsFrom(g, n, rank, ss[j])));
    ReportsPrepend(tasks, prefix, total, v, PathsFrom(g, n, rank, ss[j]));
  }

  /** A task without successors is reported alone, with its own duration added. */
  lemma LeafReport(tasks: map<nat, Task>, g: map<nat, seq<nat>>, n: nat, rank: map<nat, nat>, v: nat, prefix: seq<nat>, total: int)
    requires Ranked(g, n, rank) && v in rank && SuccOf(g, v) == [] && v in tasks
    ensures Reports(tasks, prefix, total, PathsFrom(g, n, rank, v)) == [PathReport(prefix + [v], total + tasks[v].duration)]
  {
    assert PathsFrom(g, n, rank, v) == [[v]];
    assert [v][1..] == [];
    assert SumDur(tasks, [v]) == tasks[v].duration;
    assert Reports(tasks, prefix, total, [[v]])[0] == PathReport(prefix + [v], total + tasks[v].duration);
  }

  /** The listed reports are exactly the walks from sources to sinks, each with its summed duration. */
  lemma ListedPaths(n: nat, tasks: map<nat, Task>, g: map<nat, seq<nat>>, preds: map<nat, seq<nat>>, rank: map<nat, nat>, found: seq<PathReport>)
    requires WellFormed(n, tasks, g, preds) && Ranked(g, n, rank) && SourcesRanked(tasks, preds, rank)
    requires found == Reports(tasks, [], 0, SourcePaths(tasks, preds, g, n, rank, n))
    ensures forall r | r in found ::
      && IsSinkPath(g, r.path) && r.path[0] in tasks && preds[r.path[0]] == []
      && r.duration == SumDur(tasks, r.path)
    ensures forall p | IsSinkPath(g, p) && p[0] in tasks && preds[p[0]] == [] :: PathReport(p, SumDur(tasks, p)) in found
    ensures SuccsDistinct(g, rank) ==> forall i, j | 0 <= i < j < |found| :: found[i].path != found[j].path
  {
    var ps := SourcePaths(tasks, preds, g, n, rank, n);
    if SuccsDistinct(g, rank) {
      SourcePathsDistinct(tasks, preds, g, n, rank, n);
      forall i, j | 0 <= i < j < |found| ensures found[i].path != found[j].path {
        assert [] + ps[i] == ps[i] && [] + ps[j] == ps[j];
      }
    }
    forall r | r in found
      ensures IsSinkPath(g, r.path) && r.path[0] in tasks && preds[r.path[0]] == [] && r.duration == SumDur(tasks, r.path)
    {
      var i :| 0 <= i < |found| && found[i] == r;
      assert [] + ps[i] == ps[i];
      SourcePathsSound(tasks, preds, g, n, rank, n, ps[i]);
    }
    forall p | IsSinkPath(g, p) && p[0] in tasks && preds[p[0]] == [] ensures PathReport(p, SumDur(tasks, p)) in found {
      SourcePathsComplete(tasks, preds, g, n, rank, n, p);
      var i :| 0 <= i < |ps| && ps[i] == p;
      assert [] + ps[i] == ps[i];
      assert found[i] == PathReport(p, SumDur(tasks, p));
    }
  }

  /** The `j`-th declared predecessor of `order[i]` is an earlier, hence different, task of the order. */
  lemma EarlierPred(preds: map<nat, seq<nat>>, order: seq<nat>, i: nat, j: nat)
    requires Distinct(order) && PredsEarlier(preds, order)
    requires i < |order| && j < |PredsOf(preds, order[i])|
    ensures PredsOf(preds, order[i])[j] in order && PredsOf(preds, order[i])[j] != order[i]
  {
    var p := PredsOf(preds, order[i])[j];
    assert p in order[..i];
  }

  /** The `j`-th successor of `order[i]` is registered and different from it. */
  lemma LaterSucc(tasks: map<nat, Task>, g: map<nat, seq<nat>>, order: seq<nat>, i: nat, j: nat)
    requires SuccsRegistered(tasks, g) && SuccsLater(g, order)
    requires i < |order| && j < |SuccOf(g, order[i])|
    ensures SuccOf(g, order[i])[j] in tasks && SuccOf(g, order[i])[j] != order[i]
  {
    var s := SuccOf(g, order[i])[j];
    assert s in SuccOf(g, order[i]);
    assert s !in order[..i + 1];
    assert order[..i + 1][i] == order[i];
  }

  /** A Kahn order that holds a task without incoming edges meets what both passes need. */
  lemma PassesReady(n: nat, tasks: map<nat, Task>, g: map<nat, seq<nat>>, preds: map<nat, seq<nat>>, order: seq<nat>)
    requires WellFormed(n, tasks, g, preds) && KahnOrder(tasks, g, order)
    requires exists v :: v in tasks && NoInEdge(g, v)
    ensures order != [] && forall t | t in order :: t in tasks
    ensures preds.Keys == tasks.Keys && SuccsRegistered(tasks, g)
    ensures Distinct(order) && PredsEarlier(preds, order) && SuccsLater(g, order)
  {
    KahnPredsEarlier(n, tasks, g, preds, order);
    KahnSuccsLater(tasks, g, order);
    var v :| v in tasks && NoInEdge(g, v);
    assert AllSourcesIn(g, v, order);
  }

  /** The two passes, run one after the other, leave the schedule of the order and a well-formed registry. */
  lemma PassesDone(n: nat, tasks: map<nat, Task>, tasks': map<nat, Task>, g: map<nat, seq<nat>>, preds: map<nat, seq<nat>>,
                   order: seq<nat>, pd: int)
    requires WellFormed(n, tasks, g, preds)
    requires order != [] && forall t | t in order :: t in tasks
    requires pd == Forward(tasks, preds, order)[order[|order| - 1]].earliestFinish
    requires tasks' == Backward(Forward(tasks, preds, order), g, order, pd)
    ensures WellFormed(n, tasks', g, preds)
    ensures tasks' == Schedule(tasks, preds, g, order)
  {
    ForwardKeeps(tasks, preds, order);
    BackwardKeeps(Forward(tasks, preds, order), g, order, pd);
    RetimedKeepsValid(n, tasks, tasks', g, preds);
  }

  /** Changing only timing fields keeps the registry well formed. */
  lemma RetimedKeepsValid(n: nat, tasks: map<nat, Task>, tasks': map<nat, Task>, g: map<nat, seq<nat>>, preds: map<nat, seq<nat>>)
    requires WellFormed(n, tasks, g, preds)
    requires tasks'.Keys == tasks.Keys && forall k | k in tasks :: tasks'[k].name == tasks[k].name
    ensures WellFormed(n, tasks', g, preds)
  {
  }

  /**
   * The state of Kahn's algorithm between two pops: the order so far is
   * distinct, registered and topological, `done` holds its elements, and
   * the counts and the queue are as `ReleaseInv` describes with nothing
   * left to release.
   */
  ghost predicate KahnInv(tasks: map<nat, Task>, g: map<nat, seq<nat>>, n: nat, order: seq<nat>, done: set<nat>,
                          inDegree: map<nat, int>, q: seq<nat>)
  {
    && (forall u | u in g :: u < n)
    && SuccsRegistered(tasks, g)
    && Distinct(order) && (forall x | x in order :: x in tasks)
    && (forall x :: x in done <==> x in order)
    && Topological(g, order)
    && ReleaseInv(tasks, g, n, order, done, [], 0, inDegree, q)
  }

  /** The counted in-degrees and the seeded queue start the main loop. */
  lemma KahnStart(tasks: map<nat, Task>, g: map<nat, seq<nat>>, n: nat, inDegree: map<nat, int>, q: seq<nat>)
    requires (forall u | u in g :: u < n) && SuccsRegistered(tasks, g)
    requires inDegree.Keys == tasks.Keys
    requires forall v | v in tasks :: inDegree[v] == InCount(g, v, {}, n)
    requires forall i, j | 0 <= i < j < |q| :: q[i] < q[j]
    requires forall x | x in q :: x in tasks && inDegree[x] == 0
    requires forall v | v in tasks && inDegree[v] == 0 :: v in q
    ensures KahnInv(tasks, g, n, [], {}, inDegree, q)
  {
    var e: seq<nat> := []; assert e[0..] == e;
    forall v | v in q ensures AllSourcesIn(g, v, []) {
      SourcesDone(n, g, v, {}, []);
    }
  }

  /**
   * One round of the main loop: the front of the queue is a registered task
   * not yet ordered, and ordering it and releasing its successors keeps both
   * the state invariant and the way to the result of `KahnSort`.
   */
  lemma KahnRound(tasks: map<nat, Task>, g: map<nat, seq<nat>>, n: nat, order: seq<nat>, done: set<nat>,
                  inDegree: map<nat, int>, q: seq<nat>)
    requires KahnInv(tasks, g, n, order, done, inDegree, q) && q != []
    requires RunsTo(tasks, g, n, inDegree, q, order)
    ensures q[0] in tasks && q[0] !in done
    ensures forall s | s in SuccOf(g, q[0]) :: s in inDegree
    ensures var p := Release(inDegree, q[1..], SuccOf(g, q[0]));
      && KahnInv(tasks, g, n, order + [q[0]], done + {q[0]}, p.0, p.1)
      && RunsTo(tasks, g, n, p.0, p.1, order + [q[0]])
  {
    var t := q[0];
    var ss := SuccOf(g, t);
    KahnPop(tasks, g, n, order, done, inDegree, q);
    OrderRoom(tasks, order, t);
    assert ss[..0] == [];
    var d, qq := ReleaseFold(tasks, g, n, order + [t], done + {t}, ss, inDegree, q[1..], 0, inDegree, q[1..]);
    ReleaseDone(tasks, g, n, order + [t], done + {t}, ss, d, qq);
    RunPop(tasks, g, n, inDegree, q, order, d, qq);
  }

  /** Popping the front of the queue readies the release of its successors. */
  lemma KahnPop(tasks: map<nat, Task>, g: map<nat, seq<nat>>, n: nat, order: seq<nat>, done: set<nat>,
                inDegree: map<nat, int>, q: seq<nat>)
    requires KahnInv(tasks, g, n, order, done, inDegree, q) && q != []
    ensures q[0] in tasks && q[0] !in done
    ensures KahnInv'(tasks, g, n, order + [q[0]], done + {q[0]}, SuccOf(g, q[0]), inDegree, q[1..])
  {
    var t := q[0];
    assert t in q;
    forall v | v in tasks ensures InCount(g, v, done + {t}, n) + Occ(v, SuccOf(g, t)) == InCount(g, v, done, n) {
      InCountDone(g, v, done, t, n);
    }
    PopKeepsTopological(g, order, t);
    assert SuccOf(g, t)[0..] == SuccOf(g, t);
    var e: seq<nat> := []; assert e[0..] == e;
  }

  /** `KahnInv` while the successors of the last ordered task are still to be released. */
  ghost predicate KahnInv'(tasks: map<nat, Task>, g: map<nat, seq<nat>>, n: nat, order: seq<nat>, done: set<nat>,
                           successors: seq<nat>, inDegree: map<nat, int>, q: seq<nat>)
  {
    && (forall u | u in g :: u < n)
    && SuccsRegistered(tasks, g)
    && Distinct(order) && (forall x | x in order :: x in tasks)
    && (forall x :: x in done <==> x in order)
    && Topological(g, order)
    && ReleaseInv(tasks, g, n, order, done, successors, 0, inDegree, q)
  }

  /**
   * The main loop, from the current counts, queue and order, with one round
   * left for every registered task not yet ordered, ends where `KahnSort` does.
   */
  ghost predicate RunsTo(tasks: map<nat, Task>, g: map<nat, seq<nat>>, n: nat, inDegree: map<nat, int>, q: seq<nat>, order: seq<nat>)
  {
    && SuccsRegistered(tasks, g)
    && inDegree.Keys == tasks.Keys
    && |order| <= |tasks|
    && Run(g, inDegree, q, order, |tasks| - |order|) == KahnSort(tasks, g, n)
  }

  /** The counted in-degrees and the seeded queue are where `KahnSort` starts. */
  lemma RunStart(tasks: map<nat, Task>, g: map<nat, seq<nat>>, n: nat, inDegree: map<nat, int>, q: seq<nat>)
    requires SuccsRegistered(tasks, g)
    requires inDegree.Keys == tasks.Keys
    requires forall v | v in tasks :: inDegree[v] == InCount(g, v, {}, n)
    requires q == ZeroCounted(inDegree, n)
    ensures RunsTo(tasks, g, n, inDegree, q, [])
  {
    DegreesExact(tasks, g, n, inDegree);
  }

  /** One round of the main loop is one step of `Run`. */
  lemma RunPop(tasks: map<nat, Task>, g: map<nat, seq<nat>>, n: nat, inDegree: map<nat, int>, q: seq<nat>, order: seq<nat>,
               inDegree': map<nat, int>, q': seq<nat>)
    requires RunsTo(tasks, g, n, inDegree, q, order)
    requires q != [] && |order| < |tasks|
    requires (inDegree', q') == Release(inDegree, q[1..], SuccOf(g, q[0]))
    ensures RunsTo(tasks, g, n, inDegree', q', order + [q[0]])
  {
    RunStep(g, inDegree, q, order, |tasks| - |order|, inDegree', q');
  }

  /** `Run` with fuel left and a nonempty queue takes one step. */
  lemma RunStep(g: map<nat, seq<nat>>, inDegree: map<nat, int>, q: seq<nat>, order: seq<nat>, fuel: nat,
                inDegree': map<nat, int>, q': seq<nat>)
    requires forall u: nat, s | s in SuccOf(g, u) :: s in inDegree
    requires q != [] && fuel > 0
    requires (inDegree', q') == Release(inDegree, q[1..], SuccOf(g, q[0]))
    ensures inDegree'.Keys == inDegree.Keys
    ensures Run(g, inDegree, q, order, fuel) == Run(g, inDegree', q', order + [q[0]], fuel - 1)
  {
  }

  /** When the queue runs empty the order is the one `KahnSort` produces. */
  lemma RunEnd(tasks: map<nat, Task>, g: map<nat, seq<nat>>, n: nat, inDegree: map<nat, int>, order: seq<nat>)
    requires RunsTo(tasks, g, n, inDegree, [], order)
    ensures order == KahnSort(tasks, g, n)
  {
  }

  /** A registered task outside a distinct registered order leaves room for one more round. */
  lemma OrderRoom(tasks: map<nat, Task>, order: seq<nat>, t: nat)
    requires Distinct(order) && forall x | x in order :: x in tasks
    requires t in tasks && t !in order
    ensures |order| < |tasks|
  {
    DistinctSetSize(order);
    var rest := tasks.Keys - Elems(order);
    assert t in rest;
    assert tasks.Keys == Elems(order) + rest;
    assert Elems(order) * rest == {};
  }

  /** With an empty queue the order is a Kahn order. */
  lemma KahnEnd(tasks: map<nat, Task>, g: map<nat, seq<nat>>, n: nat, order: seq<nat>, done: set<nat>, inDegree: map<nat, int>)
    requires KahnInv(tasks, g, n, order, done, inDegree, [])
    ensures KahnOrder(tasks, g, order)
  {
    forall v | v in tasks && AllSourcesIn(g, v, order) ensures v in order {
      SourcesCounted(n, g, v, done, order);
      var e: seq<nat> := []; assert e[0..] == e;
    }
  }

  /**
   * The state of Kahn's algorithm while the successors `successors[j..]` of
   * the task just ordered still have to be released: the counts are exact,
   * a count is zero exactly for ordered or queued tasks, and every queued
   * task has all its sources ordered.
   */
  ghost predicate ReleaseInv(tasks: map<nat, Task>, g: map<nat, seq<nat>>, n: nat, order: seq<nat>, done: set<nat>,
                             successors: seq<nat>, j: nat, inDegree: map<nat, int>, q: seq<nat>)
  {
    && j <= |successors|
    && inDegree.Keys == tasks.Keys
    && QueueFresh(tasks, order, q)
    && CountsExact(tasks, g, n, done, successors[j..], inDegree)
    && ZeroExactly(tasks, order, inDegree, q)
    && QueueReady(g, order, q)
  }

  /** The queue holds distinct registered tasks that are not yet ordered. */
  ghost predicate QueueFresh(tasks: map<nat, Task>, order: seq<nat>, q: seq<nat>)
  {
    Distinct(q) && forall x | x in q :: x in tasks && x !in order
  }

  /** Each count is the number of edges from unordered tasks plus those still `pending` release. */
  ghost predicate CountsExact(tasks: map<nat, Task>, g: map<nat, seq<nat>>, n: nat, done: set<nat>, pending: seq<nat>, inDegree: map<nat, int>)
    requires inDegree.Keys == tasks.Keys
  {
    forall v | v in tasks :: inDegree[v] == InCount(g, v, done, n) + Occ(v, pending)
  }

  /** A count is zero exactly for the ordered and the queued tasks. */
  ghost predicate ZeroExactly(tasks: map<nat, Task>, order: seq<nat>, inDegree: map<nat, int>, q: seq<nat>)
    requires inDegree.Keys == tasks.Keys
  {
    forall v | v in tasks :: inDegree[v] == 0 <==> v in order || v in q
  }

  /** Every queued task has all its sources ordered. */
  ghost predicate QueueReady(g: map<nat, seq<nat>>, order: seq<nat>, q: seq<nat>)
  {
    forall v | v in q :: AllSourcesIn(g, v, order)
  }

  lemma ReleaseStep(tasks: map<nat, Task>, g: map<nat, seq<nat>>, n: nat, order: seq<nat>, done: set<nat>,
                    successors: seq<nat>, j: nat, inDegree: map<nat, int>, q: seq<nat>, inDegree': map<nat, int>, q': seq<nat>)
    requires forall u | u in g :: u < n
    requires forall x :: x in done <==> x in order
    requires ReleaseInv(tasks, g, n, order, done, successors, j, inDegree, q)
    requires j < |successors| && successors[j] in tasks
    requires inDegree' == inDegree[successors[j] := inDegree[successors[j]] - 1]
    requires q' == if inDegree'[successors[j]] == 0 then q + [successors[j]] else q
    ensures ReleaseInv(tasks, g, n, order, done, successors, j + 1, inDegree', q')
  {
    var succ := successors[j];
    ReleaseCounts(tasks, g, n, done, successors, j, inDegree, inDegree');
    ReleaseQueue(tasks, order, succ, inDegree, q, inDegree', q');
    if inDegree'[succ] == 0 {
      SourcesDone(n, g, succ, done, order);
    }
    ReleaseSources(g, order, succ, q, q');
  }

  /**
   * Releasing the successors from position `j` on, from a state that has
   * released the ones before `j`, keeps the state of Kahn's algorithm, one
   * successor at a time.
   */
  lemma ReleaseFold(tasks: map<nat, Task>, g: map<nat, seq<nat>>, n: nat, order: seq<nat>, done: set<nat>,
                    successors: seq<nat>, inDegree: map<nat, int>, q: seq<nat>, j: nat, d: map<nat, int>, qq: seq<nat>)
    returns (inDegree': map<nat, int>, q': seq<nat>)
    requires forall u | u in g :: u < n
    requires forall x :: x in done <==> x in order
    requires forall s | s in successors :: s in tasks
    requires inDegree.Keys == tasks.Keys
    requires ReleaseInv(tasks, g, n, order, done, successors, j, d, qq)
    requires (d, qq) == Release(inDegree, q, successors[..j])
    ensures (inDegree', q') == Release(inDegree, q, successors)
    ensures ReleaseInv(tasks, g, n, order, done, successors, |successors|, inDegree', q')
    decreases |successors| - j
  {
    if j == |successors| {
      assert successors[..j] == successors;
      inDegree', q' := d, qq;
    } else {
      var d', qq' := ReleaseOneKeeps(tasks, g, n, order, done, successors, j, d, qq);
      ReleaseSnoc(inDegree, q, successors, j);
      inDegree', q' := ReleaseFold(tasks, g, n, order, done, successors, inDegree, q, j + 1, d', qq');
    }
  }

  /** Releasing `successors[j]` is one `ReleaseOne` and keeps the state of Kahn's algorithm. */
  lemma ReleaseOneKeeps(tasks: map<nat, Task>, g: map<nat, seq<nat>>, n: nat, order: seq<nat>, done: set<nat>,
                        successors: seq<nat>, j: nat, d: map<nat, int>, qq: seq<nat>)
    returns (d': map<nat, int>, qq': seq<nat>)
    requires forall u | u in g :: u < n
    requires forall x :: x in done <==> x in order
    requires ReleaseInv(tasks, g, n, order, done, successors, j, d, qq)
    requires j < |successors| && successors[j] in tasks
    ensures successors[j] in d && (d', qq') == ReleaseOne(d, qq, successors[j])
    ensures ReleaseInv(tasks, g, n, order, done, successors, j + 1, d', qq')
  {
    var succ := successors[j];
    d' := d[succ := d[succ] - 1];
    qq' := if d'[succ] == 0 then qq + [succ] else qq;
    ReleaseStep(tasks, g, n, order, done, successors, j, d, qq, d', qq');
    ReleaseOneIs(d, qq, succ, d', qq');
  }

  lemma ReleaseOneIs(d: map<nat, int>, qq: seq<nat>, succ: nat, d': map<nat, int>, qq': seq<nat>)
    requires succ in d
    requires d' == d[succ := d[succ] - 1]
    requires qq' == if d'[succ] == 0 then qq + [succ] else qq
    ensures (d', qq') == ReleaseOne(d, qq, succ)
  {
  }

  /** Releasing one more successor is one more `ReleaseOne`. */
  lemma ReleaseSnoc(inDegree: map<nat, int>, q: seq<nat>, successors: seq<nat>, j: nat)
    requires j < |successors| && forall s | s in successors :: s in inDegree
    ensures forall s | s in successors[..j] :: s in inDegree
    ensures Release(inDegree, q, successors[..j + 1])
         == ReleaseOne(Release(inDegree, q, successors[..j]).0, Release(inDegree, q, successors[..j]).1, successors[j])
  {
    assert successors[..j + 1][..j] == successors[..j];
  }

  /** Queueing a task whose count drops to zero keeps the queue exactly the unordered zero-count tasks. */
  lemma ReleaseQueue(tasks: map<nat, Task>, order: seq<nat>, succ: nat,
                     inDegree: map<nat, int>, q: seq<nat>, inDegree': map<nat, int>, q': seq<nat>)
    requires succ in tasks && inDegree.Keys == tasks.Keys && inDegree[succ] > 0
    requires QueueFresh(tasks, order, q) && ZeroExactly(tasks, order, inDegree, q)
    requires inDegree' == inDegree[succ := inDegree[succ] - 1]
    requires q' == if inDegree'[succ] == 0 then q + [succ] else q
    ensures inDegree'.Keys == tasks.Keys
    ensures QueueFresh(tasks, order, q') && ZeroExactly(tasks, order, inDegree', q')
  {
    assert succ !in order && succ !in q;
  }

  /** A task queued by the release has all its sources ordered, like the rest of the queue. */
  lemma ReleaseSources(g: map<nat, seq<nat>>, order: seq<nat>, succ: nat, q: seq<nat>, q': seq<nat>)
    requires QueueReady(g, order, q)
    requires q' == q || (q' == q + [succ] && AllSourcesIn(g, succ, order))
    ensures QueueReady(g, order, q')
  {
  }

  /** Decrementing the count of `successors[j]` accounts for one fewer pending edge. */
  lemma ReleaseCounts(tasks: map<nat, Task>, g: map<nat, seq<nat>>, n: nat, done: set<nat>,
                      successors: seq<nat>, j: nat, inDegree: map<nat, int>, inDegree': map<nat, int>)
    requires j < |successors| && successors[j] in tasks && inDegree.Keys == tasks.Keys
    requires CountsExact(tasks, g, n, done, successors[j..], inDegree)
    requires inDegree' == inDegree[successors[j] := inDegree[successors[j]] - 1]
    ensures inDegree[successors[j]] > 0
    ensures inDegree'[successors[j]] == 0 ==> InCount(g, successors[j], done, n) == 0
    ensures CountsExact(tasks, g, n, done, successors[j + 1..], inDegree')
  {
    forall v | v in tasks ensures inDegree'[v] == InCount(g, v, done, n) + Occ(v, successors[j + 1..]) {
      OccCons(v, successors, j);
    }
  }

  lemma ReleaseDone(tasks: map<nat, Task>, g: map<nat, seq<nat>>, n: nat, order: seq<nat>, done: set<nat>,
                    successors: seq<nat>, inDegree: map<nat, int>, q: seq<nat>)
    requires ReleaseInv(tasks, g, n, order, done, successors, |successors|, inDegree, q)
    ensures ReleaseInv(tasks, g, n, order, done, [], 0, inDegree, q)
  {
    assert successors[|successors|..] == [];
  }

  /** Counts that are exact for every registered task are the initial degrees. */
  lemma DegreesExact(tasks: map<nat, Task>, g: map<nat, seq<nat>>, n: nat, inDegree: map<nat, int>)
    requires inDegree.Keys == tasks.Keys
    requires forall v | v in tasks :: inDegree[v] == InCount(g, v, {}, n)
    ensures inDegree == InitialDegrees(tasks, g, n)
  {
  }

  /** Once the whole successor list of `u` is counted, the counts cover every name up to `u`. */
  lemma CountRow(tasks: map<nat, Task>, g: map<nat, seq<nat>>, inDegree: map<nat, int>, u: nat, j: nat)
    requires j == |SuccOf(g, u)|
    requires Counted(tasks, g, u, SuccOf(g, u)[..j], inDegree)
    ensures Counted(tasks, g, u + 1, [], inDegree)
  {
    assert SuccOf(g, u)[..j] == SuccOf(g, u);
  }

  /** The counts cover the edges from the names below `u` and those in `pending`. */
  ghost predicate Counted(tasks: map<nat, Task>, g: map<nat, seq<nat>>, u: nat, pending: seq<nat>, inDegree: map<nat, int>)
  {
    inDegree.Keys == tasks.Keys && CountsExact(tasks, g, u, {}, pending, inDegree)
  }

  /** One increment of the counting loop keeps the counts exact. */
  lemma CountStep(tasks: map<nat, Task>, g: map<nat, seq<nat>>, inDegree: map<nat, int>, inDegree': map<nat, int>,
                  u: nat, successors: seq<nat>, j: nat)
    requires j < |successors| && successors[j] in tasks
    requires Counted(tasks, g, u, successors[..j], inDegree)
    requires inDegree' == inDegree[successors[j] := inDegree[successors[j]] + 1]
    ensures Counted(tasks, g, u, successors[..j + 1], inDegree')
  {
    forall v | v in tasks ensures Occ(v, successors[..j + 1]) == Occ(v, successors[..j]) + (if successors[j] == v then 1 else 0) {
      OccSnoc(v, successors, j);
    }
  }

  /**
   * `g` is `g0` with `name` appended to the successor list of each name in
   * `ps`, once per occurrence, and every key below `n`.
   */
  ghost predicate Appended(n: nat, g0: map<nat, seq<nat>>, g: map<nat, seq<nat>>, name: nat, ps: seq<nat>)
  {
    && (forall u | u in g :: u < n)
    && (forall u: nat :: SuccOf(g, u) == SuccOf(g0, u) + Repeat(name, Occ(u, ps)))
  }

  lemma AppendStep(n: nat, g0: map<nat, seq<nat>>, g: map<nat, seq<nat>>, name: nat, ps: seq<nat>, i: nat)
    requires i < |ps| && ps[i] < n
    requires Appended(n, g0, g, name, ps[..i])
    ensures Appended(n, g0, g[ps[i] := SuccOf(g, ps[i]) + [name]], name, ps[..i + 1])
  {
    var g' := g[ps[i] := SuccOf(g, ps[i]) + [name]];
    forall u: nat ensures SuccOf(g', u) == SuccOf(g0, u) + Repeat(name, Occ(u, ps[..i + 1])) {
      AppendAt(g0, g, name, ps, i, u);
    }
  }

  lemma AppendAt(g0: map<nat, seq<nat>>, g: map<nat, seq<nat>>, name: nat, ps: seq<nat>, i: nat, u: nat)
    requires i < |ps|
    requires SuccOf(g, u) == SuccOf(g0, u) + Repeat(name, Occ(u, ps[..i]))
    ensures SuccOf(g[ps[i] := SuccOf(g, ps[i]) + [name]], u) == SuccOf(g0, u) + Repeat(name, Occ(u, ps[..i + 1]))
  {
    OccSnoc(u, ps, i);
    var k := Occ(u, ps[..i]);
    if u == ps[i] {
      assert Repeat(name, k + 1) == Repeat(name, k) + [name];
    }
  }

  /** Registration, of a new name or again of a registered one, keeps the registry well formed. */
  lemma AddTaskKeepsValid(n: nat, tasks: map<nat, Task>, g: map<nat, seq<nat>>, preds: map<nat, seq<nat>>,
                          g': map<nat, seq<nat>>, name: nat, duration: int, ps: seq<nat>)
    requires WellFormed(n, tasks, g, preds)
    requires name < n && forall p | p in ps :: p < n
    requires Appended(n, g, g', name, ps)
    ensures WellFormed(n, tasks[name := Task(name, duration, 0, 0, 0, 0)], g', preds[name := ps])
  {
    var tasks' := tasks[name := Task(name, duration, 0, 0, 0, 0)];
    var preds' := preds[name := ps];
    forall u: nat, s | s in SuccOf(g', u) ensures s in tasks' {
      assert s in SuccOf(g, u) || s in Repeat(name, Occ(u, ps));
    }
    forall u: nat, v | v in tasks' ensures Occ(v, SuccOf(g', u)) >= Occ(u, PredsOf(preds', v)) {
      AddTaskEdges(tasks, g, preds, g', name, ps, u, v);
    }
  }

  /**
   * Registering a new name keeps every edge declared: the new edges come
   * from the names it lists, and no old edge leads into it.
   */
  lemma AddKeepsDeclared(n: nat, tasks: map<nat, Task>, g: map<nat, seq<nat>>, preds: map<nat, seq<nat>>,
                         g': map<nat, seq<nat>>, name: nat, ps: seq<nat>)
    requires SuccsRegistered(tasks, g) && EdgesDeclared(g, preds) && name !in tasks
    requires Appended(n, g, g', name, ps)
    ensures EdgesDeclared(g', preds[name := ps])
  {
    forall u: nat, s | s in SuccOf(g', u) ensures u in PredsOf(preds[name := ps], s) {
      if s in SuccOf(g, u) {
        assert s in tasks && u in PredsOf(preds, s);
        assert PredsOf(preds[name := ps], s) == PredsOf(preds, s);
      } else {
        assert s in Repeat(name, Occ(u, ps));
        assert s == name && Occ(u, ps) > 0;
        OccPositive(u, ps);
        assert u in ps;
      }
    }
  }

  lemma AddTaskEdges(tasks: map<nat, Task>, g: map<nat, seq<nat>>, preds: map<nat, seq<nat>>,
                     g': map<nat, seq<nat>>, name: nat, ps: seq<nat>, u: nat, v: nat)
    requires v in tasks ==> Occ(v, SuccOf(g, u)) >= Occ(u, PredsOf(preds, v))
    requires v == name || v in tasks
    requires SuccOf(g', u) == SuccOf(g, u) + Repeat(name, Occ(u, ps))
    ensures Occ(v, SuccOf(g', u)) >= Occ(u, PredsOf(preds[name := ps], v))
  {
    OccRepeat(v, name, Occ(u, ps));
    assert multiset(SuccOf(g', u)) == multiset(SuccOf(g, u)) + multiset(Repeat(name, Occ(u, ps)));
  }

  /** Appending a task all of whose sources are already ordered keeps the order topological. */
  lemma PopKeepsTopological(g: map<nat, seq<nat>>, order: seq<nat>, t: nat)
    requires Topological(g, order) && AllSourcesIn(g, t, order)
    ensures Topological(g, order + [t])
  {
    var o := order + [t];
    forall i, u: nat | 0 <= i < |o| && o[i] in SuccOf(g, u) ensures u in o[..i] {
      if i < |order| {
        assert o[..i] == order[..i];
      } else {
        assert o[..i] == order;
      }
    }
  }

  /** A task with no in-edge left from outside `done` has all its sources in the order. */
  lemma SourcesDone(n: nat, g: map<nat, seq<nat>>, v: nat, done: set<nat>, order: seq<nat>)
    requires forall u | u in g :: u < n
    requires forall x :: x in done <==> x in order
    requires InCount(g, v, done, n) == 0
    ensures AllSourcesIn(g, v, order)
  {
    InCountZero(g, v, done, n);
  }

  /** A task all of whose sources are in `done` has no in-edge left from outside it. */
  lemma SourcesCounted(n: nat, g: map<nat, seq<nat>>, v: nat, done: set<nat>, order: seq<nat>)
    requires forall x :: x in done <==> x in order
    requires AllSourcesIn(g, v, order)
    ensures InCount(g, v, done, n) == 0
  {
    InCountZero(g, v, done, n);
  }
}
