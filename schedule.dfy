/**
 * The two passes of the Critical Path Method as functions over the task map.
 *
 * The forward pass visits a topological order from front to back and sets
 * each task's earliest start to the largest earliest finish among its
 * predecessors (never below the start it already had); the backward pass
 * visits the order from back to front and sets each task's latest finish to
 * the smallest latest start among its successors (never above the project
 * duration). Both are folds over the order, so that the loops of the
 * scheduler can be proved equal to them step by step.
 */
module Timing {
  import opened TaskGraph
  import opened Kahn

  function FinishOf(m: map<nat, Task>, p: nat): int
  {
    if p in m then m[p].earliestFinish else 0
  }

  function StartOf(m: map<nat, Task>, s: nat): int
  {
    if s in m then m[s].latestStart else 0
  }

  /** `acc` raised to the earliest finish of every task in `ps`, one after the other. */
  function MaxFinish(m: map<nat, Task>, ps: seq<nat>, acc: int): (r: int)
    ensures r >= acc
    ensures forall p | p in ps :: r >= FinishOf(m, p)
    ensures r == acc || exists p | p in ps :: r == FinishOf(m, p)
  {
    if ps == [] then acc
    else
      var r0 := MaxFinish(m, ps[..|ps| - 1], acc);
      var last := ps[|ps| - 1];
      assert forall p | p in ps :: p in ps[..|ps| - 1] || p == last;
      if r0 >= FinishOf(m, last) then r0 else FinishOf(m, last)
  }

  /** `acc` lowered to the latest start of every task in `ss`, one after the other. */
  function MinStart(m: map<nat, Task>, ss: seq<nat>, acc: int): (r: int)
    ensures r <= acc
    ensures forall s | s in ss :: r <= StartOf(m, s)
    ensures r == acc || exists s | s in ss :: r == StartOf(m, s)
  {
    if ss == [] then acc
    else
      var r0 := MinStart(m, ss[..|ss| - 1], acc);
      var last := ss[|ss| - 1];
      assert forall s | s in ss :: s in ss[..|ss| - 1] || s == last;
      if r0 <= StartOf(m, last) then r0 else StartOf(m, last)
  }

  /** Both folds only look at the tasks they are given. */
  lemma {:induction false} MaxFinishAgree(m1: map<nat, Task>, m2: map<nat, Task>, ps: seq<nat>, acc: int)
    requires forall p | p in ps :: FinishOf(m1, p) == FinishOf(m2, p)
    ensures MaxFinish(m1, ps, acc) == MaxFinish(m2, ps, acc)
  {
    if ps != [] {
      MaxFinishAgree(m1, m2, ps[..|ps| - 1], acc);
    }
  }

  lemma {:induction false} MinStartAgree(m1: map<nat, Task>, m2: map<nat, Task>, ss: seq<nat>, acc: int)
    requires forall s | s in ss :: StartOf(m1, s) == StartOf(m2, s)
    ensures MinStart(m1, ss, acc) == MinStart(m2, ss, acc)
  {
    if ss != [] {
      MinStartAgree(m1, m2, ss[..|ss| - 1], acc);
    }
  }

  // ---------------------------------------------------------------------
  // Forward pass

  /** One step of the forward pass, for task `t`. */
  function ForwardStep(m: map<nat, Task>, preds: map<nat, seq<nat>>, t: nat): map<nat, Task>
    requires t in m
  {
    var es := MaxFinish(m, PredsOf(preds, t), m[t].earliestStart);
    m[t := m[t].(earliestStart := es, earliestFinish := es + m[t].duration)]
  }

  /** The forward pass over `order`, front to back. */
  function Forward(m: map<nat, Task>, preds: map<nat, seq<nat>>, order: seq<nat>): (r: map<nat, Task>)
    requires forall t | t in order :: t in m
    ensures r.Keys == m.Keys
  {
    if order == [] then m
    else ForwardStep(Forward(m, preds, order[..|order| - 1]), preds, order[|order| - 1])
  }

  /** The forward pass only sets earliest times, and only those of the tasks it visits. */
  lemma {:induction false} ForwardKeeps(m: map<nat, Task>, preds: map<nat, seq<nat>>, order: seq<nat>)
    requires forall t | t in order :: t in m
    ensures var r := Forward(m, preds, order);
      && (forall k | k in m ::
            && r[k].name == m[k].name && r[k].duration == m[k].duration
            && r[k].latestStart == m[k].latestStart && r[k].latestFinish == m[k].latestFinish)
      && (forall k | k in m && k !in order :: r[k] == m[k])
  {
    if order != [] {
      ForwardKeeps(m, preds, order[..|order| - 1]);
    }
  }

  /** Tasks not visited after position `j` keep the value they had at `j`. */
  lemma {:induction false} ForwardPrefixStable(m: map<nat, Task>, preds: map<nat, seq<nat>>, order: seq<nat>, j: nat, k: nat)
    requires forall t | t in order :: t in m
    requires j <= |order| && k in m && k !in order[j..]
    ensures Forward(m, preds, order)[k] == Forward(m, preds, order[..j])[k]
    decreases |order| - j
  {
    if j < |order| {
      var init := order[..|order| - 1];
      assert init[..j] == order[..j];
      assert order[|order| - 1] in order[j..];
      ForwardPrefixStable(m, preds, init, j, k);
    } else {
      assert order[..j] == order;
    }
  }

  /** Each visited task's final value is what its own step computed. */
  lemma ForwardAt(m: map<nat, Task>, preds: map<nat, seq<nat>>, order: seq<nat>, i: nat)
    requires forall t | t in order :: t in m
    requires Distinct(order) && i < |order|
    ensures Forward(m, preds, order)[order[i]] == ForwardStep(Forward(m, preds, order[..i]), preds, order[i])[order[i]]
  {
    var t := order[i];
    assert t !in order[i + 1..];
    ForwardPrefixStable(m, preds, order, i + 1, t);
    assert order[..i + 1][..i] == order[..i];
  }

  /** Every declared predecessor of a task of `order` comes earlier in `order`. */
  ghost predicate PredsEarlier(preds: map<nat, seq<nat>>, order: seq<nat>)
  {
    forall i, p | 0 <= i < |order| && p in PredsOf(preds, order[i]) :: p in order[..i]
  }

  /**
   * After the forward pass every visited task finishes its duration after it
   * starts, and starts at the larger of its former start and the largest
   * final earliest finish of its predecessors.
   */
  lemma ForwardCorrect(m: map<nat, Task>, preds: map<nat, seq<nat>>, order: seq<nat>, t: nat)
    requires forall x | x in order :: x in m
    requires Distinct(order) && PredsEarlier(preds, order)
    requires t in order
    ensures var f := Forward(m, preds, order);
      && f[t].earliestFinish == f[t].earliestStart + f[t].duration
      && f[t].earliestStart == MaxFinish(f, PredsOf(preds, t), m[t].earliestStart)
  {
    var f := Forward(m, preds, order);
    var i :| 0 <= i < |order| && order[i] == t;
    var fi := Forward(m, preds, order[..i]);
    ForwardAt(m, preds, order, i);
    assert t !in order[..i];
    ForwardKeeps(m, preds, order[..i]);
    forall p | p in PredsOf(preds, t) ensures FinishOf(fi, p) == FinishOf(f, p) {
      assert p in order[..i];
      var k :| 0 <= k < i && order[k] == p;
      assert p !in order[i..] by {
        forall l | i <= l < |order| ensures order[l] != p {
          assert k < l;
        }
      }
      ForwardPrefixStable(m, preds, order, i, p);
    }
    MaxFinishAgree(fi, f, PredsOf(preds, t), m[t].earliestStart);
  }

  // ---------------------------------------------------------------------
  // Backward pass

  /** One step of the backward pass, for task `t`, with project duration `pd`. */
  function BackStep(m: map<nat, Task>, g: map<nat, seq<nat>>, t: nat, pd: int): map<nat, Task>
    requires t in m
  {
    var lf := MinStart(m, SuccOf(g, t), pd);
    m[t := m[t].(latestFinish := lf, latestStart := lf - m[t].duration)]
  }

  /** The backward pass over `order`, back to front. */
  function Backward(m: map<nat, Task>, g: map<nat, seq<nat>>, order: seq<nat>, pd: int): (r: map<nat, Task>)
    requires forall t | t in order :: t in m
    ensures r.Keys == m.Keys
  {
    if order == [] then m
    else BackStep(Backward(m, g, order[1..], pd), g, order[0], pd)
  }

  /** The backward pass only sets latest times, and only those of the tasks it visits. */
  lemma {:induction false} BackwardKeeps(m: map<nat, Task>, g: map<nat, seq<nat>>, order: seq<nat>, pd: int)
    requires forall t | t in order :: t in m
    ensures var r := Backward(m, g, order, pd);
      && (forall k | k in m ::
            && r[k].name == m[k].name && r[k].duration == m[k].duration
            && r[k].earliestStart == m[k].earliestStart && r[k].earliestFinish == m[k].earliestFinish)
      && (forall k | k in m && k !in order :: r[k] == m[k])
  {
    if order != [] {
      BackwardKeeps(m, g, order[1..], pd);
    }
  }

  /** Tasks not visited before position `j` keep the value they had after the suffix from `j`. */
  lemma {:induction false} BackwardSuffixStable(m: map<nat, Task>, g: map<nat, seq<nat>>, order: seq<nat>, pd: int, j: nat, k: nat)
    requires forall t | t in order :: t in m
    requires j <= |order| && k in m && k !in order[..j]
    ensures Backward(m, g, order, pd)[k] == Backward(m, g, order[j..], pd)[k]
    decreases j
  {
    if j > 0 {
      var rest := order[1..];
      assert rest[j - 1..] == order[j..];
      assert order[0] in order[..j];
      assert k !in rest[..j - 1] by {
        assert forall x | x in rest[..j - 1] :: x in order[..j];
      }
      BackwardSuffixStable(m, g, rest, pd, j - 1, k);
    } else {
      assert order[j..] == order;
    }
  }

  lemma BackwardAt(m: map<nat, Task>, g: map<nat, seq<nat>>, order: seq<nat>, pd: int, i: nat)
    requires forall t | t in order :: t in m
    requires Distinct(order) && i < |order|
    ensures Backward(m, g, order, pd)[order[i]] == BackStep(Backward(m, g, order[i + 1..], pd), g, order[i], pd)[order[i]]
  {
    var t := order[i];
    assert t !in order[..i];
    BackwardSuffixStable(m, g, order, pd, i, t);
    assert order[i..][1..] == order[i + 1..];
  }

  /** No successor of a task of `order` comes at or before it in `order`. */
  ghost predicate SuccsLater(g: map<nat, seq<nat>>, order: seq<nat>)
  {
    forall i, s | 0 <= i < |order| && s in SuccOf(g, order[i]) :: s !in order[..i + 1]
  }

  /**
   * After the backward pass every visited task starts its duration before it
   * must finish, and must finish by the smaller of the project duration and
   * the smallest final latest start of its successors.
   */
  lemma BackwardCorrect(m: map<nat, Task>, g: map<nat, seq<nat>>, order: seq<nat>, pd: int, t: nat)
    requires forall x | x in order :: x in m
    requires Distinct(order) && SuccsLater(g, order)
    requires t in order
    ensures var b := Backward(m, g, order, pd);
      && b[t].latestStart == b[t].latestFinish - b[t].duration
      && b[t].latestFinish == MinStart(b, SuccOf(g, t), pd)
  {
    var b := Backward(m, g, order, pd);
    var i :| 0 <= i < |order| && order[i] == t;
    var bi := Backward(m, g, order[i + 1..], pd);
    BackwardAt(m, g, order, pd, i);
    forall s | s in SuccOf(g, t) ensures StartOf(bi, s) == StartOf(b, s) {
      if s in m {
        assert s !in order[..i + 1];
        BackwardSuffixStable(m, g, order, pd, i + 1, s);
      }
    }
    MinStartAgree(bi, b, SuccOf(g, t), pd);
  }

  // ---------------------------------------------------------------------
  // Both passes

  /** Project duration: the earliest finish of the last task of the order, after the forward pass. */
  function ProjectDuration(m: map<nat, Task>, preds: map<nat, seq<nat>>, order: seq<nat>): int
    requires forall t | t in order :: t in m
    requires order != []
  {
    Forward(m, preds, order)[order[|order| - 1]].earliestFinish
  }

  /** The schedule the two passes compute. */
  function Schedule(m: map<nat, Task>, preds: map<nat, seq<nat>>, g: map<nat, seq<nat>>, order: seq<nat>): (r: map<nat, Task>)
    requires forall t | t in order :: t in m
    requires order != []
    ensures r.Keys == m.Keys
  {
    Backward(Forward(m, preds, order), g, order, ProjectDuration(m, preds, order))
  }

  // ---------------------------------------------------------------------
  // Properties of the schedule over a Kahn order

  lemma KahnPredsEarlier(n: nat, tasks: map<nat, Task>, g: map<nat, seq<nat>>, preds: map<nat, seq<nat>>, order: seq<nat>)
    requires WellFormed(n, tasks, g, preds) && KahnOrder(tasks, g, order)
    ensures PredsEarlier(preds, order)
  {
    forall i, p | 0 <= i < |order| && p in PredsOf(preds, order[i]) ensures p in order[..i] {
      PredIsEdge(n, tasks, g, preds, order[i], p);
    }
  }

  lemma KahnSuccsLater(tasks: map<nat, Task>, g: map<nat, seq<nat>>, order: seq<nat>)
    requires KahnOrder(tasks, g, order)
    ensures SuccsLater(g, order)
  {
    forall i, s | 0 <= i < |order| && s in SuccOf(g, order[i]) ensures s !in order[..i + 1] {
      forall k | 0 <= k <= i ensures order[k] != s {
        if order[k] == s {
          assert false;
        }
      }
    }
  }

  /**
   * The CPM equations hold for every task of a Kahn order once both passes
   * have run: finish = start + duration in both directions, the earliest
   * start is the maximum of the task's former start and its predecessors'
   * earliest finishes, the latest finish is the minimum of the project
   * duration and its successors' latest starts.
   */
  lemma ScheduleCorrect(n: nat, tasks: map<nat, Task>, g: map<nat, seq<nat>>, preds: map<nat, seq<nat>>, order: seq<nat>, t: nat)
    requires WellFormed(n, tasks, g, preds) && KahnOrder(tasks, g, order)
    requires t in order
    ensures var r := Schedule(tasks, preds, g, order);
      var pd := ProjectDuration(tasks, preds, order);
      && r[t].duration == tasks[t].duration
      && r[t].earliestFinish == r[t].earliestStart + r[t].duration
      && r[t].latestStart == r[t].latestFinish - r[t].duration
      && r[t].earliestStart == MaxFinish(r, PredsOf(preds, t), tasks[t].earliestStart)
      && r[t].latestFinish == MinStart(r, SuccOf(g, t), pd)
  {
    ScheduleEarly(n, tasks, g, preds, order, t);
    KahnSuccsLater(tasks, g, order);
    BackwardCorrect(Forward(tasks, preds, order), g, order, ProjectDuration(tasks, preds, order), t);
  }

  /** The forward half of `ScheduleCorrect`: the backward pass keeps what the forward pass computed. */
  lemma ScheduleEarly(n: nat, tasks: map<nat, Task>, g: map<nat, seq<nat>>, preds: map<nat, seq<nat>>, order: seq<nat>, t: nat)
    requires WellFormed(n, tasks, g, preds) && KahnOrder(tasks, g, order)
    requires t in order
    ensures var r := Schedule(tasks, preds, g, order);
      && r[t].duration == tasks[t].duration
      && r[t].earliestFinish == r[t].earliestStart + r[t].duration
      && r[t].earliestStart == MaxFinish(r, PredsOf(preds, t), tasks[t].earliestStart)
  {
    KahnPredsEarlier(n, tasks, g, preds, order);
    var f := Forward(tasks, preds, order);
    var pd := ProjectDuration(tasks, preds, order);
    var r := Backward(f, g, order, pd);
    ForwardCorrect(tasks, preds, order, t);
    ForwardKeeps(tasks, preds, order);
    BackwardKeeps(f, g, order, pd);
    MaxFinishAgree(f, r, PredsOf(preds, t), tasks[t].earliestStart);
  }

  /**
   * For an ordered task: every listed predecessor finishes before it starts,
   * and along every edge out of it, it must finish before its successor must
   * start. An edge kept from an earlier registration is not a listed
   * predecessor and bounds nothing (`KeptEdgeOverlap`).
   */
  lemma ScheduleEdges(n: nat, tasks: map<nat, Task>, g: map<nat, seq<nat>>, preds: map<nat, seq<nat>>, order: seq<nat>, t: nat)
    requires WellFormed(n, tasks, g, preds) && KahnOrder(tasks, g, order)
    requires t in order
    ensures var r := Schedule(tasks, preds, g, order);
      && (PredsOf(preds, t) == [] ==> r[t].earliestStart == tasks[t].earliestStart)
      && (forall p | p in PredsOf(preds, t) :: p in r && r[p].earliestFinish <= r[t].earliestStart)
      && r[t].latestFinish <= ProjectDuration(tasks, preds, order)
      && (forall s | s in SuccOf(g, t) :: s in r && r[t].latestFinish <= r[s].latestStart)
  {
    ScheduleCorrect(n, tasks, g, preds, order, t);
    var r := Schedule(tasks, preds, g, order);
    forall p | p in PredsOf(preds, t) ensures p in r {
      KahnPredsEarlier(n, tasks, g, preds, order);
      var i :| 0 <= i < |order| && order[i] == t;
      assert p in order[..i];
    }
    forall s | s in SuccOf(g, t) ensures s in r {
    }
  }

  // ---------------------------------------------------------------------
  // Slack

  /** Every edge `u -> s` is declared: `u` is listed among the predecessors of `s`. */
  ghost predicate EdgesDeclared(g: map<nat, seq<nat>>, preds: map<nat, seq<nat>>)
  {
    forall u: nat, s | s in SuccOf(g, u) :: u in PredsOf(preds, s)
  }

  /** Every registered task is in the order. */
  ghost predicate Complete(tasks: map<nat, Task>, order: seq<nat>)
  {
    forall v | v in tasks :: v in order
  }

  /** In a complete Kahn order every successor of a task comes after it. */
  lemma SuccIndex(tasks: map<nat, Task>, g: map<nat, seq<nat>>, order: seq<nat>, i: nat, s: nat) returns (j: nat)
    requires KahnOrder(tasks, g, order) && Complete(tasks, order) && SuccsRegistered(tasks, g)
    requires i < |order| && s in SuccOf(g, order[i])
    ensures i < j < |order| && order[j] == s
  {
    assert s in tasks;
    j :| 0 <= j < |order| && order[j] == s;
    KahnSuccsLater(tasks, g, order);
  }

  /**
   * Slack is never negative when the order is complete, every edge is declared
   * and the project duration is no smaller than any earliest finish: the
   * latest start of each ordered task is at least its earliest start.
   */
  lemma {:induction false} SlackAt(n: nat, tasks: map<nat, Task>, g: map<nat, seq<nat>>, preds: map<nat, seq<nat>>, order: seq<nat>, i: nat)
    requires WellFormed(n, tasks, g, preds) && KahnOrder(tasks, g, order)
    requires EdgesDeclared(g, preds) && Complete(tasks, order)
    requires i < |order|
    requires forall t | t in order :: Schedule(tasks, preds, g, order)[t].earliestFinish <= ProjectDuration(tasks, preds, order)
    ensures Schedule(tasks, preds, g, order)[order[i]].earliestStart <= Schedule(tasks, preds, g, order)[order[i]].latestStart
    decreases |order| - i
  {
    var r := Schedule(tasks, preds, g, order);
    var pd := ProjectDuration(tasks, preds, order);
    var t := order[i];
    ScheduleCorrect(n, tasks, g, preds, order, t);
    if r[t].latestFinish != pd {
      var s :| s in SuccOf(g, t) && r[t].latestFinish == StartOf(r, s);
      var j := SuccIndex(tasks, g, order, i, s);
      SlackAt(n, tasks, g, preds, order, j);
      ScheduleEdges(n, tasks, g, preds, order, s);
      assert t in PredsOf(preds, s);
    }
  }

  /** No ordered task has negative slack under the hypotheses of `SlackAt`. */
  lemma SlackNonNegative(n: nat, tasks: map<nat, Task>, g: map<nat, seq<nat>>, preds: map<nat, seq<nat>>, order: seq<nat>)
    requires WellFormed(n, tasks, g, preds) && KahnOrder(tasks, g, order)
    requires EdgesDeclared(g, preds) && Complete(tasks, order) && order != []
    requires forall t | t in order :: Schedule(tasks, preds, g, order)[t].earliestFinish <= ProjectDuration(tasks, preds, order)
    ensures forall t | t in order :: Schedule(tasks, preds, g, order)[t].earliestStart <= Schedule(tasks, preds, g, order)[t].latestStart
  {
    forall t | t in order
      ensures Schedule(tasks, preds, g, order)[t].earliestStart <= Schedule(tasks, preds, g, order)[t].latestStart
    {
      var i :| 0 <= i < |order| && order[i] == t;
      SlackAt(n, tasks, g, preds, order, i);
    }
  }

  /**
   * With nonnegative durations, when the last task of a complete order is the
   * only one without successors, the project duration (its earliest finish)
   * bounds the earliest finish of every task from position `i` on.
   */
  lemma {:induction false} SingleEndBounds(n: nat, tasks: map<nat, Task>, g: map<nat, seq<nat>>, preds: map<nat, seq<nat>>, order: seq<nat>, i: nat)
    requires WellFormed(n, tasks, g, preds) && KahnOrder(tasks, g, order)
    requires EdgesDeclared(g, preds) && Complete(tasks, order)
    requires forall v | v in tasks :: tasks[v].duration >= 0
    requires forall k | 0 <= k < |order| - 1 :: SuccOf(g, order[k]) != []
    requires i < |order|
    ensures Schedule(tasks, preds, g, order)[order[i]].earliestFinish <= ProjectDuration(tasks, preds, order)
    decreases |order| - i
  {
    if i == |order| - 1 {
      LastFinish(tasks, preds, g, order);
    } else {
      var t := order[i];
      var s := SuccOf(g, t)[0];
      assert s in SuccOf(g, t);
      var j := SuccIndex(tasks, g, order, i, s);
      SingleEndBounds(n, tasks, g, preds, order, j);
      EdgeFinish(n, tasks, g, preds, order, t, s);
    }
  }

  /** The last task of the order finishes, earliest, at the project duration. */
  lemma LastFinish(tasks: map<nat, Task>, preds: map<nat, seq<nat>>, g: map<nat, seq<nat>>, order: seq<nat>)
    requires forall t | t in order :: t in tasks
    requires order != []
    ensures Schedule(tasks, preds, g, order)[order[|order| - 1]].earliestFinish == ProjectDuration(tasks, preds, order)
  {
    var f := Forward(tasks, preds, order);
    ForwardKeeps(tasks, preds, order);
    BackwardKeeps(f, g, order, ProjectDuration(tasks, preds, order));
  }

  /** Along a declared edge `t -> s` into an ordered task, `t` finishes no later than `s` does when `s` takes no negative time. */
  lemma EdgeFinish(n: nat, tasks: map<nat, Task>, g: map<nat, seq<nat>>, preds: map<nat, seq<nat>>, order: seq<nat>, t: nat, s: nat)
    requires WellFormed(n, tasks, g, preds) && KahnOrder(tasks, g, order)
    requires EdgesDeclared(g, preds) && s in order && s in SuccOf(g, t)
    requires tasks[s].duration >= 0
    ensures t in tasks
    ensures Schedule(tasks, preds, g, order)[t].earliestFinish <= Schedule(tasks, preds, g, order)[s].earliestFinish
  {
    assert t in PredsOf(preds, s);
    ScheduleEdges(n, tasks, g, preds, order, s);
    ScheduleCorrect(n, tasks, g, preds, order, s);
  }

  /** With a single end task and nonnegative durations, no task has negative slack. */
  lemma SingleEndSlack(n: nat, tasks: map<nat, Task>, g: map<nat, seq<nat>>, preds: map<nat, seq<nat>>, order: seq<nat>)
    requires WellFormed(n, tasks, g, preds) && KahnOrder(tasks, g, order)
    requires EdgesDeclared(g, preds) && Complete(tasks, order) && order != []
    requires forall v | v in tasks :: tasks[v].duration >= 0
    requires forall k | 0 <= k < |order| - 1 :: SuccOf(g, order[k]) != []
    ensures forall t | t in order :: Schedule(tasks, preds, g, order)[t].earliestStart <= Schedule(tasks, preds, g, order)[t].latestStart
  {
    forall t | t in order
      ensures Schedule(tasks, preds, g, order)[t].earliestFinish <= ProjectDuration(tasks, preds, order)
    {
      var i :| 0 <= i < |order| && order[i] == t;
      SingleEndBounds(n, tasks, g, preds, order, i);
    }
    SlackNonNegative(n, tasks, g, preds, order);
  }

  /** Two independent tasks: 0 with duration 5 and 1 with duration 1. */
  const twoEnds: map<nat, Task> := map[0 := Task(0, 5, 0, 0, 0, 0), 1 := Task(1, 1, 0, 0, 0, 0)]
  const twoEndsPreds: map<nat, seq<nat>> := map[0 := [], 1 := []]
  const noEdges: map<nat, seq<nat>> := map[]

  lemma TwoEndsValid()
    ensures WellFormed(2, twoEnds, noEdges, twoEndsPreds) && KahnOrder(twoEnds, noEdges, [0, 1])
  {
    assert forall u: nat :: SuccOf(noEdges, u) == [];
  }

  lemma TwoEndsSchedule()
    ensures ProjectDuration(twoEnds, twoEndsPreds, [0, 1]) == 1
    ensures Schedule(twoEnds, twoEndsPreds, noEdges, [0, 1])[0].earliestStart == 0
    ensures Schedule(twoEnds, twoEndsPreds, noEdges, [0, 1])[0].latestStart == -4
  {
    var order := [0, 1];
    assert order[..1] == [0] && [0][..0] == [];
    var f0 := ForwardStep(twoEnds, twoEndsPreds, 0);
    assert Forward(twoEnds, twoEndsPreds, [0]) == f0;
    var f := ForwardStep(f0, twoEndsPreds, 1);
    assert Forward(twoEnds, twoEndsPreds, order) == f;
    assert f[0].earliestFinish == 5 && f[1].earliestFinish == 1;
    assert order[1..] == [1] && [1][1..] == [];
    var b1 := BackStep(f, noEdges, 1, 1);
    assert Backward(f, noEdges, [1], 1) == b1;
    var r := BackStep(b1, noEdges, 0, 1);
    assert Backward(f, noEdges, order, 1) == r;
  }

  /** Kahn's algorithm orders the two independent tasks by name. */
  lemma TwoEndsKahn()
    ensures SuccsRegistered(twoEnds, noEdges)
    ensures KahnSort(twoEnds, noEdges, 2) == [0, 1]
  {
    var deg := InitialDegrees(twoEnds, noEdges, 2);
    assert InCount(noEdges, 0, {}, 2) == 0 && InCount(noEdges, 1, {}, 2) == 0;
    assert deg[0] == 0 && deg[1] == 0;
    assert ZeroCounted(deg, 0) == [];
    assert ZeroCounted(deg, 1) == [0];
    assert ZeroCounted(deg, 2) == [0, 1];
    assert Run(noEdges, deg, [1], [0], 1) == [0, 1];
  }

  /**
   * With two end tasks the project duration is the earliest finish of the
   * one ordered last, not the larger one: task 0 (duration 5) ordered before
   * task 1 (duration 1) gets a project duration of 1, and task 0's latest
   * start, -4, falls below its earliest start, 0.
   */
  lemma TwoEndsNegativeSlack()
    ensures WellFormed(2, twoEnds, noEdges, twoEndsPreds) && KahnOrder(twoEnds, noEdges, [0, 1])
    ensures KahnSort(twoEnds, noEdges, 2) == [0, 1]
    ensures ProjectDuration(twoEnds, twoEndsPreds, [0, 1]) == 1
    ensures Schedule(twoEnds, twoEndsPreds, noEdges, [0, 1])[0].latestStart
          < Schedule(twoEnds, twoEndsPreds, noEdges, [0, 1])[0].earliestStart
  {
    TwoEndsValid();
    TwoEndsKahn();
    TwoEndsSchedule();
  }

  /** Task 0 (duration 5) before task 1, and tasks 1 and 2 waiting on each other. */
  const staleTasks: map<nat, Task> := map[0 := Task(0, 5, 0, 0, 0, 0), 1 := Task(1, 1, 0, 0, 0, 0), 2 := Task(2, 1, 0, 0, 0, 0)]
  const stalePreds: map<nat, seq<nat>> := map[0 := [], 1 := [0, 2], 2 := [1]]
  const staleEdges: map<nat, seq<nat>> := map[0 := [1], 1 := [2], 2 := [1]]

  lemma StaleWellFormed()
    ensures WellFormed(3, staleTasks, staleEdges, stalePreds)
  {
    assert SuccOf(staleEdges, 0) == [1] && SuccOf(staleEdges, 1) == [2] && SuccOf(staleEdges, 2) == [1];
    forall u: nat, v | v in staleTasks ensures Occ(v, SuccOf(staleEdges, u)) >= Occ(u, PredsOf(stalePreds, v)) {
      if u > 2 {
        assert SuccOf(staleEdges, u) == [];
        OccPositive(u, PredsOf(stalePreds, v));
      }
    }
  }

  lemma StaleDeclared()
    ensures EdgesDeclared(staleEdges, stalePreds)
  {
    forall u: nat, s | s in SuccOf(staleEdges, u) ensures u in PredsOf(stalePreds, s) {
      assert u in staleEdges;
    }
  }

  lemma StaleOrder()
    ensures KahnOrder(staleTasks, staleEdges, [0])
  {
    assert forall u: nat :: 0 !in SuccOf(staleEdges, u);
    assert 1 in SuccOf(staleEdges, 2) && 2 in SuccOf(staleEdges, 1);
    assert !AllSourcesIn(staleEdges, 1, [0]);
    assert !AllSourcesIn(staleEdges, 2, [0]);
  }

  /** Kahn's algorithm orders task 0 alone: tasks 1 and 2 never reach a count of zero. */
  lemma StaleKahn()
    ensures SuccsRegistered(staleTasks, staleEdges)
    ensures KahnSort(staleTasks, staleEdges, 3) == [0]
  {
    assert SuccOf(staleEdges, 0) == [1] && SuccOf(staleEdges, 1) == [2] && SuccOf(staleEdges, 2) == [1];
    var deg := InitialDegrees(staleTasks, staleEdges, 3);
    assert InCount(staleEdges, 0, {}, 3) == 0;
    assert InCount(staleEdges, 1, {}, 3) == 2;
    assert InCount(staleEdges, 2, {}, 3) == 1;
    assert ZeroCounted(deg, 1) == [0];
    assert ZeroCounted(deg, 2) == [0];
    assert ZeroCounted(deg, 3) == [0];
    assert deg[1] == 2;
    assert [1][..0] == [];
    assert Release(deg, [], []) == (deg, []);
    assert ReleaseOne(deg, [], 1) == (deg[1 := 1], []);
    assert Release(deg, [], [1]) == (deg[1 := 1], []);
    assert Run(staleEdges, deg[1 := 1], [], [0], 2) == [0];
  }

  lemma StaleSchedule()
    ensures ProjectDuration(staleTasks, stalePreds, [0]) == 5
    ensures Schedule(staleTasks, stalePreds, staleEdges, [0])[0].earliestStart == 0
    ensures Schedule(staleTasks, stalePreds, staleEdges, [0])[0].earliestFinish == 5
    ensures Schedule(staleTasks, stalePreds, staleEdges, [0])[0].latestStart == -5
  {
    var order := [0];
    assert order[..0] == [] && order[1..] == [];
    var f := ForwardStep(staleTasks, stalePreds, 0);
    assert Forward(staleTasks, stalePreds, order) == f;
    assert f[0].earliestStart == 0 && f[0].earliestFinish == 5;
    assert SuccOf(staleEdges, 0) == [1] && [1][..0] == [];
    assert MinStart(f, [1], 5) == 0;
    var r := BackStep(f, staleEdges, 0, 5);
    assert Backward(f, staleEdges, order, 5) == r;
  }

  /** The registry of the example is well formed, every edge is declared, and Kahn's algorithm orders task 0 alone. */
  lemma StaleSetting()
    ensures WellFormed(3, staleTasks, staleEdges, stalePreds) && EdgesDeclared(staleEdges, stalePreds)
    ensures SuccsRegistered(staleTasks, staleEdges)
    ensures KahnSort(staleTasks, staleEdges, 3) == [0] && KahnOrder(staleTasks, staleEdges, [0])
    ensures !Complete(staleTasks, [0])
  {
    StaleWellFormed();
    StaleDeclared();
    StaleOrder();
    StaleKahn();
    assert 1 in staleTasks && 1 !in [0];
  }

  /**
   * An ordered task reads the latest start of a successor left out of the
   * order, which still holds the 0 it was registered with: task 0 precedes
   * task 1, which is on a cycle with task 2. Every edge is declared and the
   * project duration bounds every earliest finish, yet task 0's latest start
   * (-5) falls below its earliest start (0). The order is not complete, so
   * `SlackNonNegative` does not apply.
   */
  lemma StaleSuccessorSlack()
    ensures WellFormed(3, staleTasks, staleEdges, stalePreds) && EdgesDeclared(staleEdges, stalePreds)
    ensures KahnSort(staleTasks, staleEdges, 3) == [0] && KahnOrder(staleTasks, staleEdges, [0])
    ensures !Complete(staleTasks, [0])
    ensures Schedule(staleTasks, stalePreds, staleEdges, [0])[0].earliestFinish <= ProjectDuration(staleTasks, stalePreds, [0])
    ensures Schedule(staleTasks, stalePreds, staleEdges, [0])[0].latestStart
          < Schedule(staleTasks, stalePreds, staleEdges, [0])[0].earliestStart
  {
    StaleSetting();
    StaleSchedule();
  }
  /** The edge 0 -> 1 that task 1 kept from an earlier registration listing task 0. */
  const keptEdge: map<nat, seq<nat>> := map[0 := [1]]

  lemma KeptEdgeValid()
    ensures WellFormed(2, twoEnds, keptEdge, twoEndsPreds) && KahnOrder(twoEnds, keptEdge, [0, 1])
    ensures 1 in SuccOf(keptEdge, 0) && 0 !in PredsOf(twoEndsPreds, 1)
  {
    assert SuccOf(keptEdge, 0) == [1] && forall u: nat | u > 0 :: SuccOf(keptEdge, u) == [];
    assert [0, 1][..1] == [0];
  }

  /** Kahn's algorithm still orders task 0 before task 1. */
  lemma KeptEdgeKahn()
    ensures SuccsRegistered(twoEnds, keptEdge)
    ensures KahnSort(twoEnds, keptEdge, 2) == [0, 1]
  {
    assert SuccOf(keptEdge, 0) == [1] && SuccOf(keptEdge, 1) == [];
    var deg := InitialDegrees(twoEnds, keptEdge, 2);
    assert InCount(keptEdge, 0, {}, 2) == 0 && InCount(keptEdge, 1, {}, 2) == 1;
    assert deg[0] == 0 && deg[1] == 1;
    assert ZeroCounted(deg, 1) == [0];
    assert ZeroCounted(deg, 2) == [0];
    assert [1][..0] == [];
    assert Release(deg, [], []) == (deg, []);
    var e: seq<nat> := [];
    assert e + [1] == [1];
    assert ReleaseOne(deg, [], 1) == (deg[1 := 0], [1]);
    assert Release(deg, [], [1]) == (deg[1 := 0], [1]);
    assert [1][1..] == [];
    assert Release(deg[1 := 0], [], []) == (deg[1 := 0], []);
    assert Run(keptEdge, deg[1 := 0], [1], [0], 1) == [0, 1];
  }

  lemma KeptEdgeSchedule()
    ensures Schedule(twoEnds, twoEndsPreds, keptEdge, [0, 1])[0].earliestFinish == 5
    ensures Schedule(twoEnds, twoEndsPreds, keptEdge, [0, 1])[1].earliestStart == 0
  {
    var order := [0, 1];
    assert order[..1] == [0] && [0][..0] == [];
    var f0 := ForwardStep(twoEnds, twoEndsPreds, 0);
    assert Forward(twoEnds, twoEndsPreds, [0]) == f0;
    var f := ForwardStep(f0, twoEndsPreds, 1);
    assert Forward(twoEnds, twoEndsPreds, order) == f;
    assert f[0].earliestFinish == 5 && f[1].earliestStart == 0;
    BackwardKeeps(f, keptEdge, order, ProjectDuration(twoEnds, twoEndsPreds, order));
  }

  /**
   * An edge kept from an earlier registration still orders its tasks, but
   * the forward pass reads only the current predecessor list: task 1, once
   * registered after task 0 and then registered again without predecessors,
   * starts at 0 while task 0 finishes at 5.
   */
  lemma KeptEdgeOverlap()
    ensures WellFormed(2, twoEnds, keptEdge, twoEndsPreds)
    ensures KahnSort(twoEnds, keptEdge, 2) == [0, 1] && KahnOrder(twoEnds, keptEdge, [0, 1])
    ensures 1 in SuccOf(keptEdge, 0) && 0 !in PredsOf(twoEndsPreds, 1)
    ensures Schedule(twoEnds, twoEndsPreds, keptEdge, [0, 1])[1].earliestStart
          < Schedule(twoEnds, twoEndsPreds, keptEdge, [0, 1])[0].earliestFinish
  {
    KeptEdgeValid();
    KeptEdgeKahn();
    KeptEdgeSchedule();
  }
}
