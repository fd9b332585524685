/**
 * The task registry and dependency graph of the CPM scheduler, as values.
 *
 * Task names are modelled as natural numbers below a bound `n`, numbered in
 * ascending name order, so that iterating over the indices 0..n-1 visits
 * registered names in the order a key-ordered map does.
 */
module TaskGraph {

  /** One task: its name, its duration and the four timing fields. */
  datatype Task = Task(
    name: nat,
    duration: int,
    earliestStart: int,
    earliestFinish: int,
    latestStart: int,
    latestFinish: int)

  /** Number of occurrences of `x` in `s`. */
  function Occ(x: nat, s: seq<nat>): nat
  {
    multiset(s)[x]
  }

  /** Successor list of `u`; a name without an entry has none. */
  function SuccOf(g: map<nat, seq<nat>>, u: nat): seq<nat>
  {
    if u in g then g[u] else []
  }

  /** Declared predecessor list of `v`; a name without an entry has none. */
  function PredsOf(preds: map<nat, seq<nat>>, v: nat): seq<nat>
  {
    if v in preds then preds[v] else []
  }

  /** `k` copies of `x`. */
  function Repeat(x: nat, k: nat): (r: seq<nat>)
    ensures |r| == k
    ensures forall i | 0 <= i < k :: r[i] == x
  {
    seq(k, _ => x)
  }

  lemma {:induction false} OccRepeat(x: nat, y: nat, k: nat)
    ensures Occ(x, Repeat(y, k)) == if x == y then k else 0
  {
    if k > 0 {
      OccRepeat(x, y, k - 1);
      assert Repeat(y, k) == Repeat(y, k - 1) + [y];
    }
  }

  lemma OccSnoc(x: nat, s: seq<nat>, j: nat)
    requires j < |s|
    ensures Occ(x, s[..j + 1]) == Occ(x, s[..j]) + (if s[j] == x then 1 else 0)
  {
    assert s[..j + 1] == s[..j] + [s[j]];
  }

  lemma OccCons(x: nat, s: seq<nat>, j: nat)
    requires j < |s|
    ensures Occ(x, s[j..]) == Occ(x, s[j + 1..]) + (if s[j] == x then 1 else 0)
  {
    assert s[j..] == [s[j]] + s[j + 1..];
  }

  lemma OccPositive(x: nat, s: seq<nat>)
    ensures Occ(x, s) > 0 <==> x in s
  {
  }

  /**
   * The invariant the registry keeps: names below `n`, each task stored under
   * its own name, a predecessor list for every registered task, every
   * successor a registered task, and every listing of a predecessor matched
   * by an edge (with multiplicity). Edges can outnumber listings: a task
   * registered again keeps the edges of its earlier predecessor lists.
   */
  ghost predicate WellFormed(n: nat, tasks: map<nat, Task>, g: map<nat, seq<nat>>, preds: map<nat, seq<nat>>)
  {
    && (forall k | k in tasks :: k < n && tasks[k].name == k)
    && preds.Keys == tasks.Keys
    && (forall u | u in g :: u < n)
    && (forall k, p | k in preds && p in preds[k] :: p < n)
    && SuccsRegistered(tasks, g)
    && (forall u: nat, v | v in tasks :: Occ(v, SuccOf(g, u)) >= Occ(u, PredsOf(preds, v)))
  }

  /** Every name that appears in a successor list is a registered task. */
  ghost predicate SuccsRegistered(tasks: map<nat, Task>, g: map<nat, seq<nat>>)
  {
    forall u: nat, s | s in SuccOf(g, u) :: s in tasks
  }

  /** Every name that some task declares as its predecessor is registered. */
  ghost predicate PredsRegistered(tasks: map<nat, Task>, g: map<nat, seq<nat>>)
  {
    forall u: nat, v | v in SuccOf(g, u) :: u in tasks
  }

  /** A declared predecessor is the source of an edge into the task. */
  lemma PredIsEdge(n: nat, tasks: map<nat, Task>, g: map<nat, seq<nat>>, preds: map<nat, seq<nat>>, v: nat, p: nat)
    requires WellFormed(n, tasks, g, preds)
    requires v in tasks && p in PredsOf(preds, v)
    ensures v in SuccOf(g, p)
  {
    OccPositive(p, PredsOf(preds, v));
    OccPositive(v, SuccOf(g, p));
  }

  // ---------------------------------------------------------------------
  // Orders produced by Kahn's algorithm

  ghost predicate Distinct(s: seq<nat>)
  {
    forall i, j | 0 <= i < j < |s| :: s[i] != s[j]
  }

  /** Every edge into a task of the order comes from an earlier task of the order. */
  ghost predicate Topological(g: map<nat, seq<nat>>, order: seq<nat>)
  {
    forall i, u: nat | 0 <= i < |order| && order[i] in SuccOf(g, u) :: u in order[..i]
  }

  /** No edge leads into `v`. */
  ghost predicate NoInEdge(g: map<nat, seq<nat>>, v: nat)
  {
    forall u: nat :: v !in SuccOf(g, u)
  }

  /** Every edge into `v` comes from a task of `order`. */
  ghost predicate AllSourcesIn(g: map<nat, seq<nat>>, v: nat, order: seq<nat>)
  {
    forall u: nat | v in SuccOf(g, u) :: u in order
  }

  /** The order is maximal: a registered task whose in-edges all come from ordered tasks is ordered. */
  ghost predicate Closed(tasks: map<nat, Task>, g: map<nat, seq<nat>>, order: seq<nat>)
  {
    forall v | v in tasks && AllSourcesIn(g, v, order) :: v in order
  }

  /** What the topological sort guarantees about its result. */
  ghost predicate KahnOrder(tasks: map<nat, Task>, g: map<nat, seq<nat>>, order: seq<nat>)
  {
    && Distinct(order)
    && (forall v | v in order :: v in tasks)
    && Topological(g, order)
    && Closed(tasks, g, order)
  }

  // ---------------------------------------------------------------------
  // Acyclicity and cycles

  /** No member of `S` has an edge into `v`. */
  ghost predicate NoEdgeFrom(g: map<nat, seq<nat>>, S: set<nat>, v: nat)
  {
    forall u | u in S :: v !in SuccOf(g, u)
  }

  /** Some member of `S` has no in-edge from `S`. */
  ghost predicate HasEntry(g: map<nat, seq<nat>>, S: set<nat>)
  {
    exists v {:trigger NoEdgeFrom(g, S, v)} | v in S :: NoEdgeFrom(g, S, v)
  }

  /**
   * The graph over the registered tasks is acyclic: every nonempty set of
   * registered tasks has a member none of whose predecessors is in the set.
   */
  ghost predicate Acyclic(tasks: map<nat, Task>, g: map<nat, seq<nat>>)
  {
    forall S: set<nat> | S <= tasks.Keys && S != {} :: HasEntry(g, S)
  }

  /** `c` is a closed walk: each element is a successor of the one before, and the first of the last. */
  ghost predicate IsCycle(g: map<nat, seq<nat>>, c: seq<nat>)
  {
    && |c| > 0
    && (forall i | 0 <= i < |c| - 1 :: c[i + 1] in SuccOf(g, c[i]))
    && c[0] in SuccOf(g, c[|c| - 1])
  }

  /** Under acyclicity (as defined above) there is no cycle. */
  lemma AcyclicHasNoCycle(tasks: map<nat, Task>, g: map<nat, seq<nat>>, c: seq<nat>)
    requires SuccsRegistered(tasks, g) && Acyclic(tasks, g)
    ensures !IsCycle(g, c)
  {
    if IsCycle(g, c) {
      var S := set i | 0 <= i < |c| :: c[i];
      CycleHasNoEntry(tasks, g, c, S);
      assert false;
    }
  }

  /**
   * Conversely, a graph without cycles is acyclic in the sense above, so
   * `KahnComplete` applies to every graph without a cycle.
   */
  lemma NoCycleAcyclic(tasks: map<nat, Task>, g: map<nat, seq<nat>>)
    requires forall c :: !IsCycle(g, c)
    ensures Acyclic(tasks, g)
  {
    forall S: set<nat> | S <= tasks.Keys && S != {} ensures HasEntry(g, S) {
      if !HasEntry(g, S) {
        var c := EntryLessCycle(g, S);
      }
    }
  }

  /** A nonempty set without an entry holds a cycle. */
  lemma EntryLessCycle(g: map<nat, seq<nat>>, S: set<nat>) returns (c: seq<nat>)
    requires S != {} && !HasEntry(g, S)
    ensures IsCycle(g, c)
  {
    var w := BackWalk(g, S, |S| + 1);
    var i, j := Repeated(w, S);
    c := w[i..j];
    assert c[0] == w[j] && c[|c| - 1] == w[j - 1];
    assert forall k | 0 <= k < |c| :: c[k] == w[i + k];
  }

  /** Every member of a set without an entry has an in-edge from the set. */
  lemma EntryLessStep(g: map<nat, seq<nat>>, S: set<nat>, v: nat) returns (u: nat)
    requires !HasEntry(g, S) && v in S
    ensures u in S && v in SuccOf(g, u)
  {
    assert !NoEdgeFrom(g, S, v);
    u :| u in S && v in SuccOf(g, u);
  }

  /** In a set without an entry, walking back along in-edges gives a walk of any length inside the set. */
  lemma {:induction false} BackWalk(g: map<nat, seq<nat>>, S: set<nat>, k: nat) returns (w: seq<nat>)
    requires S != {} && !HasEntry(g, S) && k > 0
    ensures |w| == k && forall x | x in w :: x in S
    ensures forall i | 0 <= i < |w| - 1 :: w[i + 1] in SuccOf(g, w[i])
  {
    if k == 1 {
      var v :| v in S;
      w := [v];
    } else {
      var w' := BackWalk(g, S, k - 1);
      var u := EntryLessStep(g, S, w'[0]);
      w := [u] + w';
      assert forall i | 1 <= i < |w| :: w[i] == w'[i - 1];
    }
  }

  /** A sequence longer than the set holding its elements repeats an element. */
  lemma Repeated(w: seq<nat>, S: set<nat>) returns (i: nat, j: nat)
    requires |w| > |S| && forall x | x in w :: x in S
    ensures i < j < |w| && w[i] == w[j]
  {
    if Distinct(w) {
      DistinctSetSize(w);
      SubsetCard(Elems(w), S);
      assert false;
    }
    i, j :| 0 <= i < j < |w| && w[i] == w[j];
  }

  lemma {:induction false} SubsetCard(A: set<nat>, B: set<nat>)
    requires A <= B
    ensures |A| <= |B|
  {
    if A != {} {
      var x :| x in A;
      SubsetCard(A - {x}, B - {x});
    }
  }

  /** On a graph without cycles whose edges come from registered tasks, a Kahn order holds every task. */
  lemma CycleFreeComplete(tasks: map<nat, Task>, g: map<nat, seq<nat>>, order: seq<nat>)
    requires KahnOrder(tasks, g, order)
    requires PredsRegistered(tasks, g) && forall c :: !IsCycle(g, c)
    ensures forall v | v in tasks :: v in order
    ensures |order| == |tasks|
  {
    NoCycleAcyclic(tasks, g);
    KahnComplete(tasks, g, order);
  }

  /** The members of a cycle form a nonempty set of registered tasks without an entry. */
  lemma CycleHasNoEntry(tasks: map<nat, Task>, g: map<nat, seq<nat>>, c: seq<nat>, S: set<nat>)
    requires SuccsRegistered(tasks, g)
    requires IsCycle(g, c) && S == set i | 0 <= i < |c| :: c[i]
    ensures S <= tasks.Keys && S != {} && !HasEntry(g, S)
  {
    assert c[0] in S;
    forall x | x in S ensures x in tasks && !NoEdgeFrom(g, S, x) {
      var i :| 0 <= i < |c| && c[i] == x;
      var u := if i == 0 then c[|c| - 1] else c[i - 1];
      assert u in S && x in SuccOf(g, u);
    }
  }

  lemma {:induction false} CycleAbsentAt(g: map<nat, seq<nat>>, order: seq<nat>, c: seq<nat>, i: nat)
    requires Topological(g, order) && IsCycle(g, c) && i < |order|
    ensures forall k | 0 <= k < |c| :: c[k] != order[i]
    decreases i
  {
    forall k | 0 <= k < |c| ensures c[k] != order[i] {
      if c[k] == order[i] {
        var u := if k == 0 then c[|c| - 1] else c[k - 1];
        assert order[i] in SuccOf(g, u);
        assert u in order[..i];
        var i' :| 0 <= i' < i && order[..i][i'] == u;
        CycleAbsentAt(g, order, c, i');
        assert false;
      }
    }
  }

  /** No task on a cycle ever appears in a topological order (e.g. a->b, b->a). */
  lemma CycleExcluded(g: map<nat, seq<nat>>, order: seq<nat>, c: seq<nat>)
    requires Topological(g, order) && IsCycle(g, c)
    ensures forall k | 0 <= k < |c| :: c[k] !in order
  {
    forall k | 0 <= k < |c| ensures c[k] !in order {
      if c[k] in order {
        var i :| 0 <= i < |order| && order[i] == c[k];
        CycleAbsentAt(g, order, c, i);
      }
    }
  }

  /**
   * When every declared predecessor is registered and the graph is acyclic,
   * a Kahn order contains every registered task: together with Distinct it
   * is a permutation of the registered names.
   */
  lemma KahnComplete(tasks: map<nat, Task>, g: map<nat, seq<nat>>, order: seq<nat>)
    requires KahnOrder(tasks, g, order)
    requires PredsRegistered(tasks, g) && Acyclic(tasks, g)
    ensures forall v | v in tasks :: v in order
    ensures |order| == |tasks|
  {
    var R := set v | v in tasks && v !in order;
    UnorderedHasNoEntry(tasks, g, order, R);
    if R != {} {
      assert false;
    }
    forall v | v in tasks ensures v in order {
      assert v !in R;
    }
    DistinctCard(order, tasks);
  }

  /** The registered tasks left out of a closed order have no entry. */
  lemma UnorderedHasNoEntry(tasks: map<nat, Task>, g: map<nat, seq<nat>>, order: seq<nat>, R: set<nat>)
    requires Closed(tasks, g, order) && PredsRegistered(tasks, g)
    requires R == set v | v in tasks && v !in order
    ensures R <= tasks.Keys && !HasEntry(g, R)
  {
    forall v | v in R ensures !NoEdgeFrom(g, R, v) {
      assert !AllSourcesIn(g, v, order);
      var u: nat :| v in SuccOf(g, u) && u !in order;
      assert u in R;
    }
  }

  lemma DistinctCard(order: seq<nat>, tasks: map<nat, Task>)
    requires Distinct(order)
    requires forall v | v in order :: v in tasks
    requires forall v | v in tasks :: v in order
    ensures |order| == |tasks|
  {
    assert Elems(order) == tasks.Keys;
    DistinctSetSize(order);
  }

  /** The set of elements of a sequence. */
  function Elems(s: seq<nat>): (r: set<nat>)
    ensures forall v :: v in r <==> v in s
  {
    set v | v in s
  }

  lemma {:induction false} DistinctSetSize(s: seq<nat>)
    requires Distinct(s)
    ensures |Elems(s)| == |s|
  {
    if s != [] {
      var t := s[..|s| - 1];
      var x := s[|s| - 1];
      DistinctSetSize(t);
      assert Elems(s) == Elems(t) + {x};
      assert x !in t;
    }
  }

  // ---------------------------------------------------------------------
  // In-degree bookkeeping of Kahn's algorithm

  /** Edges into `v` from the names below `k` that are not in `done`, with multiplicity. */
  function InCount(g: map<nat, seq<nat>>, v: nat, done: set<nat>, k: nat): nat
  {
    if k == 0 then 0
    else InCount(g, v, done, k - 1) + (if k - 1 in done then 0 else Occ(v, SuccOf(g, k - 1)))
  }

  /** The count is zero exactly when no edge into `v` comes from a name below `k` outside `done`. */
  lemma {:induction false} InCountZero(g: map<nat, seq<nat>>, v: nat, done: set<nat>, k: nat)
    ensures InCount(g, v, done, k) == 0 <==> forall u: nat | u < k && u !in done :: v !in SuccOf(g, u)
  {
    if k > 0 {
      InCountZero(g, v, done, k - 1);
      OccPositive(v, SuccOf(g, k - 1));
    }
  }

  /** Moving `t` into `done` removes exactly its edges into `v`. */
  lemma {:induction false} InCountDone(g: map<nat, seq<nat>>, v: nat, done: set<nat>, t: nat, k: nat)
    requires t !in done
    ensures InCount(g, v, done + {t}, k) + (if t < k then Occ(v, SuccOf(g, t)) else 0) == InCount(g, v, done, k)
  {
    if k > 0 {
      InCountDone(g, v, done, t, k - 1);
    }
  }
}
