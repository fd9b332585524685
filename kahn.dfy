/**
 * Kahn's algorithm as a function, step for step as the scheduler runs it:
 * every registered task starts with its number of incoming edges, the queue
 * starts with the zero-count names in ascending order, and each round moves
 * the front of the queue to the order and releases the successors of the
 * task it moved, in successor-list order, queueing each one whose count
 * reaches zero.
 */
module Kahn {
  import opened TaskGraph

  /** Every registered task with its number of incoming edges from the names below `n`. */
  function InitialDegrees(tasks: map<nat, Task>, g: map<nat, seq<nat>>, n: nat): (deg: map<nat, int>)
    ensures deg.Keys == tasks.Keys
  {
    map v | v in tasks :: InCount(g, v, {}, n)
  }

  /** The names below `k` whose count is zero, in ascending order. */
  function ZeroCounted(deg: map<nat, int>, k: nat): seq<nat>
  {
    if k == 0 then []
    else ZeroCounted(deg, k - 1) + (if k - 1 in deg && deg[k - 1] == 0 then [k - 1] else [])
  }

  /** The zero-count names below `k`, each once, in strictly ascending order. */
  lemma {:induction false} ZeroCountedSpec(deg: map<nat, int>, k: nat)
    ensures forall i, j | 0 <= i < j < |ZeroCounted(deg, k)| :: ZeroCounted(deg, k)[i] < ZeroCounted(deg, k)[j]
    ensures forall x :: x in ZeroCounted(deg, k) <==> x < k && x in deg && deg[x] == 0
  {
    if k > 0 {
      ZeroCountedSpec(deg, k - 1);
      var z := ZeroCounted(deg, k - 1);
      assert forall i | 0 <= i < |z| :: z[i] in z;
    }
  }

  /** Decrements the count of `s`, and queues `s` when the count reaches zero. */
  function ReleaseOne(deg: map<nat, int>, q: seq<nat>, s: nat): (map<nat, int>, seq<nat>)
    requires s in deg
  {
    var d := deg[s := deg[s] - 1];
    (d, if d[s] == 0 then q + [s] else q)
  }

  /** `ReleaseOne` for each element of `ss`, front to back. */
  function Release(deg: map<nat, int>, q: seq<nat>, ss: seq<nat>): (r: (map<nat, int>, seq<nat>))
    requires forall s | s in ss :: s in deg
    ensures r.0.Keys == deg.Keys
  {
    if ss == [] then (deg, q)
    else
      var p := Release(deg, q, ss[..|ss| - 1]);
      ReleaseOne(p.0, p.1, ss[|ss| - 1])
  }

  /**
   * The main loop, for at most `fuel` rounds: while the queue is not empty,
   * append its front to the order and release that task's successors.
   */
  function Run(g: map<nat, seq<nat>>, deg: map<nat, int>, q: seq<nat>, order: seq<nat>, fuel: nat): seq<nat>
    requires forall u: nat, s | s in SuccOf(g, u) :: s in deg
    decreases fuel
  {
    if q == [] || fuel == 0 then order
    else
      var p := Release(deg, q[1..], SuccOf(g, q[0]));
      Run(g, p.0, p.1, order + [q[0]], fuel - 1)
  }

  /**
   * The order Kahn's algorithm produces. Every round orders a new registered
   * task, so `|tasks|` rounds are enough for the queue to run empty.
   */
  function KahnSort(tasks: map<nat, Task>, g: map<nat, seq<nat>>, n: nat): seq<nat>
    requires SuccsRegistered(tasks, g)
  {
    var deg := InitialDegrees(tasks, g, n);
    Run(g, deg, ZeroCounted(deg, n), [], |tasks|)
  }
}
