# CPM scheduling engine in Dafny

This project models the `CPM` class of `main.cpp`, a Critical Path Method
scheduler, and proves properties of the model.

The class keeps three maps keyed by task name:

- the task registry (name, duration, earliest and latest start and finish);
- the successor lists (`graph`);
- the predecessor lists.

It offers these operations:

- `addTask` registers a task. It appends the task to the successor list of every predecessor the task lists.
- `calculate` orders the tasks with Kahn's algorithm (`topologicalSort`). It then runs a forward pass for the earliest times and a backward pass for the latest times.
- `getCriticalPath` returns the tasks whose earliest and latest starts coincide.
- `displayAllPaths` walks depth first (`findPaths`) from every task with an empty predecessor list to every task without successors. It reports each path with its summed duration.

Modules:

- `TaskGraph` (graph.dfy) holds:
  - the `Task` record;
  - the well-formedness invariant of the three maps;
  - what a Kahn order is (distinct, registered, topological, and maximal);
  - acyclicity and cycles;
  - the in-degree count.
- `Kahn` (kahn.dfy) is Kahn's algorithm as a function, step by step as the class runs it. It fixes the exact order that is produced: the initial queue in ascending name order, then successors in successor-list order.
- `Timing` (schedule.dfy) holds:
  - the forward and backward passes as folds over an order;
  - the schedule they produce;
  - the CPM equations for every ordered task;
  - slack results.
- `Paths` (paths.dfy) holds:
  - the depth-first enumeration of paths from a task to a task without successors;
  - its soundness and completeness;
  - the reports (path, duration) of the path listing.
- `Worked` (example.dfy) is a worked example: task 0 (duration 1), tasks 1 (duration 2) and 2 (duration 3) after task 0, and task 3 (duration 1) after tasks 1 and 2. It fixes its order, schedule, critical tasks and paths.
- `Cpm` (cpm.dfy) holds the class `CPM`. It has the three maps as fields and methods that update them in place, each proved against the functions above. It also holds the path buffer that the walk pushes onto and pops from.

Task names are the numbers below a fixed bound `n`. `std::map` iterates in key order, and this is modelled by loops over `0 .. n-1`.

### Behaviour that follows the code

The model follows the code in these points:

- **Re-registration.** Registering a name again replaces its record and its predecessor list. The successor-list entries that its earlier predecessors received stay. The invariant `WellFormed` therefore only requires at least as many edges as listings. Such a kept edge still orders its tasks in Kahn's algorithm, but the forward pass reads only the current predecessor list. A task registered again without its earlier predecessor can therefore start before that predecessor finishes (`KeptEdgeOverlap`).
- **Repeated listings.** Each listing of a predecessor adds an edge, so a predecessor listed twice gives two equal edges. The path listing walks every path once for each way of choosing its edges from the successor lists, so a path through a doubled edge is reported twice (`TwiceListed`). When no successor list names a task twice, every path is reported once (`PathsFromDistinct`, `SourcePathsDistinct`).
- **Earliest start across runs.** The forward pass raises each task's current earliest start; it does not start from zero. After `addTask` that value is zero. After an earlier `calculate` it is the value that run left.
- **Unordered tasks.** A task on a cycle, or behind a predecessor that was never registered, is never queued. It is silently left out of the order and out of both passes (`KahnOrder`, `CycleExcluded`). Nothing reports an error. Its timing fields keep their old values, and two effects follow:
  - The backward pass still reads its latest start when it is a successor of an ordered task. After registration that value is zero, so it can pull the ordered predecessor's latest finish below the project duration, even below the predecessor's earliest start (`StaleSuccessorSlack`).
  - `getCriticalPath` reports it whenever its earliest and latest starts are equal. Both are zero after registration.
- **Project duration.** The project duration is the earliest finish of the last task in the order. It is not the largest earliest finish of a task without successors. With two tasks that have no successors, the longer one can get a latest start below its earliest start (`TwoEndsNegativeSlack`). When the order holds every registered task, every edge is declared among its target's predecessors, and the project duration bounds every earliest finish, no task has negative slack (`SlackNonNegative`). The project duration bounds every earliest finish, for example, when the order holds every registered task, every edge is declared, all durations are nonnegative and only the last task lacks successors (`SingleEndBounds`), so then no slack is negative (`SingleEndSlack`). Without a complete order the stale latest start of an unordered successor can still make the slack negative (`StaleSuccessorSlack`).

## Model

| member | source | states |
|---|---|---|
| Cpm.CPM.constructor | main.cpp:20-24 | A new scheduler has no tasks, no successor lists and no predecessor lists, and is well formed. |
| Cpm.CPM.AddTask | main.cpp:27-33 | The task is (re-)registered with its duration and all four timing fields zero, and its predecessor list is replaced. The name is appended to the successor list of each listed predecessor once per listing, and no other list changes. The registry stays well formed. When the name is new and every edge was declared, every edge stays declared. |
| Cpm.AddTaskKeepsValid | main.cpp:27-33 | Registration, of a new name or again of an old one, keeps every listed predecessor matched by an edge and every successor registered. |
| Cpm.AddKeepsDeclared | main.cpp:27-33 | Registering a new name keeps every edge listed among the predecessors of its target. |
| TaskGraph.PredIsEdge | main.cpp:29-32 | A name listed as a predecessor of a registered task has an edge to it. |
| Cpm.CPM.TopologicalSort | main.cpp:89-119 | The order is exactly the one Kahn's algorithm produces (`KahnSort`). It is distinct and registered. Every edge into an ordered task comes from an earlier one. Every registered task whose incoming edges all come from ordered tasks is ordered. |
| Cpm.CPM.CountInDegrees | main.cpp:90-98 | Every registered task, and nothing else, gets the number of edges into it, with multiplicity. |
| Cpm.CPM.SeedQueue | main.cpp:100-105 | The initial queue holds exactly the registered tasks of in-degree zero, in strictly ascending name order. |
| Kahn.ZeroCountedSpec | main.cpp:100-105 | The zero-count names below a bound, each once, strictly ascending. |
| Cpm.CPM.ReleaseSuccessors | main.cpp:112-116 | Each successor's count is decremented in list order. A successor is queued at the back exactly when its count reaches zero. |
| Cpm.KahnRound | main.cpp:107-117 | One round keeps the loop invariant: the popped task is registered and not yet ordered, the counts are the incoming edges from unordered tasks, and the queue holds exactly the unordered tasks with count zero. The rest of the run still yields `KahnSort`. |
| Cpm.KahnEnd | main.cpp:107-118 | When the queue runs empty, the order is a Kahn order. |
| Cpm.PopKeepsTopological | main.cpp:108-111 | Appending a task whose edges all come from ordered tasks keeps the order topological. |
| TaskGraph.KahnComplete | main.cpp:89-119 | On an acyclic graph whose edges all come from registered tasks, a Kahn order holds every registered task, and its length is the number of tasks. |
| TaskGraph.CycleExcluded | main.cpp:89-119 | No task on a cycle (for example a->b, b->a) appears in a topological order. |
| TaskGraph.AcyclicHasNoCycle | main.cpp:89-119 | Under the acyclicity used by `KahnComplete` (every nonempty set of tasks has an entry) there is no cycle. |
| TaskGraph.NoCycleAcyclic | main.cpp:89-119 | Conversely, a graph without a cycle is acyclic in that sense: every nonempty set of registered tasks has an entry. |
| TaskGraph.CycleFreeComplete | main.cpp:89-119 | On a graph without cycles whose edges come from registered tasks, a Kahn order holds every registered task, and its length is the number of tasks. |
| Cpm.CPM.Calculate | main.cpp:35-57 | The passes run over the order Kahn's algorithm produces, which is nonempty and a Kahn order. The tasks become `Schedule` of the old tasks over that order, and the lists are unchanged. |
| Cpm.PassesReady | main.cpp:36-48 | A Kahn order of a registry with a task without incoming edges is nonempty. It puts every listed predecessor before its task and every successor after it, which is what both passes read. |
| Cpm.CPM.ForwardPass | main.cpp:38-45 | The tasks become the forward fold over the order. |
| Cpm.CPM.BackwardPass | main.cpp:47-56 | The tasks become the backward fold over the reversed order, with the given project duration. |
| Cpm.PassesDone | main.cpp:48-56 | The project duration taken from the last ordered task and both passes give exactly `Schedule`, and the registry stays well formed. |
| Timing.MaxFinish | main.cpp:41-43 | The raised start is at least the former start and every predecessor's earliest finish, and equals one of them. |
| Timing.MinStart | main.cpp:52-54 | The lowered finish is at most the project duration and every successor's latest start, and equals one of them. |
| Timing.ForwardCorrect | main.cpp:38-45 | After the forward pass an ordered task finishes its duration after it starts. It starts at the maximum of its former start and its predecessors' final earliest finishes. |
| Timing.BackwardCorrect | main.cpp:49-56 | After the backward pass an ordered task's latest start is its latest finish minus its duration. Its latest finish is the minimum of the project duration and its successors' final latest starts. |
| Timing.ScheduleCorrect | main.cpp:35-57 | For every ordered task, after both passes: the duration is unchanged, EF = ES + duration, LS = LF - duration, ES is the maximum of its former start and its predecessors' earliest finishes, and LF is the minimum of the project duration and its successors' latest starts. |
| Timing.ScheduleEdges | main.cpp:35-57 | For an ordered task, every listed predecessor finishes before the task starts, and along every edge out of it the task must finish before its successor must start. LF never exceeds the project duration, and a task with an empty predecessor list keeps its start. |
| Timing.KeptEdgeOverlap | main.cpp:28-31 | Task 0 (duration 5) and task 1, registered after task 0 and then again with no predecessors, keep the edge 0 -> 1. The registry is well formed and Kahn's algorithm orders 0, 1, yet task 1 starts at 0, before task 0 finishes at 5, because main.cpp:41 reads only the current predecessor list. |
| Timing.SlackNonNegative | main.cpp:47-56 | With a complete order and every edge declared, every ordered task has ES <= LS whenever the project duration bounds every earliest finish. |
| Timing.StaleSuccessorSlack | main.cpp:49-56 | Tasks 0 (duration 5), 1 after 0 and 2, and 2 after 1: every edge is declared, Kahn's algorithm orders only task 0, and the project duration 5 bounds its earliest finish. Task 0 still gets latest start -5, below its earliest start 0, because the backward pass reads the zero latest start of the unordered task 1. |
| Timing.LastFinish | main.cpp:48 | The last ordered task finishes, earliest, exactly at the project duration. |
| Timing.SingleEndBounds | main.cpp:47-56 | With a complete order, declared edges, nonnegative durations and only the last ordered task without successors, every ordered task finishes, earliest, no later than the project duration, which is then the largest earliest finish. |
| Timing.SingleEndSlack | main.cpp:47-56 | With a complete order, every edge declared, nonnegative durations and only the last ordered task without successors, no ordered task has negative slack. |
| Timing.TwoEndsNegativeSlack | main.cpp:48 | Two independent tasks of durations 5 and 1 are ordered 0, 1 by Kahn's algorithm. The project duration is 1, and task 0's latest start (-4) is below its earliest start (0). |
| Cpm.CPM.GetCriticalPath | main.cpp:59-67 | The result holds exactly the registered tasks with equal earliest and latest start, in strictly ascending name order. |
| Cpm.CPM.DisplayAllPaths | main.cpp:78-86 | Given a rank that grows along every edge of the tasks reachable from a source: each report is a walk from a registered task with an empty predecessor list to a task without successors, with its summed duration. Every such walk is reported. The reports come source by source in ascending name order. When no successor list names a task twice, no path is reported twice. |
| Cpm.ListedPaths | main.cpp:78-86 | The listed reports are exactly the source-to-sink walks with their duration sums, each once when no successor list names a task twice. |
| Cpm.CPM.FindPaths | main.cpp:121-140 | Given a rank that grows along every edge reachable from the current task: the walk returns the reports of all paths from the current task to a task without successors, in depth-first order, each behind the current path with the running duration. The path buffer is restored. |
| Cpm.PathBuffer.Push | main.cpp:122 | The task is appended to the path. |
| Cpm.PathBuffer.Pop | main.cpp:139 | The last task of the path is removed. |
| Paths.PathsFromSound | main.cpp:121-140 | Every enumerated path starts at the given task and follows edges to a task without successors. |
| Paths.PathsFromComplete | main.cpp:121-140 | Every walk from the given task to a task without successors is enumerated. |
| Paths.SourcePathsSound | main.cpp:78-86 | Every walked path starts at a registered task with an empty predecessor list and ends at a task without successors. |
| Paths.SourcePathsComplete | main.cpp:78-86 | Every such walk is walked. |
| Paths.PathsFromDistinct | main.cpp:121-140 | When no successor list in the ranked region names a task twice, no path from the given task is enumerated twice. |
| Paths.SourcePathsDistinct | main.cpp:78-86 | Under the same condition, no path is walked twice by the listing. |
| Paths.TwiceListed | main.cpp:30-31 | Task 1 listing task 0 twice gives task 0 the successor list 1, 1, and the listing walks the path 0, 1 twice. |
| Paths.KahnRank | main.cpp:134-136 | A Kahn order that holds every registered task ranks all registered tasks, every source among them, so every edge climbs, which bounds the recursion of the walk. |
| Paths.AcyclicRanked | main.cpp:134-136 | On an acyclic graph whose edges come from registered tasks, the positions in the Kahn order rank the graph. |
| Paths.UnreachableCycleListed | main.cpp:78-86 | With task 0 alone and a cycle between tasks 1 and 2 that no source reaches, a rank of task 0 alone suffices, and the listing walks the single path 0. |
| Worked.Sorted | main.cpp:89-119 | Kahn's algorithm orders the worked example 0, 1, 2, 3. |
| Worked.WorkedSchedule | main.cpp:35-57 | In the worked example the project duration is 5. The earliest start and finish are 0/1, 1/3, 1/4 and 4/5, and the latest start and finish are 0/1, 2/4, 1/4 and 4/5. |
| Worked.WorkedCritical | main.cpp:59-67 | An example, about the worked schedule only: exactly tasks 0, 2 and 3 have equal earliest and latest starts, and task 1 has a slack of 1. |
| Worked.WorkedPaths | main.cpp:78-86 | The listing of the worked example reports 0, 1, 3 with duration 4, then 0, 2, 3 with duration 5. |

## Left out

- `main`, the line parser and the prompts are not part of this model, because they are I/O around the class.
- `displayTasks` is not part of this model, because it only prints the registry.
- The printing in `findPaths` is replaced by returning the reports, one per printed line, in printing order.
- Task names are the numbers below a fixed bound instead of strings. Ascending number order stands for the `std::map` key order.
- `int` arithmetic is unbounded. The 32-bit overflow of durations and times in the C++ is not modelled.
- `std::map::operator[]` inserts an empty list when `graph[x]` or `predecessors[x]` is read for a missing key. The model reads an empty list without inserting it, and nothing observable depends on the difference.
- Cpm.CPM.Calculate: requires a registered task without incoming edges. Otherwise the order is empty and `topoOrder.back()` is undefined behaviour in the C++.
- Cpm.CPM.DisplayAllPaths: requires a rank that grows along every edge out of a ranked task, with every source ranked. Only the tasks reachable from a source need a rank, so a cycle that no source reaches is allowed (`UnreachableCycleListed`). On a cycle reachable from a source the C++ recursion never terminates, and that is not modelled. `AcyclicRanked` supplies the rank on acyclic graphs.
- Cpm.CPM.FindPaths: requires the same rank on the tasks reachable from the current task, for the same reason.
- Timing.SlackNonNegative: needs every edge declared among its target's predecessors. This can fail after a name is registered again with a shorter predecessor list. It also needs an order that holds every registered task, because an unordered successor's stale latest start is still read (`StaleSuccessorSlack`).
- Timing.SingleEndSlack: needs the same two hypotheses, for the same reasons, and nonnegative durations, because a task of negative duration after the others lets the project duration fall below their earliest finishes.
- Kahn.KahnSort: bounds the rounds by the number of registered tasks. Every round orders a new registered task, so the bound never cuts the run short (`Cpm.RunEnd`).
- The error reporting that a cleaner design would add (cycle and unknown-predecessor errors, negative durations) is not modelled. The class does none of it: it orders what it can and schedules only those tasks.
