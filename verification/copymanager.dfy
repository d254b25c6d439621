/**
 * `CopyManager` of `copymanager.py`, run sequentially: discovery finishes,
 * the distinct discovered paths become tasks, then each worker claims
 * batches of ten until a claim comes back empty, runs every claimed task
 * through the runner and records one status event per task.
 */
module CopyManager {
  import opened Results
  import opened TaskStore
  import opened Discovery
  import opened Runners

  /** `worker_list`: how many tasks a worker claims at a time. */
  const BatchSize := 10

  /** The status the runner reports for a task. */
  function RunnerStatus(runner: Runner, t: Task): Status
  {
    ProcessDir(runner, t.root, t.source, t.destination).0
  }

  /** `process_task` for one claimed row: run it and record the runner's status for its task id. */
  function ProcessTask(s: Store, runner: Runner, row: Row): (r: Store)
    ensures r.tasks == s.tasks
    ensures r.events == s.events + [Event(row.taskId, RunnerStatus(runner, row.task))]
    ensures Valid(s) ==> Valid(r)
    ensures CurrentStatus(r, row.taskId) == Some(RunnerStatus(runner, row.task))
    ensures forall id :: id != row.taskId ==> CurrentStatus(r, id) == CurrentStatus(s, id)
  {
    var update := [Event(row.taskId, RunnerStatus(runner, row.task))];
    forall id
      ensures CurrentStatus(UpdateTask(s, update), id) ==
        if id == row.taskId then Some(RunnerStatus(runner, row.task)) else CurrentStatus(s, id)
    {
      StatusAfterUpdate(s, update, id);
    }
    UpdateTask(s, update)
  }

  /** The rows agree with the store: existing task ids, each with its own triple. */
  predicate RowsOf(s: Store, rows: seq<Row>)
  {
    forall j :: 0 <= j < |rows| ==> IsTaskId(s, rows[j].taskId) && rows[j].task == s.tasks[rows[j].taskId - 1]
  }

  /**
   * A claimed batch, its tasks processed one after the other (the executor
   * may finish them in any order; the ids are distinct, so the final
   * statuses do not depend on it). Each task of the batch ends with the
   * runner's status; every other task keeps its status.
   */
  function ProcessBatch(s: Store, runner: Runner, rows: seq<Row>): (r: Store)
    requires RowsOf(s, rows)
    ensures r.tasks == s.tasks
    ensures |r.events| == |s.events| + |rows| && r.events[..|s.events|] == s.events
    ensures Valid(s) ==> Valid(r)
    ensures forall id ::
      CurrentStatus(r, id) == (if id in TaskIds(rows) then Some(RunnerStatus(runner, s.tasks[id - 1])) else CurrentStatus(s, id))
    decreases |rows|
  {
    if |rows| == 0 then s
    else
      var row := rows[0];
      var s1 := ProcessTask(s, runner, row);
      assert RowsOf(s1, rows[1..]) by {
        forall j | 0 <= j < |rows[1..]|
          ensures IsTaskId(s1, rows[1..][j].taskId)
        {
          assert rows[1..][j] == rows[j + 1];
        }
      }
      var r := ProcessBatch(s1, runner, rows[1..]);
      PrefixOfPrefix(s.events, s1.events, r.events);
      BatchStatusStep(s, s1, r, runner, rows);
      r
  }

  /**
   * The statuses after a batch, from those after its first task and after
   * the rest of the batch.
   */
  lemma {:induction false} BatchStatusStep(s: Store, s1: Store, r: Store, runner: Runner, rows: seq<Row>)
    requires |rows| > 0 && s1.tasks == s.tasks && RowsOf(s, rows) && RowsOf(s1, rows[1..])
    requires CurrentStatus(s1, rows[0].taskId) == Some(RunnerStatus(runner, rows[0].task))
    requires forall id :: id != rows[0].taskId ==> CurrentStatus(s1, id) == CurrentStatus(s, id)
    requires forall id ::
      CurrentStatus(r, id) == (if id in TaskIds(rows[1..]) then Some(RunnerStatus(runner, s1.tasks[id - 1])) else CurrentStatus(s1, id))
    ensures forall id ::
      CurrentStatus(r, id) == (if id in TaskIds(rows) then Some(RunnerStatus(runner, s.tasks[id - 1])) else CurrentStatus(s, id))
  {
    var first, rest := rows[0].taskId, TaskIds(rows[1..]);
    assert TaskIds(rows) == [first] + rest;
    forall id
      ensures CurrentStatus(r, id) == (if id in TaskIds(rows) then Some(RunnerStatus(runner, s.tasks[id - 1])) else CurrentStatus(s, id))
    {
      assert id in TaskIds(rows) <==> id == first || id in rest;
      if id in rest {
        assert CurrentStatus(r, id) == Some(RunnerStatus(runner, s1.tasks[id - 1]));
      } else if id == first {
        assert rows[0].task == s.tasks[id - 1];
      } else {
        assert CurrentStatus(r, id) == CurrentStatus(s1, id);
      }
    }
  }

  /** The ids of the unclaimed tasks. */
  function UnclaimedIds(s: Store): set<nat>
  {
    set id: nat | id <= |s.tasks| && InView(s, UnclaimedView, id)
  }

  /** The ids of a list of rows, as a set. */
  function IdSet(rows: seq<Row>): set<nat>
  {
    set id | id in TaskIds(rows)
  }

  /** Distinct ids make a set as large as the list. */
  lemma {:induction false} DistinctIdsCount(rows: seq<Row>)
    requires forall i, j :: 0 <= i < j < |rows| ==> rows[i].taskId != rows[j].taskId
    ensures |IdSet(rows)| == |rows|
    decreases |rows|
  {
    if |rows| > 0 {
      var rest := rows[1..];
      DistinctTail(rows);
      DistinctIdsCount(rest);
      IdSetCons(rows);
      HeadNotInTail(rows);
    }
  }

  /** The tail of a list of distinct ids has distinct ids. */
  lemma DistinctTail(rows: seq<Row>)
    requires |rows| > 0 && forall i, j :: 0 <= i < j < |rows| ==> rows[i].taskId != rows[j].taskId
    ensures forall i, j :: 0 <= i < j < |rows[1..]| ==> rows[1..][i].taskId != rows[1..][j].taskId
  {
    var rest := rows[1..];
    forall i, j | 0 <= i < j < |rest|
      ensures rest[i].taskId != rest[j].taskId
    {
      assert rest[i] == rows[i + 1] && rest[j] == rows[j + 1];
    }
  }

  /** The id set of a list is its head's id together with its tail's ids. */
  lemma IdSetCons(rows: seq<Row>)
    requires |rows| > 0
    ensures IdSet(rows) == IdSet(rows[1..]) + {rows[0].taskId}
  {
    assert TaskIds(rows) == [rows[0].taskId] + TaskIds(rows[1..]);
  }

  /** With distinct ids, the head's id is not among the tail's. */
  lemma HeadNotInTail(rows: seq<Row>)
    requires |rows| > 0 && forall i, j :: 0 <= i < j < |rows| ==> rows[i].taskId != rows[j].taskId
    ensures rows[0].taskId !in IdSet(rows[1..])
  {
    var rest := rows[1..];
    forall x | x in IdSet(rest)
      ensures x != rows[0].taskId
    {
      var j :| 0 <= j < |rest| && TaskIds(rest)[j] == x;
      assert rest[j] == rows[j + 1];
    }
  }

  /** Taking a subset away leaves the difference of the sizes. */
  lemma SubsetDifferenceCount(a: set<nat>, b: set<nat>)
    requires b <= a
    ensures |a - b| == |a| - |b|
  {
    assert a == (a - b) + b;
    assert (a - b) * b == {};
  }

  /** A claim shrinks the unclaimed set by exactly the tasks it hands out. */
  lemma ClaimShrinks(s: Store)
    ensures |UnclaimedIds(GetUnclaimedTasks(s, BatchSize).store)| + |GetUnclaimedTasks(s, BatchSize).rows| == |UnclaimedIds(s)|
  {
    var c := GetUnclaimedTasks(s, BatchSize);
    var claimed := IdSet(c.rows);
    assert |claimed| == |c.rows| by {
      DistinctIdsCount(c.rows);
    }
    ClaimedWereUnclaimed(s);
    UnclaimedAfterClaim(s);
    SubsetDifferenceCount(UnclaimedIds(s), claimed);
  }

  /** Every task a claim hands out was unclaimed. */
  lemma ClaimedWereUnclaimed(s: Store)
    ensures IdSet(GetUnclaimedTasks(s, BatchSize).rows) <= UnclaimedIds(s)
  {
    var c := GetUnclaimedTasks(s, BatchSize);
    forall id | id in IdSet(c.rows)
      ensures id in UnclaimedIds(s)
    {
      var j :| 0 <= j < |c.rows| && TaskIds(c.rows)[j] == id;
      assert InView(s, UnclaimedView, c.rows[j].taskId);
    }
  }

  /** After a claim the unclaimed tasks are the earlier ones less those handed out. */
  lemma UnclaimedAfterClaim(s: Store)
    ensures UnclaimedIds(GetUnclaimedTasks(s, BatchSize).store) == UnclaimedIds(s) - IdSet(GetUnclaimedTasks(s, BatchSize).rows)
  {
    ClaimLeavesRest(s, BatchSize);
  }

  /**
   * What a worker has achieved so far for task `id`, starting from store
   * `s0`: a task that was unclaimed is still unclaimed, or in the batch at
   * hand (in progress), or done with the runner's status; any other task
   * keeps its status and is never claimed.
   */
  predicate WorkerProgress(s0: Store, s: Store, runner: Runner, batch: seq<Row>, id: nat)
    requires IsTaskId(s0, id)
  {
    if InView(s0, UnclaimedView, id) then
      InView(s, UnclaimedView, id) ||
      (id in TaskIds(batch) && CurrentStatus(s, id) == Some(Progress)) ||
      CurrentStatus(s, id) == Some(RunnerStatus(runner, s0.tasks[id - 1]))
    else CurrentStatus(s, id) == CurrentStatus(s0, id) && id !in TaskIds(batch)
  }

  /** The loop invariant of `__worker`: the store after the latest claim and the batch it returned. */
  ghost predicate WorkerInvariant(s0: Store, s: Store, runner: Runner, batch: seq<Row>)
  {
    Valid(s) && s.tasks == s0.tasks &&
    |s0.events| <= |s.events| && s.events[..|s0.events|] == s0.events &&
    RowsOf(s, batch) &&
    (forall id :: id in TaskIds(batch) ==> CurrentStatus(s, id) == Some(Progress)) &&
    (forall id :: IsTaskId(s0, id) ==> WorkerProgress(s0, s, runner, batch, id)) &&
    (|batch| == 0 ==> forall id :: !InView(s, UnclaimedView, id))
  }

  /** Between batches: every task is as `WorkerProgress` allows with no batch in hand. */
  ghost predicate BetweenBatches(s0: Store, s: Store, runner: Runner)
  {
    Valid(s) && s.tasks == s0.tasks &&
    |s0.events| <= |s.events| && s.events[..|s0.events|] == s0.events &&
    forall id :: IsTaskId(s0, id) ==> WorkerProgress(s0, s, runner, [], id)
  }

  lemma ClaimKeepsRows(s: Store)
    ensures RowsOf(GetUnclaimedTasks(s, BatchSize).store, GetUnclaimedTasks(s, BatchSize).rows)
  {
    var c := GetUnclaimedTasks(s, BatchSize);
    forall j | 0 <= j < |c.rows|
      ensures IsTaskId(c.store, c.rows[j].taskId) && c.rows[j].task == c.store.tasks[c.rows[j].taskId - 1]
    {
      assert InView(s, UnclaimedView, c.rows[j].taskId);
    }
  }

  lemma ClaimMarksProgress(s: Store)
    ensures var c := GetUnclaimedTasks(s, BatchSize);
      forall id :: id in TaskIds(c.rows) ==> CurrentStatus(c.store, id) == Some(Progress)
  {
  }

  /** A claim keeps `WorkerProgress` for one task. */
  lemma ClaimKeepsOne(s0: Store, s: Store, runner: Runner, id: nat)
    requires BetweenBatches(s0, s, runner) && IsTaskId(s0, id)
    ensures var c := GetUnclaimedTasks(s, BatchSize);
      WorkerProgress(s0, c.store, runner, c.rows, id)
  {
    var c := GetUnclaimedTasks(s, BatchSize);
    ClaimLeavesRest(s, BatchSize);
    assert WorkerProgress(s0, s, runner, [], id);
    if id in TaskIds(c.rows) {
      var j :| 0 <= j < |c.rows| && TaskIds(c.rows)[j] == id;
      assert InView(s, UnclaimedView, c.rows[j].taskId);
    }
  }

  lemma ClaimKeepsProgress(s0: Store, s: Store, runner: Runner)
    requires BetweenBatches(s0, s, runner)
    ensures var c := GetUnclaimedTasks(s, BatchSize);
      forall id :: IsTaskId(s0, id) ==> WorkerProgress(s0, c.store, runner, c.rows, id)
  {
    forall id | IsTaskId(s0, id)
      ensures WorkerProgress(s0, GetUnclaimedTasks(s, BatchSize).store, runner, GetUnclaimedTasks(s, BatchSize).rows, id)
    {
      ClaimKeepsOne(s0, s, runner, id);
    }
  }

  lemma ClaimEmptyMeansDone(s: Store)
    ensures var c := GetUnclaimedTasks(s, BatchSize);
      |c.rows| == 0 ==> forall id :: !InView(c.store, UnclaimedView, id)
  {
  }

  /** The conjuncts of the worker's invariant, gathered. */
  lemma InvariantOfParts(s0: Store, s: Store, runner: Runner, batch: seq<Row>)
    requires Valid(s) && s.tasks == s0.tasks
    requires |s0.events| <= |s.events| && s.events[..|s0.events|] == s0.events
    requires RowsOf(s, batch)
    requires forall id :: id in TaskIds(batch) ==> CurrentStatus(s, id) == Some(Progress)
    requires forall id :: IsTaskId(s0, id) ==> WorkerProgress(s0, s, runner, batch, id)
    requires |batch| == 0 ==> forall id :: !InView(s, UnclaimedView, id)
    ensures WorkerInvariant(s0, s, runner, batch)
  {
  }

  /** Before its first claim a worker is between batches. */
  lemma NothingDoneYet(s0: Store, runner: Runner)
    requires Valid(s0)
    ensures BetweenBatches(s0, s0, runner)
  {
    assert s0.events[..|s0.events|] == s0.events;
  }

  /** A claim made between batches establishes the worker's loop invariant. */
  lemma ClaimStartsRound(s0: Store, s: Store, runner: Runner)
    requires BetweenBatches(s0, s, runner)
    ensures WorkerInvariant(s0, GetUnclaimedTasks(s, BatchSize).store, runner, GetUnclaimedTasks(s, BatchSize).rows)
  {
    var c := GetUnclaimedTasks(s, BatchSize);
    assert c.store.events[..|s0.events|] == s0.events by {
      PrefixOfPrefix(s0.events, s.events, c.store.events);
    }
    ClaimKeepsRows(s);
    ClaimMarksProgress(s);
    ClaimKeepsProgress(s0, s, runner);
    ClaimEmptyMeansDone(s);
    InvariantOfParts(s0, c.store, runner, c.rows);
  }

  /** A prefix of a prefix is a prefix. */
  lemma PrefixOfPrefix(a: seq<Event>, b: seq<Event>, c: seq<Event>)
    requires |a| <= |b| <= |c| && b[..|a|] == a && c[..|b|] == b
    ensures c[..|a|] == a
  {
    assert c[..|a|] == c[..|b|][..|a|];
  }

  /** Running the batch in hand keeps `WorkerProgress` for one task, now with no batch in hand. */
  lemma BatchFinishesOne(s0: Store, s: Store, runner: Runner, batch: seq<Row>, id: nat)
    requires RowsOf(s, batch) && s.tasks == s0.tasks && IsTaskId(s0, id)
    requires WorkerProgress(s0, s, runner, batch, id)
    ensures WorkerProgress(s0, ProcessBatch(s, runner, batch), runner, [], id)
  {
    var st := ProcessDir(runner, s0.tasks[id - 1].root, s0.tasks[id - 1].source, s0.tasks[id - 1].destination).0;
    assert st != Progress;
  }

  /** Running the batch in hand brings the worker back between batches. */
  lemma BatchFinishesRound(s0: Store, s: Store, runner: Runner, batch: seq<Row>)
    requires WorkerInvariant(s0, s, runner, batch)
    ensures BetweenBatches(s0, ProcessBatch(s, runner, batch), runner)
  {
    var s1 := ProcessBatch(s, runner, batch);
    assert s1.events[..|s0.events|] == s0.events by {
      PrefixOfPrefix(s0.events, s.events, s1.events);
    }
    forall id | IsTaskId(s0, id)
      ensures WorkerProgress(s0, s1, runner, [], id)
    {
      assert WorkerProgress(s0, s, runner, batch, id);
      BatchFinishesOne(s0, s, runner, batch, id);
    }
  }

  /** Running the batch in hand leaves the unclaimed tasks as they were. */
  lemma BatchKeepsUnclaimed(s0: Store, s: Store, runner: Runner, batch: seq<Row>)
    requires WorkerInvariant(s0, s, runner, batch)
    ensures UnclaimedIds(ProcessBatch(s, runner, batch)) == UnclaimedIds(s)
  {
    BatchKeepsUnclaimedIds(s, runner, batch);
  }

  /** Processing a batch of tasks in progress neither claims nor releases any task. */
  lemma BatchKeepsUnclaimedIds(s: Store, runner: Runner, batch: seq<Row>)
    requires RowsOf(s, batch)
    requires forall id :: id in TaskIds(batch) ==> CurrentStatus(s, id) == Some(Progress)
    ensures UnclaimedIds(ProcessBatch(s, runner, batch)) == UnclaimedIds(s)
  {
    var s1 := ProcessBatch(s, runner, batch);
    assert s1.tasks == s.tasks;
    forall id | 1 <= id <= |s.tasks|
      ensures InView(s1, UnclaimedView, id) == InView(s, UnclaimedView, id)
    {
      BatchLeavesViewAlone(s, runner, batch, id);
    }
  }

  /** A task the batch does not hold keeps its status; one it holds was in progress and gets a runner status. */
  lemma BatchLeavesViewAlone(s: Store, runner: Runner, batch: seq<Row>, id: nat)
    requires RowsOf(s, batch) && 1 <= id <= |s.tasks|
    requires id in TaskIds(batch) ==> CurrentStatus(s, id) == Some(Progress)
    ensures InView(ProcessBatch(s, runner, batch), UnclaimedView, id) == InView(s, UnclaimedView, id)
  {
    var s1 := ProcessBatch(s, runner, batch);
    if id in TaskIds(batch) {
      assert CurrentStatus(s1, id) == Some(RunnerStatus(runner, s.tasks[id - 1]));
    } else {
      assert CurrentStatus(s1, id) == CurrentStatus(s, id);
    }
  }

  /** One round of the worker loop keeps the invariant and shrinks the measure. */
  lemma WorkerStep(s0: Store, s: Store, runner: Runner, batch: seq<Row>)
    requires WorkerInvariant(s0, s, runner, batch) && |batch| > 0
    ensures var c := GetUnclaimedTasks(ProcessBatch(s, runner, batch), BatchSize);
      WorkerInvariant(s0, c.store, runner, c.rows) &&
      |UnclaimedIds(c.store)| + |c.rows| < |UnclaimedIds(s)| + |batch|
  {
    var s1 := ProcessBatch(s, runner, batch);
    BatchKeepsUnclaimed(s0, s, runner, batch);
    BatchFinishesRound(s0, s, runner, batch);
    ClaimStartsRound(s0, s1, runner);
    ClaimShrinks(s1);
  }

  /** The status a worker run leaves a task with: the runner's if the task was unclaimed, the old one otherwise. */
  function AfterWorker(s0: Store, runner: Runner, id: nat): Option<Status>
    requires IsTaskId(s0, id)
  {
    if InView(s0, UnclaimedView, id) then Some(RunnerStatus(runner, s0.tasks[id - 1])) else CurrentStatus(s0, id)
  }

  /** A worker whose latest claim came back empty has finished every task it could. */
  lemma WorkerDone(s0: Store, s: Store, runner: Runner, batch: seq<Row>)
    requires WorkerInvariant(s0, s, runner, batch) && |batch| == 0
    ensures Valid(s) && s.tasks == s0.tasks
    ensures |s0.events| <= |s.events| && s.events[..|s0.events|] == s0.events
    ensures forall id :: !InView(s, UnclaimedView, id)
    ensures forall id :: IsTaskId(s0, id) ==> CurrentStatus(s, id) == AfterWorker(s0, runner, id)
  {
    forall id | IsTaskId(s0, id)
      ensures CurrentStatus(s, id) == AfterWorker(s0, runner, id)
    {
      assert WorkerProgress(s0, s, runner, batch, id);
    }
  }

  /**
   * `__worker`: claim a batch of ten, and while it is not empty run every
   * task of it and claim again. When it returns no task is unclaimed, every
   * task that was unclaimed carries the runner's status, and every other
   * task kept its status.
   */
  method Worker(s0: Store, runner: Runner) returns (s: Store)
    requires Valid(s0)
    ensures Valid(s) && s.tasks == s0.tasks
    ensures |s0.events| <= |s.events| && s.events[..|s0.events|] == s0.events
    ensures forall id :: !InView(s, UnclaimedView, id)
    ensures forall id :: IsTaskId(s0, id) ==> CurrentStatus(s, id) == AfterWorker(s0, runner, id)
  {
    var c := GetUnclaimedTasks(s0, BatchSize);
    NothingDoneYet(s0, runner);
    ClaimStartsRound(s0, s0, runner);
    s := c.store;
    var batch := c.rows;
    while |batch| > 0
      invariant WorkerInvariant(s0, s, runner, batch)
      decreases |UnclaimedIds(s)| + |batch|
    {
      WorkerStep(s0, s, runner, batch);
      c := GetUnclaimedTasks(ProcessBatch(s, runner, batch), BatchSize);
      s := c.store;
      batch := c.rows;
    }
    WorkerDone(s0, s, runner, batch);
  }

  /** The task triple `(source, path, destination)` of every discovered path. */
  function TasksFor(source: string, paths: seq<string>, destination: string): (ts: seq<Task>)
    ensures |ts| == |paths|
    ensures forall j :: 0 <= j < |paths| ==> ts[j] == Task(source, paths[j], destination)
  {
    if |paths| == 0 then [] else [Task(source, paths[0], destination)] + TasksFor(source, paths[1..], destination)
  }

  /** The tasks built from an enumeration of the found paths are exactly the triples over the found paths. */
  lemma TasksForFound(source: string, found: seq<string>, dirs: seq<string>, destination: string)
    requires forall x :: x in dirs <==> x in found
    ensures forall t: Task :: t in TasksFor(source, dirs, destination) <==>
      t.root == source && t.destination == destination && t.source in found
  {
    var ts := TasksFor(source, dirs, destination);
    forall t: Task | t.root == source && t.destination == destination && t.source in found
      ensures t in ts
    {
      assert t.source in dirs;
      var j :| 0 <= j < |dirs| && dirs[j] == t.source;
      assert ts[j] == t;
    }
  }

  /**
   * `__process_transfer` against a store left by earlier runs: discover,
   * insert one task per distinct discovered path, then run the workers one
   * after the other. With at least one worker, nothing is left unclaimed;
   * every new or previously unclaimed task carries the runner's status, and
   * every other task (a completed one in particular) keeps its status.
   */
  method ProcessTransfer(s0: Store, source: string, destination: string, tree: Dir, depth: int,
                         threadCount: int, runner: Runner) returns (s: Store)
    requires Valid(s0)
    ensures Valid(s)
    ensures |s0.tasks| <= |s.tasks| && s.tasks[..|s0.tasks|] == s0.tasks
    ensures forall t: Task ::
      t in s.tasks <==> t in s0.tasks || (t.root == source && t.destination == destination && t.source in GetDirs(source, tree, depth))
    ensures threadCount >= 1 ==> forall id :: !InView(s, UnclaimedView, id)
    ensures threadCount >= 1 ==> forall id :: IsTaskId(s0, id) ==> CurrentStatus(s, id) == AfterWorker(s0, runner, id)
    ensures threadCount >= 1 ==> forall id :: |s0.tasks| < id <= |s.tasks| ==> CurrentStatus(s, id) == Some(RunnerStatus(runner, s.tasks[id - 1]))
  {
    var found := GetDirs(source, tree, depth);
    var dirs := Enumerate(set p | p in found);
    var ts := TasksFor(source, dirs, destination);
    TasksForFound(source, found, dirs, destination);
    s := AddTasks(s0, ts);
    ghost var added := s;
    var i := 0;
    while i < threadCount
      invariant Valid(s) && s.tasks == added.tasks
      invariant i >= 1 ==> forall id :: !InView(s, UnclaimedView, id)
      invariant forall id :: IsTaskId(s, id) ==>
        CurrentStatus(s, id) == (if i >= 1 then AfterWorker(added, runner, id) else CurrentStatus(added, id))
    {
      ghost var prev := s;
      s := Worker(s, runner);
      forall id | IsTaskId(s, id)
        ensures CurrentStatus(s, id) == AfterWorker(added, runner, id)
      {
        assert IsTaskId(prev, id);
      }
      i := i + 1;
    }
    AddedAfterWorker(s0, added, runner);
    if threadCount >= 1 {
      forall id | IsTaskId(s0, id)
        ensures CurrentStatus(s, id) == AfterWorker(s0, runner, id)
      {
        assert IsTaskId(s, id);
      }
      forall id | |s0.tasks| < id <= |s.tasks|
        ensures CurrentStatus(s, id) == Some(RunnerStatus(runner, s.tasks[id - 1]))
      {
        assert IsTaskId(s, id);
      }
    }
  }

  /**
   * Tasks added after `s0` change nothing a worker does to the old ones, and
   * a worker gives each new one (still `discovered`) the runner's status.
   */
  lemma AddedAfterWorker(s0: Store, added: Store, runner: Runner)
    requires |s0.tasks| <= |added.tasks| && added.tasks[..|s0.tasks|] == s0.tasks
    requires forall id :: IsTaskId(s0, id) ==> CurrentStatus(added, id) == CurrentStatus(s0, id)
    requires forall id :: |s0.tasks| < id <= |added.tasks| ==> CurrentStatus(added, id) == Some(Discovered)
    ensures forall id :: IsTaskId(s0, id) ==> AfterWorker(added, runner, id) == AfterWorker(s0, runner, id)
    ensures forall id :: |s0.tasks| < id <= |added.tasks| ==> AfterWorker(added, runner, id) == Some(RunnerStatus(runner, added.tasks[id - 1]))
  {
    forall id | IsTaskId(s0, id)
      ensures AfterWorker(added, runner, id) == AfterWorker(s0, runner, id)
    {
      assert IsTaskId(added, id) && added.tasks[id - 1] == s0.tasks[id - 1];
    }
  }
}
