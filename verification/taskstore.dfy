/**
 * The task store of `taskpersistence.py` as an in-memory state machine: the
 * `tasks` table with its composite primary key, the append-only `task_event`
 * table, the `new_task` trigger, and the `unclaimed_task` and
 * `remaining_tasks` views, which read each task's latest event.
 */
module TaskStore {
  import opened Results

  /** The statuses written to the event log. */
  datatype Status = Discovered | Progress | Completed | Errored | NoOp

  /** A row of `tasks`; the three paths together are the primary key. */
  datatype Task = Task(root: string, source: string, destination: string)

  /** A row of `task_event`; `taskId` is the rowid of a `tasks` row. Timestamps are not modelled. */
  datatype Event = Event(taskId: nat, status: Status)

  /** Both tables in rowid order: `tasks[k]` and `events[k]` have rowid `k + 1`. */
  datatype Store = Store(tasks: seq<Task>, events: seq<Event>)

  /** A row of a view: task rowid, rowid of its latest event, the task, that event's status. */
  datatype Row = Row(taskId: nat, eventId: nat, task: Task, status: Status)

  /** The two views over the latest-event-per-task projection. */
  datatype View = UnclaimedView | RemainingView

  /** The store `CREATE TABLE IF NOT EXISTS` leaves behind in a fresh file. */
  const EmptyStore := Store([], [])

  /** The rowid of an existing task. */
  predicate IsTaskId(s: Store, id: nat)
  {
    1 <= id <= |s.tasks|
  }

  /**
   * The position of the task's event with the largest rowid: the row that
   * `GROUP BY t.rowid HAVING MAX(e.rowid)` is meant to pick.
   */
  function LastEvent(events: seq<Event>, id: nat): (r: Option<nat>)
    ensures r.Some? ==> r.value < |events| && events[r.value].taskId == id
    ensures r.Some? ==> forall k :: r.value < k < |events| ==> events[k].taskId != id
    ensures r.None? ==> forall k :: 0 <= k < |events| ==> events[k].taskId != id
  {
    if |events| == 0 then None
    else if events[|events| - 1].taskId == id then Some(|events| - 1)
    else LastEvent(events[..|events| - 1], id)
  }

  /** A task's current status: the status of its latest event. */
  function CurrentStatus(s: Store, id: nat): Option<Status>
  {
    match LastEvent(s.events, id)
    case None => None
    case Some(k) => Some(s.events[k].status)
  }

  /** The schema's invariants: the primary key keeps the triples distinct and the trigger gives every task an event. */
  predicate Valid(s: Store)
  {
    (forall i, j :: 0 <= i < j < |s.tasks| ==> s.tasks[i] != s.tasks[j]) &&
    (forall id: nat | 1 <= id <= |s.tasks| :: CurrentStatus(s, id).Some?)
  }

  /** The `WHERE` clause of a view: `IN ('discovered')` or `NOT IN ('completed')`. */
  predicate Selects(v: View, st: Status)
  {
    match v
    case UnclaimedView => st == Discovered
    case RemainingView => st != Completed
  }

  /** The task is listed by the view: it exists and its current status passes the view's filter. */
  predicate InView(s: Store, v: View, id: nat)
  {
    IsTaskId(s, id) && CurrentStatus(s, id).Some? && Selects(v, CurrentStatus(s, id).value)
  }

  /** The task ids of a list of rows, in order. */
  function TaskIds(rows: seq<Row>): (ids: seq<nat>)
    ensures |ids| == |rows|
    ensures forall j :: 0 <= j < |rows| ==> ids[j] == rows[j].taskId
  {
    if |rows| == 0 then [] else [rows[0].taskId] + TaskIds(rows[1..])
  }

  /** A view row agrees with the tables: it carries the task's latest event and passes the filter. */
  predicate RowFits(s: Store, v: View, row: Row)
  {
    IsTaskId(s, row.taskId) && 1 <= row.eventId <= |s.events| &&
    LastEvent(s.events, row.taskId) == Some(row.eventId - 1) &&
    row.task == s.tasks[row.taskId - 1] &&
    row.status == s.events[row.eventId - 1].status &&
    Selects(v, row.status)
  }

  /**
   * The rows of view `v` whose latest event sits at position `k` or later, in
   * ascending rowid of that event (the subquery's `ORDER BY e.rowid`).
   */
  function ViewRowsFrom(s: Store, v: View, k: nat): (r: seq<Row>)
    requires k <= |s.events|
    ensures forall j :: 0 <= j < |r| ==> RowFits(s, v, r[j]) && k < r[j].eventId
    ensures forall i, j :: 0 <= i < j < |r| ==> r[i].eventId < r[j].eventId
    decreases |s.events| - k
  {
    if k == |s.events| then []
    else
      var e := s.events[k];
      var rest := ViewRowsFrom(s, v, k + 1);
      if IsTaskId(s, e.taskId) && LastEvent(s.events, e.taskId) == Some(k) && Selects(v, e.status)
      then [Row(e.taskId, k + 1, s.tasks[e.taskId - 1], e.status)] + rest
      else rest
  }

  /** Every selected task whose latest event sits at position `k` or later is listed. */
  lemma {:induction false} ViewRowsComplete(s: Store, v: View, k: nat, id: nat)
    requires k <= |s.events|
    requires InView(s, v, id) && LastEvent(s.events, id).value >= k
    ensures id in TaskIds(ViewRowsFrom(s, v, k))
    decreases |s.events| - k
  {
    var last := LastEvent(s.events, id).value;
    var r := ViewRowsFrom(s, v, k);
    if last == k {
      assert r[0].taskId == id;
      assert TaskIds(r)[0] == id;
    } else {
      ViewRowsComplete(s, v, k + 1, id);
      var rest := ViewRowsFrom(s, v, k + 1);
      var e := s.events[k];
      if IsTaskId(s, e.taskId) && LastEvent(s.events, e.taskId) == Some(k) && Selects(v, e.status) {
        assert r[1..] == rest;
        assert TaskIds(r) == [r[0].taskId] + TaskIds(rest);
      } else {
        assert r == rest;
      }
    }
  }

  /** `SELECT * FROM unclaimed_task`: tasks whose latest status is `discovered`. */
  function UnclaimedTasks(s: Store): (r: seq<Row>)
    ensures forall id :: id in TaskIds(r) <==> InView(s, UnclaimedView, id)
  {
    ViewListsSelected(s, UnclaimedView);
    ViewRowsFrom(s, UnclaimedView, 0)
  }

  /** `get_remaining_tasks`: tasks whose latest status is not `completed`. */
  function RemainingTasks(s: Store): (r: seq<Row>)
    ensures forall id :: id in TaskIds(r) <==> InView(s, RemainingView, id)
  {
    ViewListsSelected(s, RemainingView);
    ViewRowsFrom(s, RemainingView, 0)
  }

  /**
   * A view lists exactly the tasks its filter selects, each once, and every
   * row carries that task's latest event.
   */
  lemma ViewListsSelected(s: Store, v: View)
    ensures forall id :: id in TaskIds(ViewRowsFrom(s, v, 0)) <==> InView(s, v, id)
    ensures forall j :: 0 <= j < |ViewRowsFrom(s, v, 0)| ==> RowFits(s, v, ViewRowsFrom(s, v, 0)[j])
    ensures forall i, j :: 0 <= i < j < |ViewRowsFrom(s, v, 0)| ==>
      ViewRowsFrom(s, v, 0)[i].taskId != ViewRowsFrom(s, v, 0)[j].taskId
  {
    ViewListsOnlySelected(s, v);
    ViewListsAllSelected(s, v);
    ViewRowsDistinct(s, v);
  }

  /** Every listed task is selected. */
  lemma ViewListsOnlySelected(s: Store, v: View)
    ensures forall id :: id in TaskIds(ViewRowsFrom(s, v, 0)) ==> InView(s, v, id)
  {
    var rows := ViewRowsFrom(s, v, 0);
    forall id | id in TaskIds(rows)
      ensures InView(s, v, id)
    {
      var j :| 0 <= j < |rows| && TaskIds(rows)[j] == id;
      RowFitsInView(s, v, rows[j]);
    }
  }

  /** A row that fits the view is for a task the view selects. */
  lemma RowFitsInView(s: Store, v: View, row: Row)
    requires RowFits(s, v, row)
    ensures InView(s, v, row.taskId)
  {
  }

  /** Every selected task is listed. */
  lemma ViewListsAllSelected(s: Store, v: View)
    ensures forall id :: InView(s, v, id) ==> id in TaskIds(ViewRowsFrom(s, v, 0))
  {
    forall id | InView(s, v, id)
      ensures id in TaskIds(ViewRowsFrom(s, v, 0))
    {
      ViewRowsComplete(s, v, 0, id);
    }
  }

  /** No task is listed twice: each row carries its task's one latest event. */
  lemma ViewRowsDistinct(s: Store, v: View)
    ensures forall i, j :: 0 <= i < j < |ViewRowsFrom(s, v, 0)| ==>
      ViewRowsFrom(s, v, 0)[i].taskId != ViewRowsFrom(s, v, 0)[j].taskId
  {
  }

  /** A task whose latest status is `completed` is listed by neither view. */
  lemma CompletedNotListed(s: Store, id: nat)
    requires CurrentStatus(s, id) == Some(Completed)
    ensures id !in TaskIds(UnclaimedTasks(s)) && id !in TaskIds(RemainingTasks(s))
  {
    ViewListsSelected(s, UnclaimedView);
    ViewListsSelected(s, RemainingView);
  }

  /** Every unclaimed task is also a remaining one. */
  lemma UnclaimedAreRemaining(s: Store)
    ensures forall id :: id in TaskIds(UnclaimedTasks(s)) ==> id in TaskIds(RemainingTasks(s))
  {
    ViewListsSelected(s, UnclaimedView);
    ViewListsSelected(s, RemainingView);
  }

  /** After appending events, a task's latest event is its last appended one, or the old one if none was appended. */
  lemma {:induction false} LastEventAppend(events: seq<Event>, more: seq<Event>, id: nat)
    ensures LastEvent(events + more, id) ==
      match LastEvent(more, id)
      case Some(k) => Some(|events| + k)
      case None => LastEvent(events, id)
    decreases |more|
  {
    if |more| == 0 {
      assert events + more == events;
    } else {
      var all := events + more;
      assert all[..|all| - 1] == events + more[..|more| - 1];
      LastEventAppend(events, more[..|more| - 1], id);
    }
  }

  /**
   * `update_task`: one `INSERT INTO task_event` per `(task_id, status)` pair,
   * in order. The task ids are not checked against `tasks` (the foreign key
   * names a column `tasks(id)` that does not exist and is not enforced).
   */
  function UpdateTask(s: Store, updates: seq<Event>): (r: Store)
    ensures r.tasks == s.tasks
    ensures |r.events| == |s.events| + |updates|
    ensures r.events[..|s.events|] == s.events
    ensures r.events[|s.events|..] == updates
    ensures Valid(s) ==> Valid(r)
  {
    var r := Store(s.tasks, s.events + updates);
    assert r.events[|s.events|..] == updates;
    assert r.events[..|s.events|] == s.events;
    forall id | IsTaskId(r, id) && CurrentStatus(s, id).Some?
      ensures CurrentStatus(r, id).Some?
    {
      LastEventAppend(s.events, updates, id);
    }
    r
  }

  /**
   * The status a task has after `update_task`: the status of its last pair in
   * the batch when it has one, its previous status otherwise.
   */
  lemma StatusAfterUpdate(s: Store, updates: seq<Event>, id: nat)
    ensures CurrentStatus(UpdateTask(s, updates), id) ==
      match LastEvent(updates, id)
      case Some(k) => Some(updates[k].status)
      case None => CurrentStatus(s, id)
  {
    LastEventAppend(s.events, updates, id);
  }

  /**
   * One row of `add_tasks`: `INSERT OR IGNORE` on the primary key, and the
   * `new_task` trigger appending a `discovered` event for the new rowid.
   */
  function AddTask(s: Store, t: Task): (r: Store)
    ensures t in r.tasks
    ensures t in s.tasks ==> r == s
    ensures t !in s.tasks ==> r.tasks == s.tasks + [t] && r.events == s.events + [Event(|s.tasks| + 1, Discovered)]
    ensures t !in s.tasks ==> CurrentStatus(r, |r.tasks|) == Some(Discovered)
    ensures forall id :: IsTaskId(s, id) ==> CurrentStatus(r, id) == CurrentStatus(s, id)
    ensures r.events[..|s.events|] == s.events
    ensures Valid(s) ==> Valid(r)
  {
    if t in s.tasks then s
    else
      var e := Event(|s.tasks| + 1, Discovered);
      var r := Store(s.tasks + [t], s.events + [e]);
      assert r.events[..|s.events|] == s.events;
      forall id | id != |s.tasks| + 1
        ensures CurrentStatus(r, id) == CurrentStatus(s, id)
      {
        LastEventAppend(s.events, [e], id);
      }
      LastEventAppend(s.events, [e], |s.tasks| + 1);
      r
  }

  /**
   * `add_tasks`: the rows inserted one after the other. The set of triples
   * grows by exactly the ones given, existing tasks keep their status, and
   * every new event is the `discovered` event of a new task.
   */
  function AddTasks(s: Store, ts: seq<Task>): (r: Store)
    ensures forall t :: t in r.tasks <==> t in s.tasks || t in ts
    ensures |s.tasks| <= |r.tasks| && r.tasks[..|s.tasks|] == s.tasks
    ensures |r.events| - |s.events| == |r.tasks| - |s.tasks|
    ensures r.events[..|s.events|] == s.events
    ensures forall id :: IsTaskId(s, id) ==> CurrentStatus(r, id) == CurrentStatus(s, id)
    ensures forall id :: |s.tasks| < id <= |r.tasks| ==> CurrentStatus(r, id) == Some(Discovered)
    ensures Valid(s) ==> Valid(r)
    decreases |ts|
  {
    if |ts| == 0 then s
    else
      var s1 := AddTask(s, ts[0]);
      var r := AddTasks(s1, ts[1..]);
      assert r.tasks[..|s.tasks|] == s1.tasks[..|s.tasks|];
      assert r.events[..|s.events|] == s1.events[..|s.events|];
      assert forall t :: t in ts <==> t == ts[0] || t in ts[1..];
      forall id | IsTaskId(s, id)
        ensures CurrentStatus(r, id) == CurrentStatus(s, id)
      {
        assert IsTaskId(s1, id);
      }
      forall id | |s.tasks| < id <= |r.tasks|
        ensures CurrentStatus(r, id) == Some(Discovered)
      {
        if id <= |s1.tasks| {
          assert IsTaskId(s1, id) && id == |s1.tasks|;
        }
      }
      r
  }

  /** Inserting a triple that is already stored leaves both tables unchanged. */
  lemma AddExistingIgnored(s: Store, t: Task)
    requires t in s.tasks
    ensures AddTasks(s, [t]) == s
  {
  }

  /** The outcome of a claim: the store afterwards and the rows handed out. */
  datatype Claim = Claim(store: Store, rows: seq<Row>)

  /** SQL `LIMIT count`: a negative count puts no bound on the rows. */
  function Limit(rows: seq<Row>, count: int): (r: seq<Row>)
    ensures count >= 0 ==> |r| <= count
    ensures |r| <= |rows| && r == rows[..|r|]
    ensures |r| == |rows| || |r| == count
  {
    if count < 0 || |rows| <= count then rows else rows[..count]
  }

  /** One `progress` event per claimed row. */
  function ProgressEvents(rows: seq<Row>): (es: seq<Event>)
    ensures |es| == |rows|
    ensures forall j :: 0 <= j < |rows| ==> es[j] == Event(rows[j].taskId, Progress)
  {
    if |rows| == 0 then [] else [Event(rows[0].taskId, Progress)] + ProgressEvents(rows[1..])
  }

  /** In a batch of `progress` events, exactly the claimed tasks have an event, and it is `progress`. */
  lemma ProgressEventsCover(rows: seq<Row>, id: nat)
    ensures LastEvent(ProgressEvents(rows), id).Some? <==> id in TaskIds(rows)
    ensures LastEvent(ProgressEvents(rows), id).Some? ==>
      ProgressEvents(rows)[LastEvent(ProgressEvents(rows), id).value].status == Progress
  {
    var es := ProgressEvents(rows);
    if id in TaskIds(rows) {
      var j :| 0 <= j < |rows| && TaskIds(rows)[j] == id;
      assert es[j].taskId == id;
    }
  }

  /** Statuses after a batch of `progress` events: claimed tasks are in progress, the others unchanged. */
  lemma StatusAfterProgress(s: Store, rows: seq<Row>, id: nat)
    ensures CurrentStatus(UpdateTask(s, ProgressEvents(rows)), id) ==
      if id in TaskIds(rows) then Some(Progress) else CurrentStatus(s, id)
  {
    StatusAfterUpdate(s, ProgressEvents(rows), id);
    ProgressEventsCover(rows, id);
  }

  /** `StatusAfterProgress` for every task at once. */
  lemma ClaimStatuses(s: Store, rows: seq<Row>)
    ensures forall id ::
      CurrentStatus(UpdateTask(s, ProgressEvents(rows)), id) == if id in TaskIds(rows) then Some(Progress) else CurrentStatus(s, id)
  {
    forall id
      ensures CurrentStatus(UpdateTask(s, ProgressEvents(rows)), id) ==
        if id in TaskIds(rows) then Some(Progress) else CurrentStatus(s, id)
    {
      StatusAfterProgress(s, rows, id);
    }
  }

  /** The rows a claim reads: a prefix of the unclaimed view, each row an unclaimed task, no task twice. */
  lemma ClaimedRowsUnclaimed(s: Store, count: int, rows: seq<Row>)
    requires rows == Limit(UnclaimedTasks(s), count)
    ensures forall j :: 0 <= j < |rows| ==>
      InView(s, UnclaimedView, rows[j].taskId) && rows[j].task == s.tasks[rows[j].taskId - 1]
    ensures forall i, j :: 0 <= i < j < |rows| ==> rows[i].taskId != rows[j].taskId
    ensures |rows| == 0 <==> count == 0 || forall id :: !InView(s, UnclaimedView, id)
  {
    var all := UnclaimedTasks(s);
    ViewListsSelected(s, UnclaimedView);
    assert forall j :: 0 <= j < |rows| ==> rows[j] == all[j];
    if |rows| == 0 {
      assert count != 0 ==> |all| == 0;
    } else {
      assert InView(s, UnclaimedView, all[0].taskId);
    }
  }

  /**
   * `get_unclaimed_tasks(count)`, the lock held for the whole call so that it
   * is one atomic step: read up to `count` unclaimed rows and, when there are
   * any, append a `progress` event for each of them.
   */
  function GetUnclaimedTasks(s: Store, count: int): (c: Claim)
    ensures c.store.tasks == s.tasks
    ensures |s.events| <= |c.store.events| && c.store.events[..|s.events|] == s.events
    ensures Valid(s) ==> Valid(c.store)
    ensures count >= 0 ==> |c.rows| <= count
    ensures forall j :: 0 <= j < |c.rows| ==>
      InView(s, UnclaimedView, c.rows[j].taskId) && c.rows[j].task == s.tasks[c.rows[j].taskId - 1]
    ensures forall i, j :: 0 <= i < j < |c.rows| ==> c.rows[i].taskId != c.rows[j].taskId
    ensures forall id ::
      CurrentStatus(c.store, id) == (if id in TaskIds(c.rows) then Some(Progress) else CurrentStatus(s, id))
    ensures |c.rows| == 0 ==> c.store == s
    ensures |c.rows| == 0 <==> count == 0 || forall id :: !InView(s, UnclaimedView, id)
    ensures count < 0 || |UnclaimedTasks(s)| <= count ==> c.rows == UnclaimedTasks(s)
    ensures 0 <= count < |UnclaimedTasks(s)| ==> |c.rows| == count
    ensures c.rows == UnclaimedTasks(s)[..|c.rows|]
    ensures c.store.events == s.events + ProgressEvents(c.rows)
  {
    var rows := Limit(UnclaimedTasks(s), count);
    ClaimedRowsUnclaimed(s, count, rows);
    if |rows| == 0 then
      Claim(s, rows)
    else
      ClaimStatuses(s, rows);
      Claim(UpdateTask(s, ProgressEvents(rows)), rows)
  }

  /** After a claim, the unclaimed tasks are the ones that were unclaimed before and were not handed out. */
  lemma ClaimLeavesRest(s: Store, count: int)
    ensures forall id :: InView(GetUnclaimedTasks(s, count).store, UnclaimedView, id) <==>
      InView(s, UnclaimedView, id) && id !in TaskIds(GetUnclaimedTasks(s, count).rows)
  {
  }

  /** A claim whose count covers every unclaimed task (or has no limit) leaves none unclaimed. */
  lemma ClaimTakesAll(s: Store, count: int)
    requires count < 0 || |UnclaimedTasks(s)| <= count
    ensures forall id :: !InView(GetUnclaimedTasks(s, count).store, UnclaimedView, id)
  {
    ViewListsSelected(s, UnclaimedView);
    ClaimLeavesRest(s, count);
  }

  /** Two claims in a row hand out disjoint sets of tasks. */
  lemma SuccessiveClaimsDisjoint(s: Store, n1: int, n2: int)
    ensures var c1 := GetUnclaimedTasks(s, n1);
      var c2 := GetUnclaimedTasks(c1.store, n2);
      forall i, j :: 0 <= i < |c1.rows| && 0 <= j < |c2.rows| ==> c1.rows[i].taskId != c2.rows[j].taskId
  {
    var c1 := GetUnclaimedTasks(s, n1);
    var c2 := GetUnclaimedTasks(c1.store, n2);
    ClaimLeavesRest(s, n1);
    ClaimAvoids(c1.store, c1.rows, n2);
  }

  /** A claim from a store whose unclaimed view excludes some rows hands out none of them. */
  lemma ClaimAvoids(s: Store, claimed: seq<Row>, count: int)
    requires forall id :: InView(s, UnclaimedView, id) ==> id !in TaskIds(claimed)
    ensures forall i, j :: 0 <= i < |claimed| && 0 <= j < |GetUnclaimedTasks(s, count).rows| ==>
      claimed[i].taskId != GetUnclaimedTasks(s, count).rows[j].taskId
  {
    RowsOutsideClaimed(s, claimed, GetUnclaimedTasks(s, count).rows);
  }

  /** Rows drawn from a view that excludes an earlier claim share no task with it. */
  lemma RowsOutsideClaimed(s: Store, claimed: seq<Row>, rows: seq<Row>)
    requires forall id :: InView(s, UnclaimedView, id) ==> id !in TaskIds(claimed)
    requires forall j :: 0 <= j < |rows| ==> InView(s, UnclaimedView, rows[j].taskId)
    ensures forall i, j :: 0 <= i < |claimed| && 0 <= j < |rows| ==> claimed[i].taskId != rows[j].taskId
  {
    forall i, j | 0 <= i < |claimed| && 0 <= j < |rows|
      ensures claimed[i].taskId != rows[j].taskId
    {
      assert claimed[i].taskId in TaskIds(claimed);
      assert InView(s, UnclaimedView, rows[j].taskId);
    }
  }
}
