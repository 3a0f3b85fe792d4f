/**
 * The task repository of internal/app/db: the `tasks` and `task_items`
 * tables with their BIGSERIAL counters and the `ON DELETE CASCADE` foreign
 * key from items to tasks. The clock and the database's failures are
 * parameters: `now` is the value `time.Now()` returned, a `TxFault` or a
 * `fault` message says which statement the database rejected.
 */
module Db {
  import opened Wrappers
  import opened Models
  import opened Errors
  import opened Rows
  import opened Ordering

  /** Which step of Create's transaction the database rejects, if any. */
  datatype TxFault =
    | NoFault
    | BeginFails(message: string)       // BEGIN: the transaction body never runs
    | TaskInsertFails(message: string)  // the INSERT INTO tasks
    | ItemsInsertFails(message: string) // the batch INSERT INTO task_items
    | CommitFails(message: string)      // COMMIT, after both inserts ran

  /**
   * Create's transaction does not persist: a step it actually reached was
   * rejected (the items insert is skipped when there are no items).
   */
  predicate Aborts(fault: TxFault, itemCount: int) {
    || fault.BeginFails?
    || fault.TaskInsertFails?
    || (fault.ItemsInsertFails? && itemCount > 0)
    || fault.CommitFails?
  }

  /** The item as the loop of Create leaves it: owned by `taskId`, stamped with `now`. */
  function StampItem(item: TaskItem, taskId: int, now: Time): TaskItem {
    item.(taskId := taskId, createdAt := now, updatedAt := now)
  }

  /**
   * The stamping loop of Create: every item now references `taskId` and
   * carries `now` as both timestamps; nothing else about it changes.
   */
  method StampItems(items: seq<TaskItem>, taskId: int, now: Time) returns (stamped: seq<TaskItem>)
    ensures |stamped| == |items|
    ensures forall i :: 0 <= i < |items| ==>
      stamped[i].taskId == taskId && stamped[i].createdAt == now && stamped[i].updatedAt == now &&
      stamped[i].id == items[i].id && stamped[i].title == items[i].title && stamped[i].completed == items[i].completed
  {
    stamped := items;
    var i := 0;
    while i < |stamped|
      invariant 0 <= i <= |stamped| == |items|
      invariant forall j :: 0 <= j < i ==> stamped[j] == StampItem(items[j], taskId, now)
      invariant forall j :: i <= j < |stamped| ==> stamped[j] == items[j]
    {
      stamped := stamped[i := StampItem(stamped[i], taskId, now)];
      i := i + 1;
    }
  }

  /**
   * The batch INSERT INTO task_items: row i of the batch is stored under
   * key base + i, and the id read back is written into the item.
   */
  method InsertBatch(items: map<int, ItemRow>, taskId: int, base: int, batch: seq<TaskItem>)
    returns (items': map<int, ItemRow>, inserted: seq<TaskItem>)
    requires forall i :: 0 <= i < |batch| ==> batch[i].taskId == taskId
    ensures |inserted| == |batch|
    ensures forall i :: 0 <= i < |batch| ==> inserted[i] == batch[i].(id := base + i)
    ensures forall k :: k in items' <==> k in items || base <= k < base + |batch|
    ensures forall k :: k in items && !(base <= k < base + |batch|) ==> items'[k] == items[k]
    ensures BatchStored(items', taskId, base, inserted)
  {
    items', inserted := items, batch;
    var j := 0;
    while j < |batch|
      invariant 0 <= j <= |batch| == |inserted|
      invariant forall i :: 0 <= i < j ==> inserted[i] == batch[i].(id := base + i)
      invariant forall i :: j <= i < |batch| ==> inserted[i] == batch[i]
      invariant forall k :: k in items' <==> k in items || base <= k < base + j
      invariant forall k :: k in items && !(base <= k < base + j) ==> items'[k] == items[k]
      invariant BatchStored(items', taskId, base, inserted[..j])
    {
      var item := inserted[j].(id := base + j);
      items' := items'[base + j := ItemRowOf(item)];
      inserted := inserted[j := item];
      j := j + 1;
    }
    assert inserted[..j] == inserted;
  }

  /** `s` lists every stored aggregate, each once. */
  ghost predicate ListsStore(s: seq<Task>, tasks: map<int, TaskRow>, items: map<int, ItemRow>, itemHi: int) {
    && |s| == |tasks|
    && (forall t :: t in s ==> t.id in tasks && t == AggregateOf(tasks, items, itemHi, t.id))
    && (forall id :: id in tasks ==> AggregateOf(tasks, items, itemHi, id) in s)
  }

  /** The key-ordered scan of the task table lists the whole store. */
  lemma ScanListsStore(tasks: map<int, TaskRow>, items: map<int, ItemRow>, itemHi: int, taskHi: int)
    requires forall id :: id in tasks ==> 1 <= id < taskHi
    ensures ListsStore(TasksBetween(tasks, items, itemHi, 1, taskHi), tasks, items, itemHi)
  {
    var all := TasksBetween(tasks, items, itemHi, 1, taskHi);
    assert |all| == |tasks| by {
      TasksBetweenCount(tasks, items, itemHi, 1, taskHi);
      assert KeysBetween(tasks, 1, taskHi) == tasks.Keys;
    }
    forall t | t in all ensures t.id in tasks && t == AggregateOf(tasks, items, itemHi, t.id) {
      var j :| 0 <= j < |all| && all[j] == t;
    }
  }

  /** Reordering a listing newest first keeps it a listing of the whole store. */
  lemma SortListsStore(s: seq<Task>, tasks: map<int, TaskRow>, items: map<int, ItemRow>, itemHi: int)
    requires ListsStore(s, tasks, items, itemHi)
    ensures ListsStore(SortNewestFirst(s), tasks, items, itemHi)
  {
    SortKeepsTasks(s);
  }

  /**
   * The listing query returns one aggregate per stored task, each exactly
   * as stored.
   */
  lemma ListingIsComplete(tasks: map<int, TaskRow>, items: map<int, ItemRow>, itemHi: int, taskHi: int)
    requires forall id :: id in tasks ==> 1 <= id < taskHi
    ensures var r := SortNewestFirst(TasksBetween(tasks, items, itemHi, 1, taskHi));
      && |r| == |tasks|
      && (forall i :: 0 <= i < |r| ==> r[i].id in tasks && r[i] == AggregateOf(tasks, items, itemHi, r[i].id))
      && (forall id :: id in tasks ==> AggregateOf(tasks, items, itemHi, id) in r)
  {
    var all := TasksBetween(tasks, items, itemHi, 1, taskHi);
    ScanListsStore(tasks, items, itemHi, taskHi);
    SortListsStore(all, tasks, items, itemHi);
    var r := SortNewestFirst(all);
    forall i | 0 <= i < |r| ensures r[i].id in tasks && r[i] == AggregateOf(tasks, items, itemHi, r[i].id) {
      assert r[i] in r;
    }
  }

  /**
   * The commit of Create keeps the foreign key: every item row, old or
   * newly inserted, references a task that exists once the new row is in.
   */
  lemma CommittedInsertKeepsForeignKey(tasks: map<int, TaskRow>, items: map<int, ItemRow>, items': map<int, ItemRow>,
                                       id: int, base: int, row: TaskRow, batch: seq<TaskItem>)
    requires 1 <= base
    requires forall k :: k in items ==> 1 <= k < base && items[k].taskId in tasks
    requires Extends(items', items, base, base + |batch|)
    requires BatchStored(items', id, base, batch)
    ensures forall k :: k in items' ==> 1 <= k < base + |batch| && items'[k].taskId in tasks[id := row]
  {
    forall k | k in items' ensures 1 <= k < base + |batch| && items'[k].taskId in tasks[id := row] {
      if base <= k {
        var j := k - base;
        assert batch[j] == batch[j];
      }
    }
  }

  /**
   * What the commit of Create makes visible: the new task reads back with
   * exactly its batch of items, and every task that was stored before reads
   * back as it did.
   */
  lemma CommittedInsertReadsBack(tasks: map<int, TaskRow>, items: map<int, ItemRow>, items': map<int, ItemRow>,
                                 id: int, base: int, row: TaskRow, batch: seq<TaskItem>)
    requires 1 <= base && id !in tasks
    requires forall k :: k in items ==> k < base && items[k].taskId in tasks
    requires Extends(items', items, base, base + |batch|)
    requires BatchStored(items', id, base, batch)
    ensures AggregateOf(tasks[id := row], items', base + |batch|, id) ==
      Task(id, row.title, row.description, row.createdAt, row.updatedAt, batch)
    ensures forall other :: other in tasks ==>
      AggregateOf(tasks[id := row], items', base + |batch|, other) == AggregateOf(tasks, items, base, other)
  {
    InsertedBatchReadsBack(items, items', id, base, batch);
    forall other | other in tasks
      ensures AggregateOf(tasks[id := row], items', base + |batch|, other) == AggregateOf(tasks, items, base, other)
    {
      InsertedBatchKeepsOthers(items, items', id, other, base, batch);
    }
  }

  class TaskRepository {
    var tasks: map<int, TaskRow>
    var items: map<int, ItemRow>
    var nextTaskId: int  // the next value of the tasks id sequence
    var nextItemId: int  // the next value of the task_items id sequence

    /**
     * Keys are positive values the sequences already handed out, and every
     * item references an existing task (the NOT NULL foreign key).
     */
    ghost predicate Valid()
      reads this
    {
      && 1 <= nextTaskId
      && 1 <= nextItemId
      && (forall id :: id in tasks ==> 1 <= id < nextTaskId)
      && (forall k :: k in items ==> 1 <= k < nextItemId && items[k].taskId in tasks)
    }

    /** An empty database with fresh sequences. */
    constructor ()
      ensures Valid()
      ensures tasks == map[] && items == map[]
    {
      tasks, items := map[], map[];
      nextTaskId, nextItemId := 1, 1;
    }

    /** The items of task `taskId`, in ascending id order. */
    function ItemsOf(taskId: int): seq<TaskItem>
      reads this
    {
      ItemsBetween(items, taskId, 1, nextItemId)
    }

    /** The stored aggregate of task `id`. */
    function Aggregate(id: int): Task
      reads this
      requires id in tasks
    {
      AggregateOf(tasks, items, nextItemId, id)
    }

    /**
     * Inserts `task` and its items in one transaction. The result is the
     * caller's task as Create leaves it: stamped with `now`, and on success
     * carrying the ids the database assigned.
     */
    method Create(task: Task, now: Time, fault: TxFault) returns (stamped: Task, err: Option<Error>)
      requires Valid()
      requires task.id == 0 && forall i :: 0 <= i < |task.items| ==> task.items[i].id == 0
      modifies this
      ensures Valid()
      ensures stamped.title == task.title && stamped.description == task.description
      ensures |stamped.items| == |task.items|
      // a failed BEGIN leaves the caller's task as it was; otherwise it is stamped
      ensures fault.BeginFails? ==> stamped == task
      ensures !fault.BeginFails? ==> stamped.createdAt == now && stamped.updatedAt == now
      // a failed task insert stamps only the task; a failed items insert leaves the items owned and stamped
      ensures fault.TaskInsertFails? ==> stamped == task.(createdAt := now, updatedAt := now)
      ensures fault.ItemsInsertFails? && |task.items| > 0 ==>
        && stamped.id == old(nextTaskId)
        && (forall i :: 0 <= i < |task.items| ==> stamped.items[i] == StampItem(task.items[i], stamped.id, now))
      // all or nothing
      ensures err.Some? <==> Aborts(fault, |task.items|)
      ensures err.Some? ==> err == Some(Driver(fault.message)) && unchanged(this)
      // a failed COMMIT still leaves the ids the inserts read back in the caller's task
      ensures fault.CommitFails? ==>
        && stamped.id == old(nextTaskId)
        && (forall i :: 0 <= i < |task.items| ==>
              stamped.items[i] == StampItem(task.items[i], stamped.id, now).(id := old(nextItemId) + i))
      // on success: fresh ids, every item owned by the task and stamped with the same `now`
      ensures err.None? ==>
        && stamped.id == old(nextTaskId) && stamped.id != 0
        && (forall i :: 0 <= i < |task.items| ==>
              stamped.items[i] == StampItem(task.items[i], stamped.id, now).(id := old(nextItemId) + i))
        && tasks == old(tasks)[stamped.id := TaskRow(task.title, task.description, now, now)]
        && (forall k :: k in items <==> k in old(items) || old(nextItemId) <= k < old(nextItemId) + |task.items|)
        && Aggregate(stamped.id) == stamped
        && (forall id :: id in old(tasks) ==> Aggregate(id) == old(Aggregate(id)))
    {
      if fault.BeginFails? {
        return task, Some(Driver(fault.message));
      }
      stamped := task.(createdAt := now, updatedAt := now);
      if fault.TaskInsertFails? {
        return stamped, Some(Driver(fault.message));
      }
      var id, base := nextTaskId, nextItemId;
      stamped := stamped.(id := id);
      var items' := items;
      if |stamped.items| > 0 {
        var owned := StampItems(stamped.items, id, now);
        stamped := stamped.(items := owned);
        if fault.ItemsInsertFails? {
          return stamped, Some(Driver(fault.message));
        }
        var inserted;
        items', inserted := InsertBatch(items, id, base, owned);
        stamped := stamped.(items := inserted);
      }
      assert forall i :: 0 <= i < |task.items| ==>
        stamped.items[i] == StampItem(task.items[i], id, now).(id := base + i);
      if fault.CommitFails? {
        return stamped, Some(Driver(fault.message));
      }
      // commit
      var row := TaskRow(task.title, task.description, now, now);
      CommittedInsertKeepsForeignKey(tasks, items, items', id, base, row, stamped.items);
      CommittedInsertReadsBack(tasks, items, items', id, base, row, stamped.items);
      tasks := tasks[id := row];
      items := items';
      nextTaskId, nextItemId := id + 1, base + |stamped.items|;
      err := None;
    }

    /**
     * Deletes task `taskId`; the foreign key's cascade deletes its items.
     * Zero rows affected is reported as `TaskNotFound`.
     */
    method Delete(taskId: int, fault: Option<string>) returns (err: Option<Error>)
      requires Valid()
      modifies this
      ensures Valid()
      ensures fault.Some? ==> err == Some(Driver(fault.value)) && unchanged(this)
      ensures fault.None? && taskId !in old(tasks) ==> err == Some(TaskNotFound) && unchanged(this)
      ensures err.None? <==> fault.None? && taskId in old(tasks)
      ensures err.None? ==>
        && tasks == old(tasks) - {taskId}
        && items == Cascade(old(items), taskId)
        && nextTaskId == old(nextTaskId) && nextItemId == old(nextItemId)
        && ItemsOf(taskId) == []
        && |items| == |old(items)| - |old(ItemsOf(taskId))|
        && (forall id :: id in tasks ==> Aggregate(id) == old(Aggregate(id)))
    {
      if fault.Some? {
        return Some(Driver(fault.value));
      }
      if taskId !in tasks {
        return Some(TaskNotFound);
      }
      CascadeRemovesOwned(items, taskId, nextItemId);
      tasks := tasks - {taskId};
      items := Cascade(items, taskId);
      err := None;
    }

    /**
     * The task `taskId` with its items. A missing row surfaces as the
     * driver's `sql.ErrNoRows`, not as `TaskNotFound`.
     */
    function GetByID(taskId: int, fault: Option<string>): (r: Result<Task, Error>)
      reads this
      ensures fault.Some? ==> r == Failure(Driver(fault.value))
      ensures fault.None? && taskId !in tasks ==> r == Failure(NoRows)
      ensures r.Success? <==> fault.None? && taskId in tasks
      ensures r.Success? ==>
        && r.value.id == taskId
        && r.value.title == tasks[taskId].title && r.value.description == tasks[taskId].description
        && r.value.createdAt == tasks[taskId].createdAt && r.value.updatedAt == tasks[taskId].updatedAt
        // exactly the rows referencing the task, in ascending id order
        && (forall i :: 0 <= i < |r.value.items| ==>
              Owned(items, taskId, r.value.items[i].id) && r.value.items[i] == ItemAt(items, r.value.items[i].id))
        && (forall i, j :: 0 <= i < j < |r.value.items| ==> r.value.items[i].id < r.value.items[j].id)
        && (forall k :: 1 <= k < nextItemId && Owned(items, taskId, k) ==> ItemAt(items, k) in r.value.items)
    {
      if fault.Some? then Failure(Driver(fault.value))
      else if taskId !in tasks then Failure(NoRows)
      else Success(Aggregate(taskId))
    }

    /** Every task with its items, newest first. */
    function List(fault: Option<string>): (r: Result<seq<Task>, Error>)
      reads this
      requires Valid()
      ensures fault.Some? ==> r == Failure(Driver(fault.value))
      ensures r.Success? <==> fault.None?
      ensures r.Success? ==>
        && NewestFirst(r.value)
        && |r.value| == |tasks|
        && (forall i :: 0 <= i < |r.value| ==> r.value[i].id in tasks && r.value[i] == Aggregate(r.value[i].id))
        && (forall id :: id in tasks ==> Aggregate(id) in r.value)
    {
      if fault.Some? then Failure(Driver(fault.value))
      else
        ListingIsComplete(tasks, items, nextItemId, nextTaskId);
        Success(SortNewestFirst(TasksBetween(tasks, items, nextItemId, 1, nextTaskId)))
    }
  }
}
