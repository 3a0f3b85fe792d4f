/**
 * The two tables behind the repository, `tasks` and `task_items`, as maps
 * from primary key to row, and the queries that turn rows back into
 * aggregates. Keys are BIGSERIAL values handed out in ascending order, so
 * walking the keys upwards visits rows in insertion order.
 */
module Rows {
  import opened Models

  datatype TaskRow = TaskRow(title: string, description: string, createdAt: Time, updatedAt: Time)

  datatype ItemRow = ItemRow(taskId: int, title: string, completed: bool, createdAt: Time, updatedAt: Time)

  /** The row an item is stored as (its id is the key). */
  function ItemRowOf(item: TaskItem): ItemRow {
    ItemRow(item.taskId, item.title, item.completed, item.createdAt, item.updatedAt)
  }

  /** The item the row under key `k` reads back as. */
  function ItemAt(items: map<int, ItemRow>, k: int): TaskItem
    requires k in items
  {
    var row := items[k];
    TaskItem(k, row.taskId, row.title, row.completed, row.createdAt, row.updatedAt)
  }

  /** Row `k` of `task_items` exists and references task `taskId`. */
  predicate Owned(items: map<int, ItemRow>, taskId: int, k: int) {
    k in items && items[k].taskId == taskId
  }

  /** Keys in [lo, hi) whose item references `taskId`. */
  ghost function OwnedKeys(items: map<int, ItemRow>, taskId: int, lo: int, hi: int): set<int> {
    set k | k in items && lo <= k < hi && items[k].taskId == taskId
  }

  /**
   * The items of task `taskId` whose keys lie in [lo, hi), by ascending key:
   * what `Relation("Items")` loads for one task.
   */
  function ItemsBetween(items: map<int, ItemRow>, taskId: int, lo: int, hi: int): (r: seq<TaskItem>)
    ensures forall i :: 0 <= i < |r| ==>
      lo <= r[i].id < hi && Owned(items, taskId, r[i].id) && r[i] == ItemAt(items, r[i].id)
    ensures forall i, j :: 0 <= i < j < |r| ==> r[i].id < r[j].id
    ensures forall k :: lo <= k < hi && Owned(items, taskId, k) ==> ItemAt(items, k) in r
    decreases hi - lo
  {
    if hi <= lo then []
    else if Owned(items, taskId, lo) then [ItemAt(items, lo)] + ItemsBetween(items, taskId, lo + 1, hi)
    else ItemsBetween(items, taskId, lo + 1, hi)
  }

  /** The aggregate for task `id`: its row and its items. */
  function AggregateOf(tasks: map<int, TaskRow>, items: map<int, ItemRow>, itemHi: int, id: int): Task
    requires id in tasks
  {
    var row := tasks[id];
    Task(id, row.title, row.description, row.createdAt, row.updatedAt, ItemsBetween(items, id, 1, itemHi))
  }

  /** Every task with key in [lo, hi), by ascending key, each with its items. */
  function TasksBetween(tasks: map<int, TaskRow>, items: map<int, ItemRow>, itemHi: int, lo: int, hi: int): (r: seq<Task>)
    ensures forall i :: 0 <= i < |r| ==>
      lo <= r[i].id < hi && r[i].id in tasks && r[i] == AggregateOf(tasks, items, itemHi, r[i].id)
    ensures forall i, j :: 0 <= i < j < |r| ==> r[i].id < r[j].id
    ensures forall k :: lo <= k < hi && k in tasks ==> AggregateOf(tasks, items, itemHi, k) in r
    decreases hi - lo
  {
    if hi <= lo then []
    else if lo in tasks then [AggregateOf(tasks, items, itemHi, lo)] + TasksBetween(tasks, items, itemHi, lo + 1, hi)
    else TasksBetween(tasks, items, itemHi, lo + 1, hi)
  }

  /** A range holding no item of `taskId` contributes no items. */
  lemma {:induction false} ItemsBetweenNone(items: map<int, ItemRow>, taskId: int, lo: int, hi: int)
    requires forall k :: lo <= k < hi ==> !Owned(items, taskId, k)
    ensures ItemsBetween(items, taskId, lo, hi) == []
    decreases hi - lo
  {
    if lo < hi {
      ItemsBetweenNone(items, taskId, lo + 1, hi);
    }
  }

  /** Loading [lo, hi) is loading [lo, mid) and then [mid, hi). */
  lemma {:induction false} ItemsBetweenSplit(items: map<int, ItemRow>, taskId: int, lo: int, mid: int, hi: int)
    requires lo <= mid <= hi
    ensures ItemsBetween(items, taskId, lo, hi) ==
            ItemsBetween(items, taskId, lo, mid) + ItemsBetween(items, taskId, mid, hi)
    decreases mid - lo
  {
    if lo < mid {
      ItemsBetweenSplit(items, taskId, lo + 1, mid, hi);
    }
  }

  /** Two tables that agree on the items of `taskId` in [lo, hi) load the same items. */
  lemma {:induction false} ItemsBetweenFrame(m1: map<int, ItemRow>, m2: map<int, ItemRow>, taskId: int, lo: int, hi: int)
    requires forall k :: lo <= k < hi ==>
      Owned(m1, taskId, k) == Owned(m2, taskId, k) && (Owned(m1, taskId, k) ==> m1[k] == m2[k])
    ensures ItemsBetween(m1, taskId, lo, hi) == ItemsBetween(m2, taskId, lo, hi)
    decreases hi - lo
  {
    if lo < hi {
      ItemsBetweenFrame(m1, m2, taskId, lo + 1, hi);
    }
  }

  /** The rows under keys base, base + 1, ... hold `batch`, each item referencing `taskId`. */
  ghost predicate BatchStored(items: map<int, ItemRow>, taskId: int, base: int, batch: seq<TaskItem>) {
    forall j {:trigger batch[j]} :: 0 <= j < |batch| ==>
      base + j in items && items[base + j] == ItemRowOf(batch[j]) &&
      batch[j].id == base + j && batch[j].taskId == taskId
  }

  /**
   * Rows inserted as one batch under consecutive keys from `base` read back
   * as that batch, in order.
   */
  lemma {:induction false} ItemsBetweenBatch(items: map<int, ItemRow>, taskId: int, base: int, batch: seq<TaskItem>, i: nat)
    requires i <= |batch|
    requires BatchStored(items, taskId, base, batch)
    ensures ItemsBetween(items, taskId, base + i, base + |batch|) == batch[i..]
    decreases |batch| - i
  {
    if i < |batch| {
      var item := batch[i];
      assert base + i in items && items[base + i] == ItemRowOf(item);
      assert ItemAt(items, base + i) == item;
      ItemsBetweenBatch(items, taskId, base, batch, i + 1);
      assert batch[i..] == [batch[i]] + batch[i + 1..];
    }
  }

  /** The number of items loaded is the number of rows referencing the task. */
  lemma {:induction false} ItemsBetweenCount(items: map<int, ItemRow>, taskId: int, lo: int, hi: int)
    ensures |ItemsBetween(items, taskId, lo, hi)| == |OwnedKeys(items, taskId, lo, hi)|
    decreases hi - lo
  {
    if hi <= lo {
      assert OwnedKeys(items, taskId, lo, hi) == {};
    } else {
      ItemsBetweenCount(items, taskId, lo + 1, hi);
      if Owned(items, taskId, lo) {
        assert OwnedKeys(items, taskId, lo, hi) == {lo} + OwnedKeys(items, taskId, lo + 1, hi);
      } else {
        assert OwnedKeys(items, taskId, lo, hi) == OwnedKeys(items, taskId, lo + 1, hi);
      }
    }
  }

  /** Keys of `tasks` in [lo, hi). */
  ghost function KeysBetween(tasks: map<int, TaskRow>, lo: int, hi: int): set<int> {
    set k | k in tasks && lo <= k < hi
  }

  /** Peeling the lowest key off a key range. */
  lemma KeysBetweenStep(tasks: map<int, TaskRow>, lo: int, hi: int)
    requires lo < hi
    ensures |KeysBetween(tasks, lo, hi)| == (if lo in tasks then 1 else 0) + |KeysBetween(tasks, lo + 1, hi)|
  {
    if lo in tasks {
      assert KeysBetween(tasks, lo, hi) == {lo} + KeysBetween(tasks, lo + 1, hi);
    } else {
      assert KeysBetween(tasks, lo, hi) == KeysBetween(tasks, lo + 1, hi);
    }
  }

  /** One aggregate is loaded per task row. */
  lemma {:induction false} TasksBetweenCount(tasks: map<int, TaskRow>, items: map<int, ItemRow>, itemHi: int, lo: int, hi: int)
    ensures |TasksBetween(tasks, items, itemHi, lo, hi)| == |KeysBetween(tasks, lo, hi)|
    decreases hi - lo
  {
    if hi <= lo {
      assert KeysBetween(tasks, lo, hi) == {};
    } else {
      TasksBetweenCount(tasks, items, itemHi, lo + 1, hi);
      KeysBetweenStep(tasks, lo, hi);
    }
  }

  /** `items` is `oldItems` plus new rows under the keys [lo, hi). */
  ghost predicate Extends(items: map<int, ItemRow>, oldItems: map<int, ItemRow>, lo: int, hi: int) {
    && (forall k :: k in items <==> k in oldItems || lo <= k < hi)
    && (forall k :: k in oldItems ==> items[k] == oldItems[k])
  }

  /**
   * After a batch of items of a new task is inserted above every old key,
   * the new task's items read back as exactly that batch.
   */
  lemma InsertedBatchReadsBack(oldItems: map<int, ItemRow>, items: map<int, ItemRow>, taskId: int, base: int, batch: seq<TaskItem>)
    requires 1 <= base
    requires forall k :: k in oldItems ==> k < base && oldItems[k].taskId != taskId
    requires Extends(items, oldItems, base, base + |batch|)
    requires BatchStored(items, taskId, base, batch)
    ensures ItemsBetween(items, taskId, 1, base + |batch|) == batch
  {
    forall k | 1 <= k < base ensures !Owned(items, taskId, k) {
      if k in items {
        assert k in oldItems;
      }
    }
    ItemsBetweenNone(items, taskId, 1, base);
    ItemsBetweenSplit(items, taskId, 1, base, base + |batch|);
    ItemsBetweenBatch(items, taskId, base, batch, 0);
    assert batch[0..] == batch;
  }

  /** Inserting a batch of another task's items leaves a task's items as they were. */
  lemma InsertedBatchKeepsOthers(oldItems: map<int, ItemRow>, items: map<int, ItemRow>, taskId: int, other: int, base: int, batch: seq<TaskItem>)
    requires 1 <= base && other != taskId
    requires forall k :: k in oldItems ==> k < base
    requires Extends(items, oldItems, base, base + |batch|)
    requires BatchStored(items, taskId, base, batch)
    ensures ItemsBetween(items, other, 1, base + |batch|) == ItemsBetween(oldItems, other, 1, base)
  {
    forall k | base <= k < base + |batch| ensures !Owned(items, other, k) {
      var j := k - base;
      assert batch[j] == batch[j];
    }
    ItemsBetweenNone(items, other, base, base + |batch|);
    ItemsBetweenSplit(items, other, 1, base, base + |batch|);
    ItemsBetweenFrame(items, oldItems, other, 1, base);
  }

  /** The rows left after deleting task `taskId` and cascading to its items. */
  function Cascade(items: map<int, ItemRow>, taskId: int): (r: map<int, ItemRow>)
    ensures forall k :: k in r <==> k in items && items[k].taskId != taskId
  {
    map k | k in items && items[k].taskId != taskId :: items[k]
  }

  /**
   * The cascade removes exactly the items of the deleted task: none of its
   * items remain, their number is subtracted, and every other task keeps
   * its items.
   */
  lemma CascadeRemovesOwned(items: map<int, ItemRow>, taskId: int, hi: int)
    requires forall k :: k in items ==> 1 <= k < hi
    ensures ItemsBetween(Cascade(items, taskId), taskId, 1, hi) == []
    ensures |Cascade(items, taskId)| == |items| - |ItemsBetween(items, taskId, 1, hi)|
    ensures forall other :: other != taskId ==>
      ItemsBetween(Cascade(items, taskId), other, 1, hi) == ItemsBetween(items, other, 1, hi)
  {
    var rest := Cascade(items, taskId);
    ItemsBetweenNone(rest, taskId, 1, hi);
    ItemsBetweenCount(items, taskId, 1, hi);
    var owned := OwnedKeys(items, taskId, 1, hi);
    assert items.Keys == rest.Keys + owned;
    assert rest.Keys !! owned;
    assert |rest.Keys| == |items.Keys| - |owned|;
    forall other | other != taskId
      ensures ItemsBetween(rest, other, 1, hi) == ItemsBetween(items, other, 1, hi)
    {
      ItemsBetweenFrame(rest, items, other, 1, hi);
    }
  }
}
