/**
 * The task use-case: validates the parameters, builds the model aggregate,
 * delegates to the repository and converts models to results field by field.
 */
module Usecases {
  import opened Wrappers
  import opened Models
  import opened Errors
  import opened Rows
  import opened Db

  datatype CreateTaskItemParams = CreateTaskItemParams(title: string, completed: bool)

  datatype CreateTaskParams = CreateTaskParams(title: string, description: string, items: seq<CreateTaskItemParams>)

  datatype TaskItemResult = TaskItemResult(
    id: int, taskId: int, title: string, completed: bool, createdAt: Time, updatedAt: Time)

  datatype TaskResult = TaskResult(
    id: int, title: string, description: string, createdAt: Time, updatedAt: Time, items: seq<TaskItemResult>)

  datatype TaskListResult = TaskListResult(tasks: seq<TaskResult>)

  const ErrTitleRequired: Error := Invalid("task title is required")
  const ErrItemTitleRequired: Error := Invalid("task item title is required")
  const ErrInvalidTaskId: Error := Invalid("invalid task ID")

  /** The parameters pass both guards of CreateTask. */
  predicate ValidParams(p: CreateTaskParams) {
    p.title != "" && forall i :: 0 <= i < |p.items| ==> p.items[i].title != ""
  }

  /** The model item built from its parameters: no id, owner or timestamps yet. */
  function NewItem(p: CreateTaskItemParams): TaskItem {
    TaskItem(0, 0, p.title, p.completed, ZeroTime, ZeroTime)
  }

  function ResultToItem(r: TaskItemResult): TaskItem {
    TaskItem(r.id, r.taskId, r.title, r.completed, r.createdAt, r.updatedAt)
  }

  /** The reverse conversion, which shows that ModelToResult loses nothing. */
  function ResultToModel(r: TaskResult): Task {
    Task(r.id, r.title, r.description, r.createdAt, r.updatedAt,
         seq(|r.items|, i requires 0 <= i < |r.items| => ResultToItem(r.items[i])))
  }

  function ItemToResult(item: TaskItem): (r: TaskItemResult)
    ensures ResultToItem(r) == item
  {
    TaskItemResult(item.id, item.taskId, item.title, item.completed, item.createdAt, item.updatedAt)
  }

  /** `modelToResult`: copies every field, keeping the items' count and order. */
  function ModelToResult(task: Task): (r: TaskResult)
    ensures |r.items| == |task.items|
    ensures ResultToModel(r) == task
  {
    var r := TaskResult(task.id, task.title, task.description, task.createdAt, task.updatedAt,
                        seq(|task.items|, i requires 0 <= i < |task.items| => ItemToResult(task.items[i])));
    assert ResultToModel(r).items == task.items;
    r
  }

  /** The conversion is onto as well: every result is the image of its model. */
  lemma ResultRoundTrip(r: TaskResult)
    ensures ModelToResult(ResultToModel(r)) == r
  {
    var back := ModelToResult(ResultToModel(r));
    assert back.items == r.items;
  }

  /** One result per task, in the same order. */
  function ModelsToResults(tasks: seq<Task>): (r: seq<TaskResult>)
    ensures |r| == |tasks|
    ensures forall i :: 0 <= i < |tasks| ==> ResultToModel(r[i]) == tasks[i]
    ensures forall t :: t in tasks ==> ModelToResult(t) in r
  {
    var r := seq(|tasks|, i requires 0 <= i < |tasks| => ModelToResult(tasks[i]));
    assert forall t :: t in tasks ==> ModelToResult(t) in r by {
      forall t | t in tasks ensures ModelToResult(t) in r {
        var k :| 0 <= k < |tasks| && tasks[k] == t;
        assert r[k] == ModelToResult(t);
      }
    }
    r
  }

  class TaskUsecase {
    const taskRepo: TaskRepository

    /** `NewTaskUsecase`. */
    constructor (taskRepo: TaskRepository)
      ensures this.taskRepo == taskRepo
    {
      this.taskRepo := taskRepo;
    }

    /**
     * Validates the parameters, builds the aggregate and stores it. Either
     * validation error returns before the repository is reached.
     */
    method CreateTask(params: CreateTaskParams, now: Time, fault: TxFault) returns (r: Result<TaskResult, Error>)
      requires taskRepo.Valid()
      modifies taskRepo
      ensures taskRepo.Valid()
      ensures params.title == "" ==> r == Failure(ErrTitleRequired) && unchanged(taskRepo)
      ensures params.title != "" && !ValidParams(params) ==> r == Failure(ErrItemTitleRequired) && unchanged(taskRepo)
      ensures ValidParams(params) && Aborts(fault, |params.items|) ==>
        r == Failure(Driver(fault.message)) && unchanged(taskRepo)
      ensures r.Success? <==> ValidParams(params) && !Aborts(fault, |params.items|)
      ensures r.Success? ==>
        && r.value.id == old(taskRepo.nextTaskId) && r.value.id != 0
        && r.value.id in taskRepo.tasks
        && r.value == ModelToResult(taskRepo.Aggregate(r.value.id))
        && r.value.title == params.title && r.value.description == params.description
        && r.value.createdAt == now && r.value.updatedAt == now
        && |r.value.items| == |params.items|
        && (forall i :: 0 <= i < |params.items| ==>
              && r.value.items[i].title == params.items[i].title
              && r.value.items[i].completed == params.items[i].completed
              && r.value.items[i].taskId == r.value.id
              && r.value.items[i].createdAt == now && r.value.items[i].updatedAt == now)
        && taskRepo.tasks.Keys == old(taskRepo.tasks).Keys + {r.value.id}
        && (forall id :: id in old(taskRepo.tasks) ==> id in taskRepo.tasks && taskRepo.Aggregate(id) == old(taskRepo.Aggregate(id)))
    {
      if params.title == "" {
        return Failure(ErrTitleRequired);
      }
      var items: seq<TaskItem> := [];
      var i := 0;
      while i < |params.items|
        invariant 0 <= i <= |params.items|
        invariant |items| == i
        invariant forall j :: 0 <= j < i ==> params.items[j].title != "" && items[j] == NewItem(params.items[j])
      {
        if params.items[i].title == "" {
          return Failure(ErrItemTitleRequired);
        }
        items := items + [NewItem(params.items[i])];
        i := i + 1;
      }
      var task := Task(0, params.title, params.description, ZeroTime, ZeroTime, items);
      var stamped, err := taskRepo.Create(task, now, fault);
      if err.Some? {
        return Failure(err.value);
      }
      r := Success(ModelToResult(stamped));
    }

    /** Deletes a task; a non-positive id is refused before the repository is reached. */
    method DeleteTask(taskId: int, fault: Option<string>) returns (err: Option<Error>)
      requires taskRepo.Valid()
      modifies taskRepo
      ensures taskRepo.Valid()
      ensures taskId <= 0 ==> err == Some(ErrInvalidTaskId) && unchanged(taskRepo)
      ensures taskId > 0 && fault.Some? ==> err == Some(Driver(fault.value)) && unchanged(taskRepo)
      ensures taskId > 0 && fault.None? && taskId !in old(taskRepo.tasks) ==>
        err == Some(TaskNotFound) && unchanged(taskRepo)
      ensures err.None? <==> taskId > 0 && fault.None? && taskId in old(taskRepo.tasks)
      ensures err.None? ==>
        && taskRepo.tasks == old(taskRepo.tasks) - {taskId}
        && taskRepo.items == Cascade(old(taskRepo.items), taskId)
        && (forall id :: id in taskRepo.tasks ==> taskRepo.Aggregate(id) == old(taskRepo.Aggregate(id)))
    {
      if taskId <= 0 {
        return Some(ErrInvalidTaskId);
      }
      err := taskRepo.Delete(taskId, fault);
    }

    /**
     * The task `taskId` as a result. For a non-positive id the answer does
     * not depend on `fault`: the repository is never consulted.
     */
    function GetTask(taskId: int, fault: Option<string>): (r: Result<TaskResult, Error>)
      reads taskRepo
      ensures taskId <= 0 ==> r == Failure(ErrInvalidTaskId)
      ensures taskId > 0 && fault.Some? ==> r == Failure(Driver(fault.value))
      ensures taskId > 0 && fault.None? && taskId !in taskRepo.tasks ==> r == Failure(NoRows)
      ensures r.Success? <==> taskId > 0 && fault.None? && taskId in taskRepo.tasks
      ensures r.Success? ==> r.value == ModelToResult(taskRepo.Aggregate(taskId)) && r.value.id == taskId
    {
      if taskId <= 0 then Failure(ErrInvalidTaskId)
      else
        match taskRepo.GetByID(taskId, fault)
        case Failure(e) => Failure(e)
        case Success(task) => Success(ModelToResult(task))
    }

    /** Every task as a result, in the repository's newest-first order. */
    function ListTasks(fault: Option<string>): (r: Result<TaskListResult, Error>)
      reads taskRepo
      requires taskRepo.Valid()
      ensures fault.Some? ==> r == Failure(Driver(fault.value))
      ensures r.Success? <==> fault.None?
      ensures r.Success? ==>
        && |r.value.tasks| == |taskRepo.tasks|
        && (forall i :: 0 <= i < |r.value.tasks| ==>
              r.value.tasks[i].id in taskRepo.tasks
              && r.value.tasks[i] == ModelToResult(taskRepo.Aggregate(r.value.tasks[i].id)))
        && (forall i, j :: 0 <= i < j < |r.value.tasks| ==> r.value.tasks[i].createdAt >= r.value.tasks[j].createdAt)
        && (forall id :: id in taskRepo.tasks ==> ModelToResult(taskRepo.Aggregate(id)) in r.value.tasks)
    {
      match taskRepo.List(fault)
      case Failure(e) => Failure(e)
      case Success(tasks) =>
        var results := ModelsToResults(tasks);
        assert forall i :: 0 <= i < |results| ==> results[i] == ModelToResult(tasks[i]) by {
          forall i | 0 <= i < |results| ensures results[i] == ModelToResult(tasks[i]) {
            ResultRoundTrip(results[i]);
          }
        }
        Success(TaskListResult(results))
    }
  }
}
