/**
 * The HTTP adapter of the task endpoints. Each handler turns what gin hands
 * it (the outcome of binding the JSON body, or the `:id` path segment) and
 * the use-case's answer into a status and a body.
 */
module HttpTaskHandler {
  import opened Wrappers
  import opened Models
  import opened Errors
  import opened Rows
  import opened Db
  import opened StrConv
  import opened HttpResponse
  import U = Usecases

  datatype CreateTaskItemRequest = CreateTaskItemRequest(title: string, completed: bool)

  datatype CreateTaskRequest = CreateTaskRequest(title: string, description: string, items: seq<CreateTaskItemRequest>)

  /** What `ShouldBindJSON` produced: the decoded request, or why it failed. */
  datatype BindOutcome = Bound(request: CreateTaskRequest) | BindFailed(error: BindError)

  function ParamsToRequest(p: U.CreateTaskParams): CreateTaskRequest {
    CreateTaskRequest(p.title, p.description,
      seq(|p.items|, i requires 0 <= i < |p.items| => CreateTaskItemRequest(p.items[i].title, p.items[i].completed)))
  }

  /** `requestToParams`: copies every field, keeping the items' count and order. */
  function RequestToParams(req: CreateTaskRequest): (p: U.CreateTaskParams)
    ensures |p.items| == |req.items|
    ensures ParamsToRequest(p) == req
  {
    var p := U.CreateTaskParams(req.title, req.description,
      seq(|req.items|, i requires 0 <= i < |req.items| => U.CreateTaskItemParams(req.items[i].title, req.items[i].completed)));
    assert ParamsToRequest(p).items == req.items;
    p
  }

  function ResponseToResult(r: TaskResponse): U.TaskResult {
    U.TaskResult(r.id, r.title, r.description, r.createdAt, r.updatedAt,
      seq(|r.items|, i requires 0 <= i < |r.items| =>
        var it := r.items[i];
        U.TaskItemResult(it.id, it.taskId, it.title, it.completed, it.createdAt, it.updatedAt)))
  }

  /** `resultToResponse`: copies every field, keeping the items' count and order. */
  function ResultToResponse(r: U.TaskResult): (resp: TaskResponse)
    ensures |resp.items| == |r.items|
    ensures ResponseToResult(resp) == r
  {
    var resp := TaskResponse(r.id, r.title, r.description, r.createdAt, r.updatedAt,
      seq(|r.items|, i requires 0 <= i < |r.items| =>
        var it := r.items[i];
        TaskItemResponse(it.id, it.taskId, it.title, it.completed, it.createdAt, it.updatedAt)));
    assert ResponseToResult(resp).items == r.items;
    resp
  }

  /** `listResultToResponse`: one response per result, in the same order. */
  function ListResultToResponse(l: U.TaskListResult): (resp: TaskListResponse)
    ensures |resp.tasks| == |l.tasks|
    ensures forall i :: 0 <= i < |l.tasks| ==> ResponseToResult(resp.tasks[i]) == l.tasks[i]
  {
    TaskListResponse(seq(|l.tasks|, i requires 0 <= i < |l.tasks| => ResultToResponse(l.tasks[i])))
  }

  /** The response the GET handler writes for a use-case error: only the driver's no-rows error is a 404. */
  function GetErrorResponse(e: Error): (resp: Response)
    ensures resp.status == StatusNotFound <==> e == NoRows
    ensures resp.status != StatusNotFound ==> resp == Response(StatusInternalServerError, ErrorBody(e.Message()))
    ensures resp.status == StatusNotFound ==> resp.body == ErrorBody("task not found")
  {
    if e == NoRows then RespondWithError(StatusNotFound, "task not found")
    else RespondWithError(StatusInternalServerError, e.Message())
  }

  /** The response the DELETE handler writes for a use-case error: only `ErrTaskNotFound` is a 404. */
  function DeleteErrorResponse(e: Error): (resp: Response)
    ensures resp.status == StatusNotFound <==> e == TaskNotFound
    ensures resp.status != StatusNotFound ==> resp == Response(StatusInternalServerError, ErrorBody(e.Message()))
    ensures resp.status == StatusNotFound ==> resp.body == ErrorBody("task not found")
  {
    if e == TaskNotFound then RespondWithError(StatusNotFound, "task not found")
    else RespondWithError(StatusInternalServerError, e.Message())
  }

  /**
   * The two mappings disagree on each other's sentinel, although both carry
   * the text "task not found".
   */
  lemma ErrorMappingIsAsymmetric()
    ensures TaskNotFound.Message() == "task not found"
    ensures GetErrorResponse(TaskNotFound) == Response(StatusInternalServerError, ErrorBody("task not found"))
    ensures DeleteErrorResponse(TaskNotFound).status == StatusNotFound
    ensures GetErrorResponse(NoRows).status == StatusNotFound
    ensures DeleteErrorResponse(NoRows) == Response(StatusInternalServerError, ErrorBody("sql: no rows in result set"))
  {
  }

  class HTTPTaskHandler {
    const taskUsecase: U.TaskUsecase

    /** `NewHTTPTaskHandler`. */
    constructor (taskUsecase: U.TaskUsecase)
      ensures this.taskUsecase == taskUsecase
    {
      this.taskUsecase := taskUsecase;
    }

    /**
     * POST /api/tasks. A body that does not bind is a 400 and the use-case
     * is not called; every use-case error, its own validation errors
     * included, is a 500 carrying the error text.
     */
    method CreateTask(bind: BindOutcome, now: Time, fault: TxFault) returns (resp: Response)
      requires taskUsecase.taskRepo.Valid()
      modifies taskUsecase.taskRepo
      ensures taskUsecase.taskRepo.Valid()
      ensures bind.BindFailed? ==> resp == ValidationErrorResponse(bind.error) && unchanged(taskUsecase.taskRepo)
      ensures bind.Bound? ==>
        var p := RequestToParams(bind.request);
        && (resp.status == StatusCreated <==> U.ValidParams(p) && !Aborts(fault, |p.items|))
        && (p.title == "" ==> resp == Response(StatusInternalServerError, ErrorBody("task title is required")))
        && (p.title != "" && !U.ValidParams(p) ==>
              resp == Response(StatusInternalServerError, ErrorBody("task item title is required")))
        && (U.ValidParams(p) && Aborts(fault, |p.items|) ==>
              resp == Response(StatusInternalServerError, ErrorBody(fault.message)))
        && (resp.status != StatusCreated ==> unchanged(taskUsecase.taskRepo))
      ensures resp.status == StatusCreated ==>
        && resp.body.TaskBody?
        && resp.body.task.id == old(taskUsecase.taskRepo.nextTaskId)
        && resp.body.task.id in taskUsecase.taskRepo.tasks
        && resp.body.task == ResultToResponse(U.ModelToResult(taskUsecase.taskRepo.Aggregate(resp.body.task.id)))
      // the body echoes the request, stamped and owned by the new id
      ensures resp.status == StatusCreated ==>
        && bind.Bound?
        && var req, t := bind.request, resp.body.task;
        && t.title == req.title && t.description == req.description
        && t.createdAt == now && t.updatedAt == now
        && |t.items| == |req.items|
        && (forall i :: 0 <= i < |req.items| ==>
              && t.items[i].title == req.items[i].title
              && t.items[i].completed == req.items[i].completed
              && t.items[i].taskId == t.id
              && t.items[i].createdAt == now && t.items[i].updatedAt == now)
      // exactly one task is added and every stored task is untouched
      ensures resp.status == StatusCreated ==>
        var repo := taskUsecase.taskRepo;
        && repo.tasks.Keys == old(repo.tasks).Keys + {resp.body.task.id}
        && (forall id :: id in old(repo.tasks) ==> id in repo.tasks && repo.Aggregate(id) == old(repo.Aggregate(id)))
    {
      if bind.BindFailed? {
        resp := RespondWithValidationError(bind.error);
        return;
      }
      var params := RequestToParams(bind.request);
      var result := taskUsecase.CreateTask(params, now, fault);
      if result.Failure? {
        return RespondWithError(StatusInternalServerError, result.error.Message());
      }
      resp := Response(StatusCreated, TaskBody(ResultToResponse(result.value)));
    }

    /**
     * GET /api/tasks/:id. A segment that is not a base-10 int64 is a 400
     * and the use-case is not consulted; a non-positive id is refused by
     * the use-case and so answered with 500.
     */
    function GetTask(idParam: string, fault: Option<string>): (resp: Response)
      reads taskUsecase.taskRepo
      ensures ParseInt64(idParam).None? ==> resp == Response(StatusBadRequest, ErrorBody("invalid task ID"))
      ensures ParseInt64(idParam).Some? ==>
        var id := ParseInt64(idParam).value;
        && (resp.status == StatusOK <==> id > 0 && fault.None? && id in taskUsecase.taskRepo.tasks)
        && (resp.status == StatusOK ==>
              resp.body == TaskBody(ResultToResponse(U.ModelToResult(taskUsecase.taskRepo.Aggregate(id)))))
        && (resp.status == StatusNotFound <==> id > 0 && fault.None? && id !in taskUsecase.taskRepo.tasks)
        && (resp.status == StatusNotFound ==> resp.body == ErrorBody("task not found"))
        && (id <= 0 ==> resp == Response(StatusInternalServerError, ErrorBody("invalid task ID")))
        && (id > 0 && fault.Some? ==> resp == Response(StatusInternalServerError, ErrorBody(fault.value)))
    {
      match ParseInt64(idParam)
      case None => RespondWithError(StatusBadRequest, "invalid task ID")
      case Some(id) =>
        match taskUsecase.GetTask(id, fault)
        case Failure(e) => GetErrorResponse(e)
        case Success(result) => Response(StatusOK, TaskBody(ResultToResponse(result)))
    }

    /** GET /api/tasks: every task, newest first, or 500 with the error text. */
    function ListTasks(fault: Option<string>): (resp: Response)
      reads taskUsecase.taskRepo
      requires taskUsecase.taskRepo.Valid()
      ensures fault.Some? ==> resp == Response(StatusInternalServerError, ErrorBody(fault.value))
      ensures resp.status == StatusOK <==> fault.None?
      ensures resp.status == StatusOK ==> resp.body.TaskListBody?
      ensures resp.status == StatusOK && resp.body.TaskListBody? ==>
        var repo, list := taskUsecase.taskRepo, resp.body.list.tasks;
        && |list| == |repo.tasks|
        && (forall i :: 0 <= i < |list| ==>
              list[i].id in repo.tasks && list[i] == ResultToResponse(U.ModelToResult(repo.Aggregate(list[i].id))))
        && (forall i, j :: 0 <= i < j < |list| ==> list[i].createdAt >= list[j].createdAt)
        && (forall id :: id in repo.tasks ==> ResultToResponse(U.ModelToResult(repo.Aggregate(id))) in list)
    {
      match taskUsecase.ListTasks(fault)
      case Failure(e) => RespondWithError(StatusInternalServerError, e.Message())
      case Success(result) =>
        var list := ListResultToResponse(result);
        ListResponseMirrorsResult(result);
        Response(StatusOK, TaskListBody(list))
    }

    /**
     * DELETE /api/tasks/:id. 204 with no body on success; only
     * `ErrTaskNotFound` is a 404.
     */
    method DeleteTask(idParam: string, fault: Option<string>) returns (resp: Response)
      requires taskUsecase.taskRepo.Valid()
      modifies taskUsecase.taskRepo
      ensures taskUsecase.taskRepo.Valid()
      ensures ParseInt64(idParam).None? ==>
        resp == Response(StatusBadRequest, ErrorBody("invalid task ID")) && unchanged(taskUsecase.taskRepo)
      ensures ParseInt64(idParam).Some? ==>
        var id := ParseInt64(idParam).value;
        && (resp.status == StatusNoContent <==> id > 0 && fault.None? && id in old(taskUsecase.taskRepo.tasks))
        && (resp.status == StatusNotFound <==> id > 0 && fault.None? && id !in old(taskUsecase.taskRepo.tasks))
        && (resp.status == StatusNotFound ==> resp.body == ErrorBody("task not found"))
        && (id <= 0 ==> resp == Response(StatusInternalServerError, ErrorBody("invalid task ID")))
        && (id > 0 && fault.Some? ==> resp == Response(StatusInternalServerError, ErrorBody(fault.value)))
      ensures resp.status != StatusNoContent ==> unchanged(taskUsecase.taskRepo)
      ensures resp.status == StatusNoContent ==>
        var id := ParseInt64(idParam).value;
        && resp.body == NoBody
        && taskUsecase.taskRepo.tasks == old(taskUsecase.taskRepo.tasks) - {id}
        && taskUsecase.taskRepo.items == Cascade(old(taskUsecase.taskRepo.items), id)
    {
      var parsed := ParseInt64(idParam);
      if parsed.None? {
        return RespondWithError(StatusBadRequest, "invalid task ID");
      }
      var err := taskUsecase.DeleteTask(parsed.value, fault);
      if err.Some? {
        return DeleteErrorResponse(err.value);
      }
      resp := Response(StatusNoContent, NoBody);
    }
  }

  /**
   * The list response is the results converted one by one, so every result
   * of the list has its response in it.
   */
  lemma ListResponseMirrorsResult(l: U.TaskListResult)
    ensures var resp := ListResultToResponse(l);
      && (forall i :: 0 <= i < |l.tasks| ==> resp.tasks[i] == ResultToResponse(l.tasks[i]))
      && (forall x :: x in l.tasks ==> ResultToResponse(x) in resp.tasks)
  {
    var resp := ListResultToResponse(l);
    forall i | 0 <= i < |l.tasks| ensures resp.tasks[i] == ResultToResponse(l.tasks[i]) {
      ResponseRoundTrip(resp.tasks[i]);
    }
    forall x | x in l.tasks ensures ResultToResponse(x) in resp.tasks {
      var k :| 0 <= k < |l.tasks| && l.tasks[k] == x;
      assert resp.tasks[k] == ResultToResponse(x);
    }
  }

  /** The response conversion is onto: every response is the image of its result. */
  lemma ResponseRoundTrip(resp: TaskResponse)
    ensures ResultToResponse(ResponseToResult(resp)) == resp
  {
    var back := ResultToResponse(ResponseToResult(resp));
    assert back.items == resp.items;
  }

  /** The request conversion is onto as well. */
  lemma ParamsRoundTrip(p: U.CreateTaskParams)
    ensures RequestToParams(ParamsToRequest(p)) == p
  {
    var back := RequestToParams(ParamsToRequest(p));
    assert back.items == p.items;
  }
}
