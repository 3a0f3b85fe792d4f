/**
 * Response bodies of the task endpoints and the helpers that write error
 * responses. Gin's `c.JSON(status, body)` becomes a `Response` value.
 */
module HttpResponse {
  import opened Models

  datatype TaskItemResponse = TaskItemResponse(
    id: int, taskId: int, title: string, completed: bool, createdAt: Time, updatedAt: Time)

  datatype TaskResponse = TaskResponse(
    id: int, title: string, description: string, createdAt: Time, updatedAt: Time, items: seq<TaskItemResponse>)

  datatype TaskListResponse = TaskListResponse(tasks: seq<TaskResponse>)

  /** What a handler writes as the JSON body. */
  datatype Body =
    | TaskBody(task: TaskResponse)
    | TaskListBody(list: TaskListResponse)
    | ErrorBody(error: string)                  // {"error": ...}
    | FieldErrorsBody(fields: map<string, string>)  // JSON field name -> message
    | NoBody                                    // c.JSON(204, nil)

  datatype Response = Response(status: int, body: Body)

  const StatusOK := 200
  const StatusCreated := 201
  const StatusNoContent := 204
  const StatusBadRequest := 400
  const StatusNotFound := 404
  const StatusInternalServerError := 500

  /** One failed rule of the request validator: the struct field and the rule's tag. */
  datatype FieldError = FieldError(field: string, tag: string)

  /** Why binding the JSON body failed. */
  datatype BindError =
    | ValidationErrors(errors: seq<FieldError>)
    | OtherBindError(message: string)  // malformed JSON and the like; the error text

  predicate IsUpperAscii(c: char) {
    'A' <= c <= 'Z'
  }

  function ToLowerAscii(c: char): char {
    if IsUpperAscii(c) then (c as int + 32) as char else c
  }

  /** `toJSONFieldName`: lowercases the first character of a Go field name. */
  function ToJSONFieldName(field: string): (r: string)
    ensures |r| == |field|
    ensures field == "" ==> r == ""
    ensures field != "" ==> r[1..] == field[1..] && !IsUpperAscii(r[0])
    ensures field != "" ==> (r[0] == field[0] <==> !IsUpperAscii(field[0]))
    ensures field != "" && IsUpperAscii(field[0]) ==> r[0] as int == field[0] as int + 32
  {
    if |field| == 0 then field else [ToLowerAscii(field[0])] + field[1..]
  }

  /** Converting a name that is already a JSON field name changes nothing. */
  lemma ToJSONFieldNameIdempotent(field: string)
    ensures ToJSONFieldName(ToJSONFieldName(field)) == ToJSONFieldName(field)
  {
    if field != "" {
      var once := ToJSONFieldName(field);
      assert once == [once[0]] + once[1..];
    }
  }

  /** The validator tags that have a message of their own. */
  const KnownTags: set<string> := {"required", "email", "min", "max", "len", "numeric", "alpha", "alphanum"}

  /** `getValidationErrorMessage`, looked up by the failed rule's tag. */
  function ValidationMessage(tag: string): (msg: string)
    ensures msg == "invalid" <==> tag !in KnownTags
    ensures msg == "required" <==> tag == "required"
  {
    match tag
    case "required" => "required"
    case "email" => "invalid email"
    case "min" => "too short"
    case "max" => "too long"
    case "len" => "invalid length"
    case "numeric" => "must be numeric"
    case "alpha" => "must contain only letters"
    case "alphanum" => "must contain only letters and numbers"
    case _ => "invalid"
  }

  /** Distinct known tags are reported with distinct messages. */
  lemma ValidationMessagesDistinct(a: string, b: string)
    requires a in KnownTags && b in KnownTags && a != b
    ensures ValidationMessage(a) != ValidationMessage(b)
  {
  }

  /**
   * The map the validation errors produce, filled in their order: a later
   * error on the same JSON field name replaces an earlier one.
   */
  function FieldErrorMap(errs: seq<FieldError>): map<string, string> {
    if errs == [] then map[]
    else
      var last := errs[|errs| - 1];
      FieldErrorMap(errs[..|errs| - 1])[ToJSONFieldName(last.field) := ValidationMessage(last.tag)]
  }

  /** One key per distinct JSON field name among the errors, and no other. */
  lemma {:induction false} FieldErrorMapKeys(errs: seq<FieldError>)
    ensures forall k :: k in FieldErrorMap(errs) <==>
      exists i :: 0 <= i < |errs| && ToJSONFieldName(errs[i].field) == k
  {
    if errs != [] {
      var init := errs[..|errs| - 1];
      FieldErrorMapKeys(init);
      forall k ensures k in FieldErrorMap(errs) <==> exists i :: 0 <= i < |errs| && ToJSONFieldName(errs[i].field) == k {
        if k in FieldErrorMap(init) {
          var i :| 0 <= i < |init| && ToJSONFieldName(init[i].field) == k;
          assert errs[i] == init[i];
        }
        if exists i :: 0 <= i < |errs| && ToJSONFieldName(errs[i].field) == k {
          var i :| 0 <= i < |errs| && ToJSONFieldName(errs[i].field) == k;
          if i < |init| {
            assert init[i] == errs[i];
          }
        }
      }
    }
  }

  /** Each key holds the message of the last error on that JSON field name. */
  lemma {:induction false} FieldErrorMapLastWins(errs: seq<FieldError>, i: int)
    requires 0 <= i < |errs|
    requires forall j :: i < j < |errs| ==> ToJSONFieldName(errs[j].field) != ToJSONFieldName(errs[i].field)
    ensures ToJSONFieldName(errs[i].field) in FieldErrorMap(errs)
    ensures FieldErrorMap(errs)[ToJSONFieldName(errs[i].field)] == ValidationMessage(errs[i].tag)
  {
    var init := errs[..|errs| - 1];
    if i < |errs| - 1 {
      assert init[i] == errs[i];
      forall j | i < j < |init| ensures ToJSONFieldName(init[j].field) != ToJSONFieldName(init[i].field) {
        assert init[j] == errs[j];
      }
      FieldErrorMapLastWins(init, i);
    }
  }

  /** A body without a title is answered with exactly `{"title": "required"}`. */
  lemma MissingTitleMessage()
    ensures FieldErrorMap([FieldError("Title", "required")]) == map["title" := "required"]
  {
    var errs := [FieldError("Title", "required")];
    assert errs[..0] == [];
    assert ToJSONFieldName("Title") == "title";
  }

  /** The response `respondWithValidationError` writes. */
  function ValidationErrorResponse(err: BindError): Response {
    match err
    case ValidationErrors(errs) => Response(StatusBadRequest, FieldErrorsBody(FieldErrorMap(errs)))
    case OtherBindError(message) => Response(StatusBadRequest, ErrorBody(message))
  }

  /** `respondWithValidationError`: fills the field-error map one error at a time. */
  method RespondWithValidationError(err: BindError) returns (resp: Response)
    ensures resp == ValidationErrorResponse(err)
    ensures resp.status == StatusBadRequest
  {
    if err.OtherBindError? {
      return Response(StatusBadRequest, ErrorBody(err.message));
    }
    var errs := err.errors;
    var fields: map<string, string> := map[];
    var i := 0;
    while i < |errs|
      invariant 0 <= i <= |errs|
      invariant fields == FieldErrorMap(errs[..i])
    {
      assert errs[..i + 1][..i] == errs[..i];
      fields := fields[ToJSONFieldName(errs[i].field) := ValidationMessage(errs[i].tag)];
      i := i + 1;
    }
    assert errs[..i] == errs;
    resp := Response(StatusBadRequest, FieldErrorsBody(fields));
  }

  /** `respondWithError`: the status as given, the message in the `error` envelope. */
  function RespondWithError(status: int, message: string): (resp: Response)
    ensures resp.status == status && resp.body.ErrorBody? && resp.body.error == message
  {
    Response(status, ErrorBody(message))
  }
}
