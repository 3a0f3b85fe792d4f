/**
 * The persisted records of internal/app/models: a task (the aggregate root)
 * and the items it owns.
 */
module Models {

  /** Timestamps are an opaque, totally ordered quantity. */
  type Time = int

  /** Go's zero `time.Time`, the value of a timestamp nobody has set. */
  const ZeroTime: Time := 0

  datatype TaskItem = TaskItem(
    id: int,
    taskId: int,
    title: string,
    completed: bool,
    createdAt: Time,
    updatedAt: Time)

  datatype Task = Task(
    id: int,
    title: string,
    description: string,
    createdAt: Time,
    updatedAt: Time,
    items: seq<TaskItem>)
}
