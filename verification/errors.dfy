/**
 * The Go `error` values that cross the layers. `errors.Is` compares sentinels
 * by identity, so each sentinel is its own constructor: a driver error whose
 * text happens to read "task not found" is still not `TaskNotFound`.
 */
module Errors {

  datatype Error =
    | TaskNotFound          // db.ErrTaskNotFound
    | NoRows                // database/sql.ErrNoRows, returned by a scan that found nothing
    | Invalid(text: string) // an input error built with errors.New in the use-case layer
    | Driver(text: string)  // any other failure reported by the database driver
  {
    /** The text `err.Error()` yields. */
    function Message(): string {
      match this
      case TaskNotFound => "task not found"
      case NoRows => "sql: no rows in result set"
      case Invalid(text) => text
      case Driver(text) => text
    }
  }
}
