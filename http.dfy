/** What the HTTP boundary contributes to the handlers: status codes and the
    way a JSON body's optional string fields are tested. */
module Http {
  import opened Wrappers

  /** The errors a handler can end with; `Status` is the HTTP status code. */
  datatype Error = BadRequest | Unauthorized | NotFound | InternalError {
    function Status(): int {
      match this
      case BadRequest => 400
      case Unauthorized => 401
      case NotFound => 404
      case InternalError => 500
    }
  }

  /** Python truthiness of `data.get(field)` for a string field: the field is
      present and not the empty string. */
  predicate Provided(field: Option<string>) {
    field.Some? && field.value != ""
  }

  /** Partial update of one column: the supplied value wins only when it is
      truthy (`if title: task.title = title`). */
  function Patch(current: string, supplied: Option<string>): string {
    if Provided(supplied) then supplied.value else current
  }

  /** The same rule for a nullable column. */
  function PatchOptional(current: Option<string>, supplied: Option<string>): Option<string> {
    if Provided(supplied) then supplied else current
  }
}
