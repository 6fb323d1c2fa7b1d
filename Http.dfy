/** The results an endpoint can hand back to the web framework, the log entries
    it writes on the way, and the fixed reply for any failure. */
module Http {
  import opened Wrappers

  /** The framework's validation state of a request body: valid when no field
      reported an error. */
  datatype ModelState = ModelState(errors: seq<string>)
  {
    predicate IsValid()
    {
      errors == []
    }
  }

  /** The detail an error log line carries. */
  datatype Detail = SaveFailed | Exception(message: string)

  /** A log line: its severity and, for errors, the detail. The text of info and
      warning lines is not modelled. */
  datatype LogEntry = Info | Warn | Error(detail: Detail)

  /** The action results the controllers build. `Status` is an object result
      with an explicit status code and a text body. */
  datatype ActionResult<T> =
    | Ok(value: T)
    | Created(location: string, value: T)
    | NoContent
    | BadRequest(modelState: Option<ModelState>)
    | NotFound
    | Status(code: int, text: string)
  {
    function StatusCode(): int
    {
      match this
      case Ok(_) => 200
      case Created(_, _) => 201
      case NoContent => 204
      case BadRequest(_) => 400
      case NotFound => 404
      case Status(c, _) => c
    }
  }

  /** What an endpoint hands back, together with the log lines it wrote. */
  datatype Reply<T> = Reply(result: ActionResult<T>, log: seq<LogEntry>)

  const GenericErrorBody: string := "Something went wrong"

  /** A 500 reply whose body is the fixed text. */
  predicate IsServerError<T>(r: ActionResult<T>)
  {
    r.Status? && r.code == 500 && r.text == GenericErrorBody
  }

  /** `internalError`: the detail goes to the error log and nowhere else; the
      client sees status 500 and the fixed text, whatever the detail was. */
  function InternalError<T>(detail: Detail): (r: Reply<T>)
    ensures r.result.StatusCode() == 500 && IsServerError(r.result)
    ensures r.log == [Error(detail)]
  {
    Reply(Status(500, GenericErrorBody), [Error(detail)])
  }

  /** A reply with log lines written before it. */
  function After<T>(earlier: seq<LogEntry>, r: Reply<T>): Reply<T>
  {
    Reply(r.result, earlier + r.log)
  }

  /** No line of the log is an error. */
  predicate NoErrors(log: seq<LogEntry>)
  {
    forall i :: 0 <= i < |log| ==> !log[i].Error?
  }
}
