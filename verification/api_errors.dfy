/** `ApiError` (src/services/apiErrors.ts) and what the views' `catch`
    blocks receive. */
module ApiErrors {
  import opened Types

  /** An `ApiError`. The datatype is immutable, as the source's readonly
      `statusCode` and `backendMessage` fields are. */
  datatype ApiError = ApiError(name: string, message: string, statusCode: int, backendMessage: string)

  /** A value caught by a view: an `ApiError` thrown by a service, another
      `Error` (a network `TypeError`, a JSON `SyntaxError`), or a thrown
      value that is not an `Error` at all. */
  datatype Thrown = ApiFailure(error: ApiError) | OtherError(message: string) | NotAnError

  /** `new ApiError(message, statusCode, backendMessage?)`: the backend
      message falls back to `message` when it is missing or empty. */
  function NewApiError(message: string, statusCode: int, backendMessage: Option<string>): (e: ApiError)
    ensures e.name == "ApiError"
    ensures e.message == message && e.statusCode == statusCode
    ensures backendMessage.Some? && backendMessage.value != "" ==> e.backendMessage == backendMessage.value
    ensures backendMessage.None? || backendMessage.value == "" ==> e.backendMessage == message
    ensures message != "" ==> e.backendMessage != ""
  {
    var backend := match backendMessage
      case Some(b) => if b != "" then b else message
      case None => message;
    ApiError("ApiError", message, statusCode, backend)
  }

  /** `err instanceof Error ? err.message : fallback`, as the comment views
      write their error text. */
  function CaughtMessage(t: Thrown, fallback: string): (m: string)
    ensures t.ApiFailure? ==> m == t.error.message
    ensures t.OtherError? ==> m == t.message
    ensures t.NotAnError? ==> m == fallback
  {
    match t
    case ApiFailure(e) => e.message
    case OtherError(msg) => msg
    case NotAnError => fallback
  }
}
