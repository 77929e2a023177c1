/** `handleApiResponseError` (src/services/apiClient.ts): turns a failed
    response into an `ApiError`. The body read `await response.text()` is
    a parameter: Some(text) when it succeeds, None when it throws. */
module ApiClient {
  import opened Types
  import opened ApiErrors

  /** The error a service throws for a rejected response: the message is
      always the caller's default, the status is copied, and the backend
      message is the body text when that is non-empty. */
  function HandleApiResponseError(status: int, body: Option<string>, defaultMessage: string): (e: ApiError)
    ensures e.name == "ApiError"
    ensures e.message == defaultMessage
    ensures e.statusCode == status
    ensures body.Some? && body.value != "" ==> e.backendMessage == body.value
    ensures body.None? || body.value == "" ==> e.backendMessage == defaultMessage
  {
    var backendMessage := match body
      case Some(text) => if text != "" then text else defaultMessage
      case None => defaultMessage;
    NewApiError(defaultMessage, status, Some(backendMessage))
  }

  /** The backend message is the body text or the default, never anything
      else, and it is empty only when both are. */
  lemma BackendMessageSource(status: int, body: Option<string>, defaultMessage: string)
    ensures var e := HandleApiResponseError(status, body, defaultMessage);
      (e.backendMessage == defaultMessage || body == Some(e.backendMessage))
      && (e.backendMessage == "" <==> defaultMessage == "" && (body.None? || body.value == ""))
  {
  }
}
