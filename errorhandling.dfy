/** `ExceptionMiddleware`: runs the rest of the pipeline and turns an
    exception it throws into a JSON error response. */
module ErrorHandling {
  import opened Wrappers
  import opened Exceptions

  const BadRequest: int := 400
  const NotFound: int := 404
  const JsonContentType: string := "application/json"

  /** The response fields the middleware sets, and the text written so far. */
  class HttpResponse {
    var statusCode: int
    var contentType: Option<string>
    var body: string

    constructor ()
      ensures statusCode == 200 && contentType.None? && body == ""
    {
      statusCode := 200;
      contentType := None;
      body := "";
    }
  }

  /** The catch clauses: a duplicate email is 400, a missing user 404, and
      every other exception 400 through the default parameter of
      `HandleExceptionAsync`, never 500. */
  function StatusFor(e: Exception): (code: int)
    ensures code == NotFound <==> e.UserNotFoundException?
    ensures code == BadRequest <==> !e.UserNotFoundException?
  {
    match e
    case DuplicateEmailException(_) => BadRequest
    case UserNotFoundException(_) => NotFound
    case _ => BadRequest
  }

  const BodyPrefix: string := "{\"message\":\""
  const BodySuffix: string := "\"}"

  /** `JsonSerializer.Serialize(new { message })`. */
  function ErrorBody(message: string): (json: string)
    ensures |json| == |BodyPrefix| + |message| + |BodySuffix|
  {
    BodyPrefix + message + BodySuffix
  }

  /** The message of an error body, read back from between the quotes. */
  function MessageOf(json: string): Option<string> {
    if |json| >= |BodyPrefix| + |BodySuffix| && json[..|BodyPrefix|] == BodyPrefix
       && json[|json| - |BodySuffix|..] == BodySuffix
    then Some(json[|BodyPrefix|..|json| - |BodySuffix|])
    else None
  }

  /** An error body hands the exception's message back intact. */
  lemma ErrorBodyCarriesMessage(message: string)
    ensures MessageOf(ErrorBody(message)) == Some(message)
  {
    var json := ErrorBody(message);
    assert json[..|BodyPrefix|] == BodyPrefix;
    assert json[|json| - |BodySuffix|..] == BodySuffix;
    assert json[|BodyPrefix|..|json| - |BodySuffix|] == message;
  }

  /** `HandleExceptionAsync`: JSON content type, the status, and `{message}` written. */
  method HandleException(response: HttpResponse, e: Exception, status: int)
    modifies response
    ensures response.contentType == Some(JsonContentType)
    ensures response.statusCode == status
    ensures response.body == old(response.body) + ErrorBody(e.message)
  {
    response.contentType := Some(JsonContentType);
    response.statusCode := status;
    response.body := response.body + ErrorBody(e.message);
  }

  /** `Invoke`, given what the rest of the pipeline did: `None` when it
      returned normally, else the exception it threw. */
  method Invoke(response: HttpResponse, thrown: Option<Exception>)
    modifies response
    ensures thrown.None? ==> unchanged(response)
    ensures thrown.Some? ==>
              && response.statusCode == StatusFor(thrown.value)
              && response.contentType == Some(JsonContentType)
              && response.body == old(response.body) + ErrorBody(thrown.value.message)
  {
    if thrown.None? {
      return;
    }
    var e := thrown.value;
    match e
    case DuplicateEmailException(_) => HandleException(response, e, BadRequest);
    case UserNotFoundException(_) => HandleException(response, e, NotFound);
    case _ => HandleException(response, e, BadRequest);
  }

  /** The generic "User not found" that updating a missing user throws is a
      400, not the 404 of `UserNotFoundException`. */
  lemma MissingUserUpdateIsBadRequest()
    ensures StatusFor(GenericException(UserNotFoundMessage)) == BadRequest
    ensures StatusFor(UserNotFoundException(UserNotFoundMessage)) == NotFound
  {
  }
}
