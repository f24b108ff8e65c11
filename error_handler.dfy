/**
 * `GlobalRestExceptionHandler`: turns each kind of error into a response
 * carrying an `ApiError` envelope whose status is the response's own.
 */
module ErrorHandler {
  import opened Options
  import opened Model
  import opened Http
  import opened BookNotFound
  import opened Validation

  const UriMarker: string := "uri="

  predicate MarkerAt(s: string, i: nat) {
    i + |UriMarker| <= |s| && s[i..i + |UriMarker|] == UriMarker
  }

  predicate HasMarker(s: string) {
    exists i: nat | i <= |s| :: MarkerAt(s, i)
  }

  /**
   * `String.replace("uri=", "")`: scans left to right and drops each
   * occurrence it meets, without rescanning what is left behind.
   */
  function RemoveUri(s: string): (r: string)
    ensures |r| <= |s| && (|s| - |r|) % |UriMarker| == 0
  {
    if |s| == 0 then ""
    else if MarkerAt(s, 0) then RemoveUri(s[|UriMarker|..])
    else [s[0]] + RemoveUri(s[1..])
  }

  /** A description without the marker is left as it is. */
  lemma {:induction false} RemoveUriWithoutMarker(s: string)
    requires !HasMarker(s)
    ensures RemoveUri(s) == s
  {
    if |s| > 0 {
      assert !MarkerAt(s, 0);
      assert !HasMarker(s[1..]) by {
        forall i: nat | MarkerAt(s[1..], i) ensures false {
          assert s[1..][i..i + |UriMarker|] == s[i + 1..i + 1 + |UriMarker|];
          assert MarkerAt(s, i + 1);
        }
      }
      RemoveUriWithoutMarker(s[1..]);
    }
  }

  /** The servlet description `"uri=" + requestUri` gives back the request URI. */
  lemma RequestPath(requestUri: string)
    requires !HasMarker(requestUri)
    ensures RemoveUri(UriMarker + requestUri) == requestUri
  {
    assert (UriMarker + requestUri)[|UriMarker|..] == requestUri;
    RemoveUriWithoutMarker(requestUri);
  }

  /** A string whose fourth character is not '=' does not start with the marker. */
  lemma NoMarkerAtStart(s: string)
    requires |s| >= |UriMarker| ==> s[3] != '='
    ensures !MarkerAt(s, 0)
  {
    if |s| >= |UriMarker| {
      assert s[..|UriMarker|][3] == s[3];
    }
  }

  /** One pass can leave a marker behind: the removal is not idempotent. */
  lemma RemovalCanLeaveMarker()
    ensures RemoveUri("uriuri==") == "uri="
  {
    var s0 := "uriuri==";
    var s1, s2, s3, s4 := s0[1..], s0[2..], s0[3..], s0[7..];
    assert s1 == "riuri==" && s2 == "iuri==" && s3 == "uri==" && s4 == "=";
    NoMarkerAtStart(s0);
    NoMarkerAtStart(s1);
    NoMarkerAtStart(s2);
    NoMarkerAtStart(s4);
    assert MarkerAt(s3, 0) && s3[|UriMarker|..] == s4;
    assert RemoveUri(s4) == "=";
    assert RemoveUri(s0) == "uri" + RemoveUri(s3);
  }

  /** The validation list: `field + ": " + message` for each field error, in order. */
  function FormatFieldErrors(errors: seq<FieldError>): (lines: seq<string>)
    ensures |lines| == |errors|
    ensures forall i :: 0 <= i < |errors| ==>
      |lines[i]| == |errors[i].field| + 2 + |errors[i].message|
      && lines[i][..|errors[i].field|] == errors[i].field
      && lines[i][|errors[i].field|..|errors[i].field| + 2] == ": "
      && lines[i][|errors[i].field| + 2..] == errors[i].message
  {
    seq(|errors|, i requires 0 <= i < |errors| => errors[i].field + ": " + errors[i].message)
  }

  /** An envelope-carrying response whose envelope repeats the response's status and its reason. */
  predicate Enveloped(resp: Response) {
    && resp.status in {BAD_REQUEST, NOT_FOUND, INTERNAL_SERVER_ERROR}
    && resp.body.ErrorBody?
    && resp.body.error.status == resp.status
    && resp.body.error.error == ReasonPhrase(resp.status)
  }

  /** `handleBookNotFound`: 404 with the exception's message and no validation list. */
  function HandleBookNotFound(ex: BookNotFoundException, description: string): (resp: Response)
    ensures Enveloped(resp) && resp.status == NOT_FOUND
    ensures resp.body.error.message == Some(NotFoundMessage(ex.id))
    ensures resp.body.error.path == RemoveUri(description)
    ensures resp.body.error.validationErrors.None?
  {
    Response(NOT_FOUND, ErrorBody(ApiError(NOT_FOUND, ReasonPhrase(NOT_FOUND), Some(NotFoundMessage(ex.id)), RemoveUri(description), None)))
  }

  /** `handleMethodArgumentNotValid`: 400, "Validation failed", one line per field error. */
  function HandleMethodArgumentNotValid(errors: seq<FieldError>, description: string): (resp: Response)
    ensures Enveloped(resp) && resp.status == BAD_REQUEST
    ensures resp.body.error.message == Some("Validation failed")
    ensures resp.body.error.path == RemoveUri(description)
    ensures resp.body.error.validationErrors == Some(FormatFieldErrors(errors))
  {
    Response(BAD_REQUEST, ErrorBody(ApiError(
      BAD_REQUEST, ReasonPhrase(BAD_REQUEST), Some("Validation failed"), RemoveUri(description),
      Some(FormatFieldErrors(errors)))))
  }

  /** `handleAllExceptions`: 500 with the error's own (possibly null) message. */
  function HandleAllExceptions(message: Option<string>, description: string): (resp: Response)
    ensures Enveloped(resp) && resp.status == INTERNAL_SERVER_ERROR
    ensures resp.body.error.message == message
    ensures resp.body.error.path == RemoveUri(description)
    ensures resp.body.error.validationErrors.None?
  {
    Response(INTERNAL_SERVER_ERROR, ErrorBody(ApiError(
      INTERNAL_SERVER_ERROR, ReasonPhrase(INTERNAL_SERVER_ERROR), message, RemoveUri(description), None)))
  }

  /** The errors that reach the handler, by kind. */
  datatype Fault =
    | NotFound(ex: BookNotFoundException)
    | ArgumentNotValid(errors: seq<FieldError>)
    | Other(message: Option<string>)

  /** The handler chosen for each kind: the most specific one that matches. */
  function Handle(fault: Fault, description: string): (resp: Response)
    ensures Enveloped(resp)
    ensures resp.status == NOT_FOUND <==> fault.NotFound?
    ensures resp.status == BAD_REQUEST <==> fault.ArgumentNotValid?
    ensures resp.status == INTERNAL_SERVER_ERROR <==> fault.Other?
    ensures resp.body.error.validationErrors.Some? <==> fault.ArgumentNotValid?
  {
    match fault
    case NotFound(ex) => HandleBookNotFound(ex, description)
    case ArgumentNotValid(errors) => HandleMethodArgumentNotValid(errors, description)
    case Other(message) => HandleAllExceptions(message, description)
  }

  /** The envelope's message tells which id was missing. */
  lemma NotFoundMessageNamesId(a: BookNotFoundException, b: BookNotFoundException, d1: string, d2: string)
    requires Handle(NotFound(a), d1).body.error.message == Handle(NotFound(b), d2).body.error.message
    ensures a.id == b.id
  {
    MessageInjective(a.id, b.id);
  }
}
