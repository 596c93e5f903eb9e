/**
 * The client hook that calls the handler: it turns the HTTP outcome into a
 * `{ match, error }` result that never rejects, and keeps a `loading` flag and
 * the last `error` as component state.
 */
module UseGemini {
  import opened Options
  import opened JsString
  import GeminiApi

  /** The parsed JSON body of the handler's response. */
  datatype ReplyBody = ReplyBody(error: Option<string>, matchText: Option<string>)

  /** How the call to the handler ended: it threw (the network failed or the body
      was not JSON), or it answered with a status that is `ok` or not. */
  datatype FetchOutcome =
    | Threw(message: string)
    | Responded(ok: bool, body: ReplyBody)

  /** What `requestGeminiMatch` resolves to. */
  datatype MatchResult = MatchResult(matchText: string, error: Option<string>)

  const RequestFailed := "Gemini request failed"

  /** The result the call resolves to: a non-ok answer gives no match and its error
      (or a default), an ok answer gives its trimmed match (or `''`) and no
      error, and a throw gives no match and the thrown message. */
  function ShapeReply(outcome: FetchOutcome): (r: MatchResult)
    ensures IsTrimmed(r.matchText)
    ensures r.error.None? <==> outcome.Responded? && outcome.ok
    ensures r.error.Some? ==> r.matchText == ""
    ensures outcome.Responded? && !outcome.ok ==>
      r.error == Some(if GeminiApi.Truthy(outcome.body.error) then outcome.body.error.value else RequestFailed)
    ensures outcome.Responded? && outcome.ok ==> r.matchText == Trim(outcome.body.matchText.GetOr(""))
    ensures outcome.Threw? ==> r == MatchResult("", Some(outcome.message))
  {
    match outcome
    case Threw(message) => MatchResult("", Some(message))
    case Responded(ok, body) =>
      if !ok then
        MatchResult("", Some(if GeminiApi.Truthy(body.error) then body.error.value else RequestFailed))
      else
        var m := if body.matchText.Some? then Trim(body.matchText.value) else "";
        TrimSpec(body.matchText.GetOr(""));
        MatchResult(m, None)
  }

  /** The hook's error state after a call: the call's error if it had one, and
      otherwise whatever the state held (the start of the call cleared it). */
  function ErrorAfter(error: Option<string>, outcome: FetchOutcome): (r: Option<string>)
    ensures ShapeReply(outcome).error.Some? ==> r == ShapeReply(outcome).error
    ensures ShapeReply(outcome).error.None? ==> r == error
  {
    var result := ShapeReply(outcome);
    if result.error.Some? then result.error else error
  }

  /** The hook's state. */
  class GeminiHook {
    var loading: bool
    var error: Option<string>

    constructor ()
      ensures !loading && error == None
    {
      loading := false;
      error := None;
    }

    /** The part of `requestGeminiMatch` before the request is awaited. */
    method Begin()
      modifies this
      ensures loading && error == None
    {
      loading := true;
      error := None;
    }

    /** The part of `requestGeminiMatch` after the request settles: shape the
        result, record its error, and clear `loading` on every path. */
    method Finish(outcome: FetchOutcome) returns (result: MatchResult)
      modifies this
      ensures result == ShapeReply(outcome)
      ensures !loading && error == ErrorAfter(old(error), outcome)
    {
      match outcome {
        case Threw(message) =>
          error := Some(message);
          result := MatchResult("", Some(message));
        case Responded(ok, body) =>
          if !ok {
            var message := if GeminiApi.Truthy(body.error) then body.error.value else RequestFailed;
            error := Some(message);
            result := MatchResult("", Some(message));
          } else {
            var m := if body.matchText.Some? then Trim(body.matchText.value) else "";
            result := MatchResult(m, None);
          }
      }
      loading := false;
    }

    /** A whole call with nothing else happening while it is awaited. */
    method RequestGeminiMatch(outcome: FetchOutcome) returns (result: MatchResult)
      modifies this
      ensures result == ShapeReply(outcome)
      ensures !loading && error == ShapeReply(outcome).error
    {
      Begin();
      result := Finish(outcome);
    }
  }

  /** How the hook sees the handler's response: `ok` is a 2xx status, and the body
      is the JSON the handler wrote. */
  function FromHandler(response: GeminiApi.Response): FetchOutcome {
    Responded(
      200 <= response.status < 300,
      match response.body
      case ErrorBody(e) => ReplyBody(Some(e), None)
      case MatchBody(m) => ReplyBody(None, Some(m)))
  }

  /** End to end: the hook reports a match exactly when the handler answered 200,
      the match is the handler's candidate unchanged, and every failure reaches the
      caller with the handler's own message. */
  lemma HandlerToHook(httpMethod: string, apiKey: Option<string>, payload: GeminiApi.Payload,
                      upstream: GeminiApi.Upstream)
    ensures var response := GeminiApi.Handle(httpMethod, apiKey, payload, upstream).response;
      var result := ShapeReply(FromHandler(response));
      && (result.error.None? <==> response.status == 200)
      && (response.status == 200 ==> result.matchText == response.body.matchText && result.matchText != "")
      && (response.status != 200 ==> result == MatchResult("", Some(response.body.error)))
  {
    var response := GeminiApi.Handle(httpMethod, apiKey, payload, upstream).response;
    GeminiApi.ResponseShape(httpMethod, apiKey, payload, upstream);
    if response.status == 200 {
      TrimOfTrimmed(response.body.matchText);
    }
  }
}
