/**
 * The serverless handler that forwards a page and a query to the Gemini model
 * and returns the passage it picks. Every path writes exactly one response,
 * so the handler is a function from the request, the deployment's API key and
 * what the upstream call produced to the response written (and the upstream
 * request made, if any).
 */
module GeminiApi {
  import opened Options
  import opened JsString

  /** The already-parsed request body, with only string fields represented: an
      absent or null field is `None`. */
  datatype Payload = Payload(pageText: Option<string>, query: Option<string>)

  /** The parts of the model's reply that the handler reads. */
  datatype Part = Part(text: Option<string>)
  datatype Content = Content(parts: Option<seq<Part>>)
  datatype Candidate = Candidate(content: Option<Content>)

  /** What the upstream call produced: it threw (the network failed or the body
      could not be read), or it answered with an HTTP status that is `ok` or
      not, with the error message or the candidates the answer carried. */
  datatype Upstream =
    | Threw(message: string)
    | Answered(ok: bool, errorMessage: Option<string>, candidates: Option<seq<Candidate>>)

  /** The JSON body written back: `{ error }` or `{ match }`. */
  datatype Body = ErrorBody(error: string) | MatchBody(matchText: string)
  datatype Response = Response(status: int, body: Body)

  datatype GenerationConfig = GenerationConfig(temperature: int, maxOutputTokens: nat, candidateCount: nat)

  /** The upstream request: the endpoint with the key, the single user prompt, and
      the generation settings. */
  datatype UpstreamRequest = UpstreamRequest(url: string, prompt: string, config: GenerationConfig)

  datatype Outcome = Outcome(response: Response, request: Option<UpstreamRequest>)

  /** JavaScript truthiness of a value that is a string or absent. */
  predicate Truthy(s: Option<string>) {
    s.Some? && s.value != ""
  }

  const MethodNotAllowed := "Method not allowed"
  const MissingKey := "Missing GEMINI_API_KEY environment variable"
  const FieldsRequired := "pageText and query are required"
  const UpstreamError := "Gemini API error"
  const EmptyReply := "Gemini returned an empty response"
  const RequestFailed := "Gemini request failed"

  const Config := GenerationConfig(0, 256, 1)

  /** `parts.join(sep)`. */
  function Join(sep: string, parts: seq<string>): string {
    if parts == [] then ""
    else if |parts| == 1 then parts[0]
    else parts[0] + sep + Join(sep, parts[1..])
  }

  const InstructionSentences := [
    "Return ONLY the exact substring found in pageText.",
    "Do NOT paraphrase.",
    "Do NOT summarize.",
    "Do NOT modify punctuation.",
    "Do NOT add markdown.",
    "Output must be copy-paste identical to the PDF text."]

  const Instruction := Join(" ", InstructionSentences)

  const PageTextOpening := "\n\npageText:\n\"\"\""
  const QueryOpening := "\"\"\"\n\nquery:\n\"\"\""
  const Closing := "\"\"\""

  /** The prompt template around a given instruction. */
  function PromptAround(instruction: string, pageText: string, query: string): string {
    instruction + PageTextOpening + pageText + QueryOpening + query + Closing
  }

  function Prompt(pageText: string, query: string): string {
    PromptAround(Instruction, pageText, query)
  }

  /** Where the page text starts in the prompt. */
  function PageTextOffset(): nat {
    |Instruction| + |PageTextOpening|
  }

  /** Where the query starts in a prompt built on `pageText`. */
  function QueryOffset(pageText: string): nat {
    PageTextOffset() + |pageText| + |QueryOpening|
  }

  /** Around any instruction, the template puts the instruction first and then
      the page text and the query, each at a fixed offset. */
  lemma PromptAroundLayout(instruction: string, pageText: string, query: string)
    ensures var p := PromptAround(instruction, pageText, query);
      var pageAt := |instruction| + |PageTextOpening|;
      var queryAt := pageAt + |pageText| + |QueryOpening|;
      && |p| == queryAt + |query| + |Closing|
      && p[..|instruction|] == instruction
      && p[pageAt..pageAt + |pageText|] == pageText
      && p[queryAt..queryAt + |query|] == query
      && p[queryAt + |query|..] == Closing
  {
    var p := PromptAround(instruction, pageText, query);
    var head := instruction + PageTextOpening;
    var tail := QueryOpening + query + Closing;
    assert p == head + (pageText + tail);
    assert p[..|instruction|] == instruction;
    assert p[|head|..][..|pageText|] == pageText;
    var rest := p[|head| + |pageText| + |QueryOpening|..];
    assert rest == query + Closing;
    assert rest[..|query|] == query;
  }

  /** The prompt is the instruction followed by the page text and the query,
      each at a fixed offset and fenced by triple quotes. */
  lemma PromptLayout(pageText: string, query: string)
    ensures var p := Prompt(pageText, query);
      && |p| == QueryOffset(pageText) + |query| + |Closing|
      && p[..|Instruction|] == Instruction
      && p[PageTextOffset()..PageTextOffset() + |pageText|] == pageText
      && p[QueryOffset(pageText)..QueryOffset(pageText) + |query|] == query
      && p[QueryOffset(pageText) + |query|..] == Closing
  {
    PromptAroundLayout(Instruction, pageText, query);
  }

  /** Two prompts over page texts of the same length coincide only on equal page
      texts and queries: the prompt loses nothing. */
  lemma PromptDeterminesInputs(p1: string, q1: string, p2: string, q2: string)
    requires |p1| == |p2| && Prompt(p1, q1) == Prompt(p2, q2)
    ensures p1 == p2 && q1 == q2
  {
    PromptLayout(p1, q1);
    PromptLayout(p2, q2);
  }

  /** `parts.map(part => part.text || '').join('')`. */
  function PartsText(parts: seq<Part>): string {
    if parts == [] then "" else parts[0].text.GetOr("") + PartsText(parts[1..])
  }

  lemma {:induction false} PartsTextAppend(a: seq<Part>, b: seq<Part>)
    ensures PartsText(a + b) == PartsText(a) + PartsText(b)
  {
    if a == [] {
      assert a + b == b;
    } else {
      assert (a + b)[1..] == a[1..] + b;
      PartsTextAppend(a[1..], b);
    }
  }

  /** The parts of the first candidate, when the reply has them. */
  function FirstParts(candidates: Option<seq<Candidate>>): Option<seq<Part>> {
    if candidates.Some? && |candidates.value| > 0 && candidates.value[0].content.Some?
    then candidates.value[0].content.value.parts
    else None
  }

  /** The first candidate's part texts joined and trimmed, or `''` when the reply
      has no first candidate with parts. */
  function CandidateText(candidates: Option<seq<Candidate>>): (r: string)
    ensures IsTrimmed(r)
    ensures FirstParts(candidates).None? ==> r == ""
    ensures FirstParts(candidates).Some? ==> r == Trim(PartsText(FirstParts(candidates).value))
  {
    var parts := FirstParts(candidates);
    if parts.None? then "" else
      TrimSpec(PartsText(parts.value));
      Trim(PartsText(parts.value))
  }

  /** `error.message || 'Gemini request failed'` in the handler's catch. */
  function CaughtMessage(message: string): (r: string)
    ensures r != ""
    ensures message != "" ==> r == message
  {
    if message != "" then message else RequestFailed
  }

  /** The response once the upstream call is made: any failure is a 500 carrying
      an error message, and only a non-empty candidate is a 200. */
  function UpstreamResponse(upstream: Upstream): (r: Response)
    ensures r.status == 200 || r.status == 500
    ensures r.status == 200 <==> upstream.Answered? && upstream.ok && CandidateText(upstream.candidates) != ""
    ensures r.status == 200 ==> r.body == MatchBody(CandidateText(upstream.candidates))
    ensures r.status == 500 ==> r.body.ErrorBody? && r.body.error != ""
    ensures upstream.Answered? && !upstream.ok ==>
      r.body == ErrorBody(if Truthy(upstream.errorMessage) then upstream.errorMessage.value else UpstreamError)
    ensures upstream.Threw? ==> r.body == ErrorBody(CaughtMessage(upstream.message))
    ensures upstream.Answered? && upstream.ok && CandidateText(upstream.candidates) == "" ==>
      r == Response(500, ErrorBody(EmptyReply))
  {
    match upstream
    case Threw(message) => Response(500, ErrorBody(CaughtMessage(message)))
    case Answered(ok, errorMessage, candidates) =>
      if !ok then
        Response(500, ErrorBody(CaughtMessage(if Truthy(errorMessage) then errorMessage.value else UpstreamError)))
      else
        var candidate := CandidateText(candidates);
        if candidate == "" then Response(500, ErrorBody(CaughtMessage(EmptyReply)))
        else Response(200, MatchBody(candidate))
  }

  /** The endpoint of the model, with the key as a query parameter. */
  function Endpoint(apiKey: string): string {
    "https://generativelanguage.googleapis.com/v1beta/models/gemini-2.5-flash:generateContent?key=" + apiKey
  }

  /** `handler`: the checks in order (method, key, body fields), then the
      upstream call with the composed prompt. */
  function Handle(httpMethod: string, apiKey: Option<string>, payload: Payload, upstream: Upstream): (r: Outcome)
    ensures httpMethod != "POST" ==> r == Outcome(Response(405, ErrorBody(MethodNotAllowed)), None)
    ensures httpMethod == "POST" && !Truthy(apiKey) ==> r == Outcome(Response(500, ErrorBody(MissingKey)), None)
    ensures httpMethod == "POST" && Truthy(apiKey) && !(Truthy(payload.pageText) && Truthy(payload.query)) ==>
      r == Outcome(Response(400, ErrorBody(FieldsRequired)), None)
    ensures r.request.Some? <==>
      httpMethod == "POST" && Truthy(apiKey) && Truthy(payload.pageText) && Truthy(payload.query)
    ensures r.request.Some? ==>
      && r.request.value.prompt == Prompt(payload.pageText.value, payload.query.value)
      && r.request.value.url == Endpoint(apiKey.value)
      && r.request.value.config == Config
      && r.response == UpstreamResponse(upstream)
  {
    if httpMethod != "POST" then Outcome(Response(405, ErrorBody(MethodNotAllowed)), None)
    else if !Truthy(apiKey) then Outcome(Response(500, ErrorBody(MissingKey)), None)
    else if !Truthy(payload.pageText) || !Truthy(payload.query) then
      Outcome(Response(400, ErrorBody(FieldsRequired)), None)
    else
      var prompt := Prompt(payload.pageText.value, payload.query.value);
      Outcome(UpstreamResponse(upstream), Some(UpstreamRequest(Endpoint(apiKey.value), prompt, Config)))
  }

  /** Every response is one of four statuses; a 200 always carries a non-empty,
      trimmed match, and every other status an error message. */
  lemma ResponseShape(httpMethod: string, apiKey: Option<string>, payload: Payload, upstream: Upstream)
    ensures var r := Handle(httpMethod, apiKey, payload, upstream).response;
      && r.status in {200, 400, 405, 500}
      && (r.status == 200 ==> r.body.MatchBody? && r.body.matchText != "" && IsTrimmed(r.body.matchText))
      && (r.status != 200 ==> r.body.ErrorBody? && r.body.error != "")
  {
  }

  /** The method check comes first: a non-POST request is refused whatever the key,
      the body or the model would have said. */
  lemma MethodCheckedFirst(httpMethod: string, apiKey1: Option<string>, payload1: Payload, upstream1: Upstream,
                           apiKey2: Option<string>, payload2: Payload, upstream2: Upstream)
    requires httpMethod != "POST"
    ensures Handle(httpMethod, apiKey1, payload1, upstream1) == Handle(httpMethod, apiKey2, payload2, upstream2)
  {
  }

  /** The key check comes before the body check: without a key the body is never
      looked at. */
  lemma KeyCheckedBeforeBody(apiKey: Option<string>, payload1: Payload, upstream1: Upstream,
                             payload2: Payload, upstream2: Upstream)
    requires !Truthy(apiKey)
    ensures Handle("POST", apiKey, payload1, upstream1) == Handle("POST", apiKey, payload2, upstream2)
    ensures Handle("POST", apiKey, payload1, upstream1).response.status == 500
  {
  }

  /** A reply whose parts are all blank is an empty response, not a match. */
  lemma BlankPartsAreEmptyReply(candidates: seq<Candidate>)
    requires FirstParts(Some(candidates)).Some?
    requires forall i :: 0 <= i < |PartsText(FirstParts(Some(candidates)).value)| ==>
      IsSpace(PartsText(FirstParts(Some(candidates)).value)[i])
    ensures UpstreamResponse(Answered(true, None, Some(candidates))) == Response(500, ErrorBody(EmptyReply))
  {
    TrimEmptyIffBlank(PartsText(FirstParts(Some(candidates)).value));
  }
}
