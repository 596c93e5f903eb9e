/**
 * The match orchestrator of the application component: selecting a reference
 * starts a match request, the local fuzzy match may settle it at once, and
 * otherwise a remote call is awaited whose answer is used only while the
 * request is still the latest one. A highlight effect then marks the passage
 * in the page's text layer.
 *
 * Concurrency is replaced by an explicit interleaving of events: each event
 * runs the synchronous code it triggers to completion, and a request awaiting
 * the remote call is an entry of `flights` until its completion event.
 */
module MatchOrchestrator {
  import opened Options
  import opened JsString
  import opened FuzzyMatch
  import Highlight
  import PdfText
  import UseGemini

  /** One evidence reference of the analysis panel. */
  datatype Reference = Reference(id: string, referenceId: string, page: int, query: string)

  /** What the highlight effect should mark: `text`, or `fallbackText` if that
      fails. */
  datatype Pending = Pending(pageNumber: int, text: string, fallbackText: Option<string>, referenceLabel: string)

  /** The status line, one constructor per message the component shows. */
  datatype Status =
    | LoadingPdf
    | LoadFailed
    | SelectPrompt
    | Matching(referenceId: string, page: int)
    | PageNotReady
    | FuzzySucceeded(score: real, referenceId: string)
    | Inconclusive(referenceId: string)
    | AlgorithmicFallback(reason: string, score: real)
    | CouldNotLocate(referenceId: string)
    | GeminiLocated(referenceId: string)
    | Highlighted(referenceLabel: string, pageNumber: int)
    | HighlightFailed(referenceLabel: string)
    | GeminiError(message: string)

  /** The arguments of the remote call. */
  datatype RemoteCall = RemoteCall(pageNumber: int, pageText: string, query: string)

  /** A request awaiting its remote call, with what its continuation captured. */
  datatype Flight = Flight(requestId: nat, reference: Reference, fuzzy: Option<MatchCandidate>, call: RemoteCall)

  /** The component's state, the hook's state and the awaiting requests. */
  datatype Session = Session(
    pages: seq<PdfText.PageText>,
    status: Status,
    activeReferenceId: Option<string>,
    pending: Option<Pending>,
    layerVersion: nat,
    matchRequest: nat,
    loading: bool,
    geminiError: Option<string>,
    flights: seq<Flight>)

  const Initial := Session([], LoadingPdf, None, None, 0, 0, false, None, [])

  /** How much page text the remote call receives. */
  const RemotePageLimit := 6000

  const GeminiUnavailable := "Gemini unavailable"

  /** JavaScript truthiness of a value that is a string or absent. */
  predicate Truthy(s: Option<string>) {
    s.Some? && s.value != ""
  }

  /** `s.slice(0, n)`. */
  function Truncate(s: string, n: nat): (r: string)
    ensures |r| == Min(|s|, n) && r == s[..|r|]
  {
    if |s| <= n then s else s[..n]
  }

  /** `s.charAt(0).toUpperCase() + s.slice(1)`, for ASCII. */
  function UpperFirst(s: string): (r: string)
    ensures |r| == |s|
    ensures s != [] ==> r[0] == UpperChar(s[0]) && r[1..] == s[1..]
  {
    if s == [] then [] else [UpperChar(s[0])] + s[1..]
  }

  /** The reason quoted when the remote call gave nothing. */
  function Reason(error: Option<string>): string {
    if Truthy(error) then UpperFirst(error.value) else GeminiUnavailable
  }

  /** The position of the first page numbered `n`, or `|pages|`. */
  function FindPageIndex(pages: seq<PdfText.PageText>, n: int): (k: nat)
    ensures k <= |pages|
    ensures forall j :: 0 <= j < k ==> pages[j].pageNumber != n
    ensures k < |pages| ==> pages[k].pageNumber == n
  {
    if pages == [] || pages[0].pageNumber == n then 0 else 1 + FindPageIndex(pages[1..], n)
  }

  /** `pages.find(page => page.pageNumber === n)`. */
  function FindPage(pages: seq<PdfText.PageText>, n: int): Option<PdfText.PageText> {
    var k := FindPageIndex(pages, n);
    if k < |pages| then Some(pages[k]) else None
  }

  /** On the extracted pages, page `n` is found exactly when it is in range, and
      it is entry `n - 1`. */
  lemma FindExtractedPage(pages: seq<PdfText.PageText>, n: int)
    requires PdfText.Numbered(pages)
    ensures FindPage(pages, n).Some? <==> 1 <= n <= |pages|
    ensures FindPage(pages, n).Some? ==> FindPage(pages, n).value == pages[n - 1]
  {
    var k := FindPageIndex(pages, n);
    if 1 <= n <= |pages| {
      assert pages[n - 1].pageNumber == n;
    }
  }

  /** The local matcher the session is run with; the component uses
      `BestFuzzyMatch` under its similarity (see `App.LocalMatcher`). */
  type Matcher = (string, string) -> Option<MatchCandidate>

  /** The local match settles the request: a score of at least the threshold and
      a non-empty substring. */
  predicate LocalAccepts(fuzzy: Option<MatchCandidate>) {
    fuzzy.Some? && fuzzy.value.score >= MatchThreshold && fuzzy.value.substring != ""
  }

  /** The part of `runHybridMatch` that runs before the remote call is awaited. */
  function Dispatch(s: Session, matcher: Matcher, r: Reference, requestId: nat): (t: Session)
    ensures t.pages == s.pages && t.matchRequest == s.matchRequest && t.activeReferenceId == s.activeReferenceId
    ensures t.layerVersion == s.layerVersion
  {
    var pageData := FindPage(s.pages, r.page);
    if pageData.None? || s.matchRequest != requestId then s.(status := PageNotReady)
    else
      var fuzzy := matcher(r.query, pageData.value.text);
      if s.matchRequest == requestId && LocalAccepts(fuzzy) then
        s.(pending := Some(Pending(r.page, fuzzy.value.substring, None, r.referenceId)),
           status := FuzzySucceeded(fuzzy.value.score, r.referenceId))
      else
        var s1 := if s.matchRequest == requestId then s.(status := Inconclusive(r.referenceId)) else s;
        var call := RemoteCall(r.page, Truncate(pageData.value.text, RemotePageLimit), r.query);
        s1.(loading := true, geminiError := None,
            flights := s1.flights + [Flight(requestId, r, fuzzy, call)])
  }

  /** `handleReferenceSelect`: a new request id, then `runHybridMatch` with it. */
  function SelectStep(s: Session, matcher: Matcher, reference: Option<Reference>): (t: Session)
    ensures reference.None? ==> t == s
    ensures reference.Some? ==> t.matchRequest == s.matchRequest + 1
    ensures reference.Some? ==> t.activeReferenceId == Some(reference.value.id)
  {
    if reference.None? then s
    else
      var r := reference.value;
      var requestId := s.matchRequest + 1;
      var s1 := s.(activeReferenceId := Some(r.id), matchRequest := requestId,
                   status := Matching(r.referenceId, r.page));
      Dispatch(s1, matcher, r, requestId)
  }

  /** `flights` without entry `k`. */
  function Without(flights: seq<Flight>, k: nat): (r: seq<Flight>)
    requires k < |flights|
    ensures |r| == |flights| - 1
    ensures forall i :: 0 <= i < k ==> r[i] == flights[i]
    ensures forall i :: k <= i < |r| ==> r[i] == flights[i + 1]
  {
    flights[..k] + flights[k + 1..]
  }

  /** The continuation of awaiting request `k` once its remote call settles with
      `outcome`: the hook records the outcome, and only a request that is still
      the latest one changes what is shown. */
  function CompleteStep(s: Session, k: nat, outcome: UseGemini.FetchOutcome): (t: Session)
    requires k < |s.flights|
    ensures t.pages == s.pages && t.matchRequest == s.matchRequest && t.activeReferenceId == s.activeReferenceId
    ensures t.layerVersion == s.layerVersion
    ensures !t.loading && t.geminiError == UseGemini.ErrorAfter(s.geminiError, outcome)
    ensures t.flights == Without(s.flights, k)
  {
    var f := s.flights[k];
    var result := UseGemini.ShapeReply(outcome);
    var s1 := s.(loading := false, geminiError := UseGemini.ErrorAfter(s.geminiError, outcome),
                 flights := Without(s.flights, k));
    if s.matchRequest != f.requestId then s1
    else if result.matchText == "" then
      if f.fuzzy.Some? && f.fuzzy.value.substring != "" then
        s1.(pending := Some(Pending(f.reference.page, f.fuzzy.value.substring, None, f.reference.referenceId)),
            status := AlgorithmicFallback(Reason(result.error), f.fuzzy.value.score))
      else s1.(status := CouldNotLocate(f.reference.referenceId))
    else
      s1.(pending := Some(Pending(f.reference.page, result.matchText,
                                  if f.fuzzy.Some? then Some(f.fuzzy.value.substring) else None,
                                  f.reference.referenceId)),
          status := GeminiLocated(f.reference.referenceId))
  }

  /** The effect that surfaces the hook's error in the status line. */
  function ErrorEffectStep(s: Session): (t: Session)
    ensures t == s.(status := t.status)
    ensures Truthy(s.geminiError) ==> t.status == GeminiError(s.geminiError.value)
    ensures !Truthy(s.geminiError) ==> t == s
  {
    if Truthy(s.geminiError) then s.(status := GeminiError(s.geminiError.value)) else s
  }

  /** `handleTextLayerReady`: a registered container bumps the layer version. */
  function LayerReadyStep(s: Session, present: bool): (t: Session)
    ensures t.layerVersion == if present then s.layerVersion + 1 else s.layerVersion
    ensures t == s.(layerVersion := t.layerVersion)
  {
    if present then s.(layerVersion := s.layerVersion + 1) else s
  }

  /** The texts the highlight effect passes to `highlightExactText`, in order: the
      primary text, and the fallback only when the primary finds nothing and the
      fallback is present and different. */
  function HighlightAttempts(p: Pending, meta: Option<Highlight.Meta>): (tried: seq<string>)
    ensures 1 <= |tried| <= 2 && tried[0] == p.text
    ensures |tried| == 2 <==>
      Highlight.Locate(meta, p.text).None? && Truthy(p.fallbackText) && p.fallbackText.value != p.text
    ensures |tried| == 2 ==> tried[1] == p.fallbackText.value && tried[1] != tried[0]
  {
    if Highlight.Locate(meta, p.text).None? && Truthy(p.fallbackText) && p.fallbackText.value != p.text
    then [p.text, p.fallbackText.value]
    else [p.text]
  }

  /** Whether the last attempt found its text. */
  function HighlightSucceeds(p: Pending, meta: Option<Highlight.Meta>): bool {
    var tried := HighlightAttempts(p, meta);
    Highlight.Locate(meta, tried[|tried| - 1]).Some?
  }

  /** The effect succeeds exactly when the primary text or the fallback (when it is
      tried) occurs in the layer's text. */
  lemma HighlightSucceedsIff(p: Pending, meta: Option<Highlight.Meta>)
    ensures HighlightSucceeds(p, meta) <==>
      || Highlight.Locate(meta, p.text).Some?
      || (Truthy(p.fallbackText) && p.fallbackText.value != p.text
          && Highlight.Locate(meta, p.fallbackText.value).Some?)
  {
  }

  /** The `pendingHighlight` effect, given the metadata of the registered
      container of the page (`None` when no container is registered). */
  function HighlightEffectStep(s: Session, layer: Option<Option<Highlight.Meta>>): (t: Session)
    ensures t == s.(status := t.status)
    ensures s.pending.None? || layer.None? ==> t == s
    ensures s.pending.Some? && layer.Some? ==>
      && (t.status.Highlighted? <==> HighlightSucceeds(s.pending.value, layer.value))
      && (t.status.Highlighted? ==>
            t.status == Highlighted(s.pending.value.referenceLabel, s.pending.value.pageNumber))
      && (!t.status.Highlighted? ==> t.status == HighlightFailed(s.pending.value.referenceLabel))
  {
    if s.pending.None? || layer.None? then s
    else
      var p := s.pending.value;
      s.(status := if HighlightSucceeds(p, layer.value) then Highlighted(p.referenceLabel, p.pageNumber)
                   else HighlightFailed(p.referenceLabel))
  }

  /** The loading effect once the document settles: its pages and the prompt to
      select, or the failure message. */
  function LoadStep(s: Session, doc: Option<PdfText.PdfDocument>): (t: Session)
    ensures t == s.(pages := t.pages, status := t.status)
    ensures doc.None? ==> t.pages == s.pages && t.status == LoadFailed
    ensures doc.Some? ==> && t.status == SelectPrompt
                          && |t.pages| == doc.value.numPages && PdfText.Numbered(t.pages)
                          && forall i :: 0 <= i < |t.pages| ==>
                               t.pages[i].text == PdfText.TextContentToString(doc.value.pageItems(i + 1))
  {
    if doc.None? then s.(status := LoadFailed)
    else s.(pages := PdfText.ExtractedPages(doc), status := SelectPrompt)
  }

  /** The events the component reacts to. */
  datatype Event =
    | Loaded(doc: Option<PdfText.PdfDocument>)
    | Select(reference: Option<Reference>)
    | Complete(index: nat, outcome: UseGemini.FetchOutcome)
    | ErrorEffect
    | LayerReady(pageNumber: int, present: bool)
    | HighlightEffect(layer: Option<Option<Highlight.Meta>>)

  /** One event; a completion of a request that is not awaiting changes nothing. */
  function Step(s: Session, matcher: Matcher, e: Event): Session {
    match e
    case Loaded(doc) => LoadStep(s, doc)
    case Select(reference) => SelectStep(s, matcher, reference)
    case Complete(k, outcome) => if k < |s.flights| then CompleteStep(s, k, outcome) else s
    case ErrorEffect => ErrorEffectStep(s)
    case LayerReady(_, present) => LayerReadyStep(s, present)
    case HighlightEffect(layer) => HighlightEffectStep(s, layer)
  }

  /** A sequence of events, in order. */
  function Run(s: Session, matcher: Matcher, events: seq<Event>): Session
    decreases |events|
  {
    if events == [] then s else Run(Step(s, matcher, events[0]), matcher, events[1..])
  }

  /** Awaiting requests were issued in increasing order and none is newer than the
      counter; a pending highlight always has text; no remote call gets more page
      text than the limit. */
  predicate Inv(s: Session) {
    && (forall i :: 0 <= i < |s.flights| ==> s.flights[i].requestId <= s.matchRequest)
    && (forall i, j :: 0 <= i < j < |s.flights| ==> s.flights[i].requestId < s.flights[j].requestId)
    && (s.pending.Some? ==> s.pending.value.text != "")
    && (forall i :: 0 <= i < |s.flights| ==> |s.flights[i].call.pageText| <= RemotePageLimit)
  }

  lemma InitialInv()
    ensures Inv(Initial)
  {
  }

  /** Appending a request newer than every awaiting one, and not newer than the
      counter, keeps the invariant. */
  lemma EnqueueKeepsInv(s: Session, f: Flight)
    requires Inv(s) && f.requestId <= s.matchRequest && |f.call.pageText| <= RemotePageLimit
    requires forall i :: 0 <= i < |s.flights| ==> s.flights[i].requestId < f.requestId
    ensures Inv(s.(flights := s.flights + [f]))
  {
    var fs := s.flights + [f];
    forall i, j | 0 <= i < j < |fs|
      ensures fs[i].requestId < fs[j].requestId
    {
      if j == |s.flights| {
        assert fs[i] == s.flights[i];
      } else {
        assert fs[i] == s.flights[i] && fs[j] == s.flights[j];
      }
    }
  }

  /** A selection keeps the invariant. */
  lemma SelectKeepsInv(s: Session, matcher: Matcher, reference: Option<Reference>)
    requires Inv(s)
    ensures Inv(SelectStep(s, matcher, reference))
  {
    if reference.Some? {
      var r := reference.value;
      var s1 := s.(activeReferenceId := Some(r.id), matchRequest := s.matchRequest + 1,
                   status := Matching(r.referenceId, r.page));
      assert Inv(s1);
      var pageData := FindPage(s1.pages, r.page);
      if pageData.Some? && !LocalAccepts(matcher(r.query, pageData.value.text)) {
        var s2 := s1.(status := Inconclusive(r.referenceId), loading := true, geminiError := None);
        var f := Flight(s1.matchRequest, r, matcher(r.query, pageData.value.text),
                        RemoteCall(r.page, Truncate(pageData.value.text, RemotePageLimit), r.query));
        EnqueueKeepsInv(s2, f);
      }
    }
  }

  /** Removing an awaiting request keeps the invariant. */
  lemma WithoutKeepsOrder(s: Session, k: nat)
    requires Inv(s) && k < |s.flights|
    ensures Inv(s.(flights := Without(s.flights, k)))
  {
    var fs := Without(s.flights, k);
    forall i, j | 0 <= i < j < |fs|
      ensures fs[i].requestId < fs[j].requestId
    {
      var i' := if i < k then i else i + 1;
      var j' := if j < k then j else j + 1;
      assert fs[i] == s.flights[i'] && fs[j] == s.flights[j'];
    }
  }

  /** A completion keeps the invariant. */
  lemma CompleteKeepsInv(s: Session, k: nat, outcome: UseGemini.FetchOutcome)
    requires Inv(s) && k < |s.flights|
    ensures Inv(CompleteStep(s, k, outcome))
  {
    WithoutKeepsOrder(s, k);
  }

  /** Every event keeps the invariant. */
  lemma StepKeepsInv(s: Session, matcher: Matcher, e: Event)
    requires Inv(s)
    ensures Inv(Step(s, matcher, e))
  {
    match e
    case Select(reference) => SelectKeepsInv(s, matcher, reference);
    case Complete(k, outcome) =>
      if k < |s.flights| {
        CompleteKeepsInv(s, k, outcome);
      }
    case _ =>
  }

  /** Every run of events keeps the invariant. */
  lemma {:induction false} RunKeepsInv(s: Session, matcher: Matcher, events: seq<Event>)
    requires Inv(s)
    ensures Inv(Run(s, matcher, events))
    decreases |events|
  {
    if events != [] {
      StepKeepsInv(s, matcher, events[0]);
      RunKeepsInv(Step(s, matcher, events[0]), matcher, events[1..]);
    }
  }

  /** Whether `e` selects a reference. */
  predicate IsSelection(e: Event) {
    e.Select? && e.reference.Some?
  }

  /** The number of selections of a reference among `events`. */
  function Selections(events: seq<Event>): nat {
    if events == [] then 0
    else (if IsSelection(events[0]) then 1 else 0) + Selections(events[1..])
  }

  /** Only a selection moves the request counter, by one. */
  lemma StepCounter(s: Session, matcher: Matcher, e: Event)
    ensures Step(s, matcher, e).matchRequest == s.matchRequest + if IsSelection(e) then 1 else 0
  {
  }

  /** The request counter counts the selections and nothing else. */
  lemma {:induction false} CounterCountsSelections(s: Session, matcher: Matcher, events: seq<Event>)
    ensures Run(s, matcher, events).matchRequest == s.matchRequest + Selections(events)
    decreases |events|
  {
    if events != [] {
      StepCounter(s, matcher, events[0]);
      CounterCountsSelections(Step(s, matcher, events[0]), matcher, events[1..]);
    }
  }

  /** A selection makes every request that was awaiting stale: the new id is
      larger than all of theirs. */
  lemma SelectMakesEarlierStale(s: Session, matcher: Matcher, r: Reference)
    requires Inv(s)
    ensures var t := SelectStep(s, matcher, Some(r));
      forall i :: 0 <= i < |s.flights| ==> s.flights[i].requestId < t.matchRequest
  {
  }

  /** Every awaiting request but the last is stale, so only the most recent one
      can still change what is shown. */
  lemma OnlyLastCanBeLive(s: Session)
    requires Inv(s)
    ensures forall i :: 0 <= i < |s.flights| - 1 ==> s.flights[i].requestId < s.matchRequest
  {
    forall i | 0 <= i < |s.flights| - 1
      ensures s.flights[i].requestId < s.matchRequest
    {
      assert s.flights[i].requestId < s.flights[|s.flights| - 1].requestId;
    }
  }

  /** A stale completion changes nothing that is shown: only the hook's flags and
      the awaiting list move. */
  lemma StaleCompletionIsInert(s: Session, k: nat, outcome: UseGemini.FetchOutcome)
    requires k < |s.flights| && s.flights[k].requestId != s.matchRequest
    ensures var t := CompleteStep(s, k, outcome);
      t == s.(loading := false, geminiError := UseGemini.ErrorAfter(s.geminiError, outcome),
              flights := Without(s.flights, k))
  {
  }

  /** A selection on a page whose text is not loaded only says so. */
  lemma MissingPageIsNotReady(s: Session, matcher: Matcher, r: Reference)
    requires FindPage(s.pages, r.page).None?
    ensures var t := SelectStep(s, matcher, Some(r));
      t == s.(activeReferenceId := Some(r.id), matchRequest := s.matchRequest + 1, status := PageNotReady)
  {
  }

  /** A confident local match is highlighted at once, without a fallback, and no
      remote call is made. */
  lemma ConfidentLocalMatchSkipsRemote(s: Session, matcher: Matcher, r: Reference)
    requires FindPage(s.pages, r.page).Some?
    requires LocalAccepts(matcher(r.query, FindPage(s.pages, r.page).value.text))
    ensures var t := SelectStep(s, matcher, Some(r));
      var fuzzy := matcher(r.query, FindPage(s.pages, r.page).value.text).value;
      && t.flights == s.flights
      && t.loading == s.loading && t.geminiError == s.geminiError
      && t.pending == Some(Pending(r.page, fuzzy.substring, None, r.referenceId))
      && t.status == FuzzySucceeded(fuzzy.score, r.referenceId)
  {
  }

  /** Otherwise the request awaits the remote call, which receives the first 6000
      characters of the page text, the query and the page number. */
  lemma InconclusiveMatchCallsRemote(s: Session, matcher: Matcher, r: Reference)
    requires FindPage(s.pages, r.page).Some?
    requires !LocalAccepts(matcher(r.query, FindPage(s.pages, r.page).value.text))
    ensures var t := SelectStep(s, matcher, Some(r));
      var text := FindPage(s.pages, r.page).value.text;
      && |t.flights| == |s.flights| + 1
      && t.flights[..|s.flights|] == s.flights
      && t.flights[|s.flights|].requestId == t.matchRequest
      && t.flights[|s.flights|].call == RemoteCall(r.page, text[..Min(|text|, RemotePageLimit)], r.query)
      && t.status == Inconclusive(r.referenceId)
      && t.pending == s.pending
      && t.loading && t.geminiError == None
  {
    var t := SelectStep(s, matcher, Some(r));
    assert t.flights[..|s.flights|] == s.flights;
  }

  /** The latest request whose remote call gives nothing falls back to the local
      substring when there is one, without a second fallback; otherwise it only
      reports that nothing was located. */
  lemma EmptyRemoteAnswer(s: Session, k: nat, outcome: UseGemini.FetchOutcome)
    requires k < |s.flights| && s.flights[k].requestId == s.matchRequest
    requires UseGemini.ShapeReply(outcome).matchText == ""
    ensures var t := CompleteStep(s, k, outcome);
      var f := s.flights[k];
      && (f.fuzzy.Some? && f.fuzzy.value.substring != "" ==>
            && t.pending == Some(Pending(f.reference.page, f.fuzzy.value.substring, None, f.reference.referenceId))
            && t.status == AlgorithmicFallback(Reason(UseGemini.ShapeReply(outcome).error), f.fuzzy.value.score))
      && (!(f.fuzzy.Some? && f.fuzzy.value.substring != "") ==>
            t.pending == s.pending && t.status == CouldNotLocate(f.reference.referenceId))
  {
  }

  /** The latest request whose remote call gives a passage highlights it, with the
      local substring as the fallback. */
  lemma RemoteAnswerIsPrimary(s: Session, k: nat, outcome: UseGemini.FetchOutcome)
    requires k < |s.flights| && s.flights[k].requestId == s.matchRequest
    requires UseGemini.ShapeReply(outcome).matchText != ""
    ensures var t := CompleteStep(s, k, outcome);
      var f := s.flights[k];
      && t.pending.Some?
      && t.pending.value.text == UseGemini.ShapeReply(outcome).matchText
      && t.pending.value.fallbackText == (if f.fuzzy.Some? then Some(f.fuzzy.value.substring) else None)
      && t.status == GeminiLocated(f.reference.referenceId)
  {
  }

  /** The two attempts of the `pendingHighlight` effect on one container: the
      primary text, then the fallback when it is tried. */
  method TryHighlight(layer: Highlight.TextLayer, p: Pending) returns (tried: seq<string>, success: bool)
    requires layer.Valid()
    modifies layer.Footprint()
    ensures tried == HighlightAttempts(p, layer.meta)
    ensures success == HighlightSucceeds(p, layer.meta)
    ensures var last := Highlight.Locate(layer.meta, tried[|tried| - 1]);
      && (last.None? ==> forall f :: f in layer.Footprint() ==> f.State() == old(f.State()))
      && (last.Some? ==>
            var m := layer.meta.value;
            forall f :: f in layer.Footprint() ==>
              f.State() == Highlight.MarkedBy(m.ranges, |m.ranges|, last.value.start, last.value.end, f,
                                              if f in layer.nodes then Highlight.Cleared(old(f.State()))
                                              else old(f.State())))
    ensures success && layer.Coherent() ==>
      var m, found := layer.meta.value, Highlight.Locate(layer.meta, tried[|tried| - 1]).value;
      forall k :: 0 <= k < |m.ranges| ==>
        (m.ranges[k].div.marked <==> Highlight.Overlaps(m.ranges[k], found.start, found.end))
  {
    var anchor;
    success, anchor := Highlight.HighlightExactText(layer, p.text);
    tried := [p.text];
    if !success && Truthy(p.fallbackText) && p.fallbackText.value != p.text {
      success, anchor := Highlight.HighlightExactText(layer, p.fallbackText.value);
      tried := tried + [p.fallbackText.value];
    }
  }

  /** The component. */
  class App {
    const compare: Similarity
    const hook: UseGemini.GeminiHook
    var pdfPages: seq<PdfText.PageText>
    var status: Status
    var activeReferenceId: Option<string>
    var pendingHighlight: Option<Pending>
    var pageLayerVersion: nat
    var pageContainers: map<int, Highlight.TextLayer>
    var matchRequest: nat
    var awaiting: seq<Flight>

    constructor (compare: Similarity)
      ensures this.compare == compare && Snapshot() == Initial && pageContainers == map[]
      ensures Valid()
    {
      this.compare := compare;
      hook := new UseGemini.GeminiHook();
      pdfPages := [];
      status := LoadingPdf;
      activeReferenceId := None;
      pendingHighlight := None;
      pageLayerVersion := 0;
      pageContainers := map[];
      matchRequest := 0;
      awaiting := [];
    }

    /** The local matcher: `findBestFuzzyMatch` under the similarity measure. */
    function LocalMatcher(): Matcher {
      (query, pageText) => BestFuzzyMatch(compare, query, pageText)
    }

    function Snapshot(): Session
      reads this, hook
    {
      Session(pdfPages, status, activeReferenceId, pendingHighlight, pageLayerVersion, matchRequest,
              hook.loading, hook.error, awaiting)
    }

    /** Every registered container is a well-formed text layer. */
    predicate Valid()
      reads this, pageContainers.Values
    {
      forall p :: p in pageContainers ==> pageContainers[p].Valid()
    }

    /** The loading effect, once the document has loaded (`Some`) or failed
        (`None`). */
    method LoadPdf(doc: Option<PdfText.PdfDocument>)
      modifies this
      ensures Snapshot() == LoadStep(old(Snapshot()), doc)
      ensures pageContainers == old(pageContainers)
    {
      if doc.None? {
        status := LoadFailed;
        return;
      }
      var pages := PdfText.ExtractPdfText(doc);
      pdfPages := pages;
      status := SelectPrompt;
    }

    /** `runHybridMatch` up to the awaited remote call. */
    method RunHybridMatch(r: Reference, requestId: nat)
      modifies this, hook
      ensures Snapshot() == Dispatch(old(Snapshot()), LocalMatcher(), r, requestId)
      ensures pageContainers == old(pageContainers)
    {
      var pageData := FindPage(pdfPages, r.page);
      if pageData.None? || matchRequest != requestId {
        status := PageNotReady;
        return;
      }
      var fuzzyResult := FindBestFuzzyMatch(compare, r.query, pageData.value.text);
      assert fuzzyResult == LocalMatcher()(r.query, pageData.value.text);
      if matchRequest == requestId && LocalAccepts(fuzzyResult) {
        pendingHighlight := Some(Pending(r.page, fuzzyResult.value.substring, None, r.referenceId));
        status := FuzzySucceeded(fuzzyResult.value.score, r.referenceId);
        return;
      }
      if matchRequest == requestId {
        status := Inconclusive(r.referenceId);
      }
      var sanitizedPageText := Truncate(pageData.value.text, RemotePageLimit);
      hook.Begin();
      awaiting := awaiting + [Flight(requestId, r, fuzzyResult, RemoteCall(r.page, sanitizedPageText, r.query))];
    }

    /** `handleReferenceSelect`. */
    method HandleReferenceSelect(reference: Option<Reference>)
      modifies this, hook
      ensures Snapshot() == SelectStep(old(Snapshot()), LocalMatcher(), reference)
      ensures pageContainers == old(pageContainers)
    {
      if reference.None? {
        return;
      }
      var r := reference.value;
      activeReferenceId := Some(r.id);
      matchRequest := matchRequest + 1;
      var requestId := matchRequest;
      status := Matching(r.referenceId, r.page);
      RunHybridMatch(r, requestId);
    }

    /** The continuation of awaiting request `k` after its remote call settles. */
    method CompleteRemote(k: nat, outcome: UseGemini.FetchOutcome)
      requires k < |awaiting|
      modifies this, hook
      ensures Snapshot() == CompleteStep(old(Snapshot()), k, outcome)
      ensures pageContainers == old(pageContainers)
    {
      var flight := awaiting[k];
      awaiting := Without(awaiting, k);
      var result := hook.Finish(outcome);
      if matchRequest != flight.requestId {
        return;
      }
      var fuzzyResult := flight.fuzzy;
      var reference := flight.reference;
      if result.matchText == "" {
        if fuzzyResult.Some? && fuzzyResult.value.substring != "" {
          pendingHighlight := Some(Pending(reference.page, fuzzyResult.value.substring, None, reference.referenceId));
          status := AlgorithmicFallback(Reason(result.error), fuzzyResult.value.score);
          return;
        }
        status := CouldNotLocate(reference.referenceId);
        return;
      }
      pendingHighlight := Some(Pending(reference.page, result.matchText,
                                       if fuzzyResult.Some? then Some(fuzzyResult.value.substring) else None,
                                       reference.referenceId));
      status := GeminiLocated(reference.referenceId);
    }

    /** The effect that surfaces the hook's error. */
    method SurfaceGeminiError()
      modifies this
      ensures Snapshot() == ErrorEffectStep(old(Snapshot()))
      ensures pageContainers == old(pageContainers)
    {
      if Truthy(hook.error) {
        status := GeminiError(hook.error.value);
      }
    }

    /** `handleTextLayerReady`: registers the page's container and bumps the layer
        version; a null container is ignored. */
    method HandleTextLayerReady(pageNumber: int, container: Highlight.TextLayer?)
      requires Valid() && (container != null ==> container.Valid())
      modifies this
      ensures Snapshot() == LayerReadyStep(old(Snapshot()), container != null)
      ensures container == null ==> pageContainers == old(pageContainers)
      ensures container != null ==> pageContainers == old(pageContainers)[pageNumber := container]
      ensures Valid()
    {
      if container == null {
        return;
      }
      pageContainers := pageContainers[pageNumber := container];
      pageLayerVersion := pageLayerVersion + 1;
    }

    /** The metadata of the registered container of `page`, if any. */
    function LayerMeta(page: int): Option<Option<Highlight.Meta>>
      reads this, pageContainers.Values
    {
      if page in pageContainers then Some(pageContainers[page].meta) else None
    }

    /** The fragments the highlight effect may mark. */
    function EffectFootprint(): set<Highlight.Fragment>
      reads this, pageContainers.Values
    {
      if pendingHighlight.Some? && pendingHighlight.value.pageNumber in pageContainers
      then pageContainers[pendingHighlight.value.pageNumber].Footprint()
      else {}
    }

    /** The effect once the pending highlight and its page's container are known:
        the attempts, then the status. */
    method HighlightPending(p: Pending, layer: Highlight.TextLayer) returns (tried: seq<string>)
      requires layer.Valid()
      modifies this, layer.Footprint()
      ensures tried == HighlightAttempts(p, layer.meta)
      ensures status == if HighlightSucceeds(p, layer.meta) then Highlighted(p.referenceLabel, p.pageNumber)
                        else HighlightFailed(p.referenceLabel)
      ensures pdfPages == old(pdfPages) && activeReferenceId == old(activeReferenceId)
      ensures pendingHighlight == old(pendingHighlight) && pageLayerVersion == old(pageLayerVersion)
      ensures pageContainers == old(pageContainers) && matchRequest == old(matchRequest) && awaiting == old(awaiting)
      ensures var last := Highlight.Locate(layer.meta, tried[|tried| - 1]);
        && (last.None? ==> forall f :: f in layer.Footprint() ==> f.State() == old(f.State()))
        && (last.Some? ==>
              var m := layer.meta.value;
              forall f :: f in layer.Footprint() ==>
                f.State() == Highlight.MarkedBy(m.ranges, |m.ranges|, last.value.start, last.value.end, f,
                                                if f in layer.nodes then Highlight.Cleared(old(f.State()))
                                                else old(f.State())))
    {
      var success;
      tried, success := TryHighlight(layer, p);
      status := if success then Highlighted(p.referenceLabel, p.pageNumber) else HighlightFailed(p.referenceLabel);
    }

    /** The `pendingHighlight` effect: tries the primary text, then the fallback,
        on the page's container, and reports the outcome. */
    method RunHighlightEffect() returns (tried: seq<string>)
      requires Valid()
      modifies this, EffectFootprint()
      ensures pageContainers == old(pageContainers) && Valid()
      ensures Snapshot() == HighlightEffectStep(old(Snapshot()), old(LayerMeta(if pendingHighlight.Some? then pendingHighlight.value.pageNumber else 0)))
      ensures pendingHighlight.Some? && pendingHighlight.value.pageNumber in pageContainers ==>
        tried == HighlightAttempts(pendingHighlight.value, pageContainers[pendingHighlight.value.pageNumber].meta)
      ensures !(pendingHighlight.Some? && pendingHighlight.value.pageNumber in pageContainers) ==> tried == []
      ensures pendingHighlight.Some? && pendingHighlight.value.pageNumber in pageContainers ==>
        var layer := pageContainers[pendingHighlight.value.pageNumber];
        var last := Highlight.Locate(layer.meta, tried[|tried| - 1]);
        && (last.None? ==> forall f :: f in layer.Footprint() ==> f.State() == old(f.State()))
        && (last.Some? ==>
              var m := layer.meta.value;
              forall f :: f in layer.Footprint() ==>
                f.State() == Highlight.MarkedBy(m.ranges, |m.ranges|, last.value.start, last.value.end, f,
                                                if f in layer.nodes then Highlight.Cleared(old(f.State()))
                                                else old(f.State())))
    {
      if pendingHighlight.None? {
        return [];
      }
      var p := pendingHighlight.value;
      if p.pageNumber !in pageContainers {
        return [];
      }
      tried := HighlightPending(p, pageContainers[p.pageNumber]);
    }
  }
}
