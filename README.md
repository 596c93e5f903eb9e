# PDF Evidence Explorer — a verified model of its matching core

PDF Evidence Explorer shows a PDF next to an analysis panel. Selecting an
evidence reference finds the quoted passage on its page and highlights it in
the page's text layer. It finds the passage in two ways: a local fuzzy window
match over the page's tokens, and a remote call to a Gemini model. The
remote call goes through a serverless handler and is used when the local
match is not confident.

The project models these pieces:

- `FuzzyMatch`: `sanitize`, `tokenize` and `findBestFuzzyMatch`. The token
  loop and the nested window loops are methods, proved against the functions
  `Tokens` and `BestFuzzyMatch`. The string-similarity measure is a parameter
  `compare` that returns a real in `[0, 1]`.
- `Highlight`: the text layer. A `Fragment` is a class with the highlight
  flag, the inline background and colour, and the two saved-style `dataset`
  slots. A `TextLayer` is a class with its fragments and the offset table
  attached to it. `attachTextLayerMeta`, `clearHighlights`,
  `applyInlineHighlight`, `resetInlineHighlight` and `highlightExactText`
  are methods that change these objects in place.
- `PdfText`: `textContentToString` and the page loop of `extractPdfText`.
  The PDF engine is a value: a page count and the items of each page.
- `GeminiApi`: the handler. Every path writes one response, so the handler
  is a function of four inputs (the method, the key, the parsed body, and
  what the upstream call produced). It returns the response and the
  upstream request made, if any.
- `UseGemini`: the hook's `loading`/`error` state as a class, and the
  `{ match, error }` result as a function of the fetch outcome.
- `MatchOrchestrator`: the application component.
  - Session model: a record of every state it keeps (pages, status,
    active reference, pending highlight, layer version, request counter,
    the hook's flags) plus the requests awaiting their remote call. Each
    event (load, select, remote completion, error effect, layer ready,
    highlight effect) is a pure step over that record.
  - Class `App`: holds the same state in fields, with one method per
    handler. Each method is proved to leave `Snapshot()` equal to the
    pure step applied to the old snapshot.

Concurrency is an explicit interleaving of events. The synchronous part of a
selection runs to completion. The request stays in `flights` until a
`Complete` event delivers its remote outcome.

Shared pieces: `Options` holds `Option`. `JsString` holds JavaScript's
whitespace set, `trim` and `indexOf`.

Facts about the code that the model keeps:

- The handler answers an empty model reply with status 500.
- `highlightExactText` finds the target by exact `indexOf` after `trim`,
  without case or whitespace folding.
- `clearHighlights` clears only the one text layer passed to it.
- `highlightExactText` returns `true` once the text is found, even if no
  fragment overlaps it.
- `App.jsx` imports a `highlightSubstring` that `highlight.js` does not
  export, and calls it as `(text, container)`. The model calls
  `highlightExactText(container, text)`.

## Model

| member | source | states |
|---|---|---|
| JsString.TrimSpec | src/utils/highlight.js:61 | `trim` removes exactly the leading and trailing JavaScript whitespace: the result is a slice of the input with no space at either end, and everything outside it is space |
| JsString.TrimIdempotent | src/hooks/useGemini.js:31 | trimming a trimmed string changes nothing |
| JsString.TrimEmptyIffBlank | src/utils/highlight.js:61-62 | `trim` gives `''` exactly when every character is whitespace |
| JsString.IndexOf | src/utils/highlight.js:64 | `indexOf` is `-1` exactly when the needle occurs nowhere; otherwise the needle occurs there and at no earlier position |
| FuzzyMatch.SanitizeIsSanitized | src/utils/fuzzyMatch.js:3-8 | `sanitize` yields only `a-z`, `0-9` and single inner spaces, with no space at either end |
| FuzzyMatch.SanitizeIdempotent | src/utils/fuzzyMatch.js:3-8 | `sanitize` is idempotent |
| FuzzyMatch.SanitizeOfSanitized | src/utils/fuzzyMatch.js:3-8 | a sanitised string is a fixed point of `sanitize` |
| FuzzyMatch.SplitLength | src/utils/fuzzyMatch.js:47 | the word count `split(' ').length` is at least one, so `\|\| 1` never applies |
| FuzzyMatch.Tokens | src/utils/fuzzyMatch.js:10-34 | every token has `start < end <= \|text\|` and `original == text[start..end]`; tokens are in strictly increasing order with a gap between neighbours; there are none exactly for the empty text |
| FuzzyMatch.TokensAreRuns | src/utils/fuzzyMatch.js:12-22 | a text with a non-space character is tokenised into its maximal non-whitespace runs, and every non-space character lies in some token |
| FuzzyMatch.BlankTextIsOneToken | src/utils/fuzzyMatch.js:24-31 | a non-empty all-whitespace text yields one token spanning the whole text |
| FuzzyMatch.NextMatchStart | src/utils/fuzzyMatch.js:15 | the regex scan skips only whitespace and stops at the next non-space character or the end |
| FuzzyMatch.MatchEnd | src/utils/fuzzyMatch.js:17-19 | a match ends at the end of the non-whitespace run it starts |
| FuzzyMatch.MatchAll | src/utils/fuzzyMatch.js:15-22 | the `while` loop pushes one token per non-whitespace run, in order |
| FuzzyMatch.Tokenize | src/utils/fuzzyMatch.js:10-34 | the loop with its blank-text fallback computes `Tokens(text)` |
| FuzzyMatch.BestFuzzyMatch | src/utils/fuzzyMatch.js:38-45 | the result is `null` exactly when the sanitised query or the page text is empty; otherwise it reports the page text between its own offsets |
| FuzzyMatch.MatchTokens | src/utils/fuzzyMatch.js:62-67 | the reported substring is `pageText.slice(start, end)` |
| FuzzyMatch.MatchIsMaximal | src/utils/fuzzyMatch.js:48-62 | the reported score is at least the score of every window whose size lies in `[max(3, min(q, n)), min(n, q + 8)]`, at every start |
| FuzzyMatch.MatchIsFirstBest | src/utils/fuzzyMatch.js:51-69 | a positive result is the candidate of a scored window, and every window visited before it scores strictly less; a zero result is the sentinel |
| FuzzyMatch.CandidateOffsets | src/utils/fuzzyMatch.js:63-67 | a window's candidate starts at its first token's start and ends at its last token's end, with the window's score |
| FuzzyMatch.FewTokensGiveSentinel | src/utils/fuzzyMatch.js:48-51 | with fewer than three tokens no window is scored and the result is `{score 0, substring '', start 0, end 0}` |
| FuzzyMatch.IdenticalWindowScoresOne | src/utils/fuzzyMatch.js:56-62 | if a scored window's normalised text equals the query and the measure gives identical strings 1, the result scores 1 |
| FuzzyMatch.RowFoldBound | src/utils/fuzzyMatch.js:54-69 | the inner loop's best score is at least its start score and every window of the row |
| FuzzyMatch.SizeFoldBound | src/utils/fuzzyMatch.js:53-70 | the outer loop's best score is at least its start score and every window of every row |
| FuzzyMatch.ScanRow | src/utils/fuzzyMatch.js:54-69 | the inner `for` loop computes the row fold |
| FuzzyMatch.ScanWindows | src/utils/fuzzyMatch.js:51-72 | the nested loops compute the window search's result |
| FuzzyMatch.FindBestFuzzyMatch | src/utils/fuzzyMatch.js:38-73 | the method computes `BestFuzzyMatch` |
| Highlight.Applied | src/utils/highlight.js:23-33 | a slot that is not set (absent or `''`) saves the current value; the highlight colours `#fde68a` and `#111827` are written |
| Highlight.Reset | src/utils/highlight.js:35-45 | each slot that exists is written back and deleted |
| Highlight.ApplyThenReset | src/utils/highlight.js:23-45 | applying then resetting restores the original background and colour and removes the slots |
| Highlight.ResetIdempotent | src/utils/highlight.js:35-45 | resetting twice is resetting once |
| Highlight.ApplyTwiceForgetsUnsetBackground | src/utils/highlight.js:25-27 | because the saving test is truthiness, a second apply on a fragment with no background overwrites the saved `''`, so a reset leaves the highlight colour behind |
| Highlight.Cleared | src/utils/highlight.js:49-54 | a marked fragment loses the mark and has its style reset; an unmarked one is untouched |
| Highlight.ClearedAndMarkKeepConsistent | src/utils/highlight.js:47-78 | clearing and marking keep "saved style only while marked"; clearing is idempotent |
| Highlight.MarkThenClear | src/utils/highlight.js:69-78 | marking a consistent unmarked fragment and clearing it restores it exactly |
| Highlight.ApplyInlineHighlight | src/utils/highlight.js:23-33 | the fragment's style becomes `Applied` of its old style and nothing else changes; a null fragment is ignored |
| Highlight.ResetInlineHighlight | src/utils/highlight.js:35-45 | the fragment's style becomes `Reset` of its old style and nothing else changes; a null fragment is ignored |
| Highlight.TableIsContiguous | src/utils/highlight.js:6-15 | the offset table starts at 0, each row is as long as its fragment's text, each row ends where the next starts, and the last ends at the sum of the lengths |
| Highlight.AttachTextLayerMeta | src/utils/highlight.js:3-21 | a layer gets the offset table over the fragments, which is contiguous, and `fullText ?? ''`; its fragments are unchanged; a null layer is left alone |
| Highlight.ClearHighlights | src/utils/highlight.js:47-55 | every fragment of the layer ends in `Cleared` of its old state; a null layer is left alone |
| Highlight.TouchesIffOverlaps | src/utils/highlight.js:72-80 | the marking test and the anchor test select the same ranges |
| Highlight.MarkedByDistinct | src/utils/highlight.js:71-78 | a fragment of at most one range is marked once if its range overlaps and is untouched otherwise |
| Highlight.MarkTouching | src/utils/highlight.js:71-78 | the `forEach` marks each overlapping range's fragment, in order |
| Highlight.CoherentMarking | src/utils/highlight.js:69-81 | after clearing and marking, exactly the overlapping ranges are marked, other fragments are unmarked, and the anchor is marked |
| Highlight.Locate | src/utils/highlight.js:58-67 | no lookup without a table or with a blank target; otherwise the first occurrence of the trimmed target, and `fullText[start..end]` equals it |
| Highlight.LocateIgnoresSurroundingSpace | src/utils/highlight.js:61 | the lookup ignores only leading and trailing whitespace of the target |
| Highlight.FirstOverlapIndex | src/utils/highlight.js:79-81 | the position of the first range that overlaps the match |
| Highlight.FirstOverlap | src/utils/highlight.js:79-81 | the anchor is absent exactly when no range overlaps; otherwise it is an overlapping range |
| Highlight.HighlightExactText | src/utils/highlight.js:57-89 | returns `true` exactly when the trimmed target occurs in `fullText`; on failure nothing changes; on success old marks are cleared, the overlapping ranges are marked, and the anchor is the first overlapping range; on a coherent layer exactly those fragments end marked |
| Highlight.MarkOccurrence | src/utils/highlight.js:67-88 | the success path: clear, mark each overlapping range, pick the anchor |
| PdfText.ConcatAppend | src/utils/extractPdfText.js:1-2 | joining the item texts distributes over concatenation of item lists |
| PdfText.ItemAtItsOffset | src/utils/extractPdfText.js:1-2 | each item's text sits in the page text right after the texts of the items before it |
| PdfText.SilentItemsGiveEmptyText | src/utils/extractPdfText.js:2 | items with null or missing `str` contribute nothing |
| PdfText.ExtractedPages | src/utils/extractPdfText.js:4-21 | no document gives `[]`; otherwise `numPages` entries, entry `i` numbered `i + 1` with the joined text of page `i + 1` |
| PdfText.ExtractPdfText | src/utils/extractPdfText.js:4-21 | the page loop computes `ExtractedPages` |
| GeminiApi.PromptAroundLayout | api/gemini.js:31 | the template places the instruction, the page text and the query at fixed offsets between the fences |
| GeminiApi.PromptLayout | api/gemini.js:22-31 | the prompt is the six-sentence instruction, then `\n\npageText:\n"""`, the page text, `"""\n\nquery:\n"""`, the query and `"""`, each at its offset |
| GeminiApi.PromptDeterminesInputs | api/gemini.js:31 | for page texts of one length, the prompt determines the page text and the query |
| GeminiApi.PartsTextAppend | api/gemini.js:63-64 | joining part texts distributes over concatenation |
| GeminiApi.CandidateText | api/gemini.js:61-65 | the candidate is the first candidate's part texts (missing as `''`) joined and trimmed, or `''` without parts |
| GeminiApi.CaughtMessage | api/gemini.js:72-74 | the catch always writes a non-empty message, the error's own when it has one |
| GeminiApi.UpstreamResponse | api/gemini.js:33-74 | after the upstream call: 200 exactly for an ok reply with a non-empty candidate, carrying it; an ok reply with an empty or missing candidate is 500 `Gemini returned an empty response`; a non-ok reply is 500 with the upstream message or `Gemini API error`; a throw is 500 with the thrown message or `Gemini request failed` |
| GeminiApi.Handle | api/gemini.js:1-76 | non-POST gives 405; then a missing key gives 500; then a missing field gives 400; an upstream request is made exactly when all three pass, with the prompt, the keyed endpoint and temperature 0, 256 tokens, one candidate |
| GeminiApi.ResponseShape | api/gemini.js:1-76 | every response is 200, 400, 405 or 500; a 200 carries a non-empty trimmed match and every other status an error message |
| GeminiApi.MethodCheckedFirst | api/gemini.js:2-5 | a non-POST request gets the same response whatever the key, body or model |
| GeminiApi.KeyCheckedBeforeBody | api/gemini.js:7-11 | without a key the body is never looked at, and the status is 500 |
| GeminiApi.BlankPartsAreEmptyReply | api/gemini.js:61-69 | a reply whose parts are all blank is the empty-response 500 |
| UseGemini.ShapeReply | src/hooks/useGemini.js:24-35 | a non-ok reply gives `''` and `payload.error \|\| 'Gemini request failed'`; an ok reply gives the trimmed match or `''` and no error; a throw gives `''` and the thrown message |
| UseGemini.ErrorAfter | src/hooks/useGemini.js:9-35 | the error state is the call's error when it has one, and is otherwise left as the call's start left it |
| UseGemini.GeminiHook.Begin | src/hooks/useGemini.js:8-9 | a call starts with `loading` true and `error` null |
| UseGemini.GeminiHook.Finish | src/hooks/useGemini.js:11-38 | the call resolves to `ShapeReply`, stores its error, and clears `loading` on every path |
| UseGemini.GeminiHook.RequestGeminiMatch | src/hooks/useGemini.js:7-39 | a whole call: its result, `loading` false and the error the call produced |
| UseGemini.HandlerToHook | src/hooks/useGemini.js:24-32 | through the handler, the hook reports a match exactly on a 200, the match unchanged and non-empty, and otherwise the handler's own message |
| MatchOrchestrator.Truncate | src/App.jsx:131 | the remote call's page text is the first `min(\|text\|, 6000)` characters |
| MatchOrchestrator.UpperFirst | src/App.jsx:147-149 | the reason keeps its length and upper-cases only its first character |
| MatchOrchestrator.FindPageIndex | src/App.jsx:97-99 | `find` returns the first page with the requested number |
| MatchOrchestrator.FindExtractedPage | src/App.jsx:97-99 | on extracted pages, page `n` is found exactly when `1 <= n <= \|pages\|`, and it is entry `n - 1` |
| MatchOrchestrator.Dispatch | src/App.jsx:95-136 | `runHybridMatch` up to the await keeps the pages, the counter and the active reference |
| MatchOrchestrator.SelectStep | src/App.jsx:175-188 | a null reference changes nothing; a selection bumps the counter by one and records the active reference |
| MatchOrchestrator.CompleteStep | src/App.jsx:137-170 | after the remote call the hook's flags are updated and the request leaves the awaiting list; the counter, pages and active reference stay |
| MatchOrchestrator.ErrorEffectStep | src/App.jsx:83-87 | only the status can change: a truthy hook error becomes the status, and otherwise nothing changes |
| MatchOrchestrator.LayerReadyStep | src/App.jsx:89-93 | a non-null container bumps the layer version and changes nothing else |
| MatchOrchestrator.HighlightAttempts | src/App.jsx:68-72 | the effect tries `text` first, and `fallbackText` only when `text` is not found and the fallback is truthy and different |
| MatchOrchestrator.HighlightSucceedsIff | src/App.jsx:68-74 | the effect succeeds exactly when `text`, or a truthy different fallback, occurs in the layer's text |
| MatchOrchestrator.TryHighlight | src/App.jsx:68-72 | the effect calls `highlightExactText` with exactly the texts `HighlightAttempts` names and succeeds exactly when the last of them is found; when that last lookup fails no fragment changes, and when it succeeds every fragment ends as the clear-then-mark pass over that occurrence leaves it, exactly the overlapping ranges marked on a coherent layer |
| MatchOrchestrator.HighlightEffectStep | src/App.jsx:62-81 | only the status can change; without a pending highlight or a registered container nothing changes; otherwise the status is "highlighted" with the label and page exactly when the attempts succeed, and "highlighting failed" with the label otherwise |
| MatchOrchestrator.LoadStep | src/App.jsx:35-52 | only the pages and the status change; a failure keeps the pages and shows the failure message; a loaded document gives one page per document page, numbered from 1, each with its joined text, and the select prompt |
| MatchOrchestrator.InitialInv | src/App.jsx:18-25 | the initial state satisfies the invariant |
| MatchOrchestrator.EnqueueKeepsInv | src/App.jsx:132-136 | awaiting a request newer than all awaiting ones keeps the invariant |
| MatchOrchestrator.SelectKeepsInv | src/App.jsx:175-188 | a selection keeps the invariant: awaiting ids increase and do not exceed the counter, a pending highlight has text, and remote page texts are at most 6000 characters |
| MatchOrchestrator.WithoutKeepsOrder | src/App.jsx:137-138 | a request leaving the awaiting list keeps the invariant |
| MatchOrchestrator.CompleteKeepsInv | src/App.jsx:137-170 | a completion keeps the invariant |
| MatchOrchestrator.StepKeepsInv | src/App.jsx:62-188 | every event keeps the invariant |
| MatchOrchestrator.RunKeepsInv | src/App.jsx:62-188 | every sequence of events keeps the invariant |
| MatchOrchestrator.StepCounter | src/App.jsx:179 | only a selection moves the request counter, and by one |
| MatchOrchestrator.CounterCountsSelections | src/App.jsx:179 | after any events, the counter has grown by exactly the number of selections |
| MatchOrchestrator.SelectMakesEarlierStale | src/App.jsx:179-185 | a selection's id is larger than every awaiting request's id, so all of them become stale |
| MatchOrchestrator.OnlyLastCanBeLive | src/App.jsx:138 | every awaiting request but the newest is stale |
| MatchOrchestrator.StaleCompletionIsInert | src/App.jsx:138 | a stale completion changes only the hook's flags and the awaiting list: no status, no highlight |
| MatchOrchestrator.MissingPageIsNotReady | src/App.jsx:97-104 | a missing page sets only the "not ready" status, with no highlight and no remote call |
| MatchOrchestrator.ConfidentLocalMatchSkipsRemote | src/App.jsx:106-123 | a local match of at least 0.75 with a substring becomes the highlight without fallback with the "fuzzy match succeeded" status and its score; nothing is awaited and the hook's `loading` and `error` are untouched |
| MatchOrchestrator.InconclusiveMatchCallsRemote | src/App.jsx:125-136 | otherwise one remote call is awaited with the current id, the first 6000 characters of the page, the query and the page number; the hook is loading with no error |
| MatchOrchestrator.EmptyRemoteAnswer | src/App.jsx:140-161 | a live empty remote answer highlights the local substring without fallback when it is non-empty, with the algorithmic-fallback status quoting the reason and the local score; otherwise it sets only "could not locate" |
| MatchOrchestrator.RemoteAnswerIsPrimary | src/App.jsx:164-170 | a live non-empty remote answer is the highlight text, with the local substring as fallback |
| MatchOrchestrator.App.constructor | src/App.jsx:17-28 | the component starts in the initial state with no containers |
| MatchOrchestrator.App.LoadPdf | src/App.jsx:32-60 | the loading effect performs `LoadStep` |
| MatchOrchestrator.App.RunHybridMatch | src/App.jsx:95-136 | the method performs `Dispatch` with `findBestFuzzyMatch` as the local matcher |
| MatchOrchestrator.App.HandleReferenceSelect | src/App.jsx:175-188 | the handler performs `SelectStep` |
| MatchOrchestrator.App.CompleteRemote | src/App.jsx:132-170 | the continuation performs `CompleteStep` through the hook's `Finish` |
| MatchOrchestrator.App.SurfaceGeminiError | src/App.jsx:83-87 | the error effect performs `ErrorEffectStep` |
| MatchOrchestrator.App.HandleTextLayerReady | src/App.jsx:89-93 | registers a non-null container under its page and performs `LayerReadyStep` |
| MatchOrchestrator.App.RunHighlightEffect | src/App.jsx:62-81 | without a pending highlight or a registered container nothing changes; otherwise the texts tried are those `HighlightAttempts` names, the page's fragments end unchanged when the last lookup fails and as the clear-then-mark pass over its occurrence leaves them when it succeeds, and the snapshot moves by `HighlightEffectStep` |
| MatchOrchestrator.App.HighlightPending | src/App.jsx:68-80 | the attempts on the page's container, then the success or failure status; only the status and the container's fragments change |

## Left out

- Network, `fetch` and the PDF engine are not modelled. Their results are inputs: `Upstream`, `FetchOutcome`, and `PdfDocument.pageItems`.
- `JSON.parse` of the request body and of responses is not modelled: the handler receives the parsed payload, and a body that is not JSON is a `Threw` outcome.
- The handler's `console.error` and the loading effect's logging are not modelled.
- `compareTwoStrings` is a parameter with no properties beyond its range `[0, 1]`.
- `toLowerCase` maps only ASCII letters. `\s` is JavaScript's full whitespace set.
- The status texts, their `toFixed(2)` score formatting and the header's "Gemini fallback running" text are constructors of `Status` carrying their values, not strings.
- `scrollIntoView` is not modelled. The anchor is returned instead.
- React scheduling, effect re-runs on `pageLayerVersion` and batched state updates are not modelled. Each handler or effect runs to completion as one event, in whatever order the event sequence gives.
- The `mounted` flag of the loading effect and the `pdfDoc` state are not modelled. The model's load event always lands, and nothing reads the document after extraction.
- `querySelectorAll('.highlight')` returns the marked fragments in one snapshot. The model visits every fragment of the layer and clears the marked ones. The two agree because the layer's fragments are distinct.
- `PdfViewer.jsx` rendering is not modelled. The text layer's fragments and its `fullText` are inputs, and the model does not assume they agree.
- UseGemini.ShapeReply: an ok response whose JSON body is `null` makes `payload.match` throw. `ReplyBody` is always an object, so that case is represented only as a `Threw` outcome.
- MatchOrchestrator.Dispatch: the staleness checks at `src/App.jsx:101,108,125` are modelled, but they never fire in the synchronous part of a selection, because the id passed is always the current counter.
- MatchOrchestrator.CompleteStep: a stale completion still sets the hook's `loading` and `error`, as the code does. The error effect can later show that error in the status.
- GeminiApi.Handle: only string body fields are represented. A truthy non-string field such as `pageText: 42` passes the check at `api/gemini.js:17` and enters the prompt through its string form. The model has no such value, so it never builds that prompt.
- String lengths and offsets count Unicode scalar values, not UTF-16 code units. JavaScript's `.length`, `slice`, `indexOf` and `match.index` count code units, so for text with characters outside the Basic Multilingual Plane the model's positions differ from the code's. This affects the 6000-character cut, the token offsets, the offset table and the positions `Locate` reports.
- MatchOrchestrator.UpperFirst: `toUpperCase` is modelled for ASCII letters only.
