/**
 * The approximate matcher of src/utils/fuzzyMatch.js: query and page text are
 * sanitised, the page text is cut into whitespace-delimited tokens that keep
 * their offsets into the original text, and every contiguous token window of an
 * admissible size is scored against the query; the first strictly best window
 * wins. The similarity measure (the string-similarity library) is a parameter.
 */
module FuzzyMatch {
  import opened Options
  import opened JsString

  /** A similarity in [0, 1], the range of `compareTwoStrings`. */
  type Score = r: real | 0.0 <= r <= 1.0

  /** `stringSimilarity.compareTwoStrings`, kept abstract. */
  type Similarity = (string, string) -> Score

  /** Scores at or above this skip the remote disambiguation. */
  const MatchThreshold: real := 0.75

  function Min(a: int, b: int): int { if a <= b then a else b }
  function Max(a: int, b: int): int { if a >= b then a else b }

  // ---------------------------------------------------------------- sanitize

  predicate IsWordChar(c: char) {
    ('a' <= c <= 'z') || ('0' <= c <= '9')
  }

  /** `.toLowerCase()` */
  function ToLowerCase(s: string): string {
    if s == [] then [] else [LowerChar(s[0])] + ToLowerCase(s[1..])
  }

  /** `.replace(/[^a-z0-9\s]/g, ' ')` */
  function ReplaceNonWord(s: string): string {
    if s == [] then []
    else [if IsWordChar(s[0]) || IsSpace(s[0]) then s[0] else ' '] + ReplaceNonWord(s[1..])
  }

  /** After the replacement only word characters and whitespace remain. */
  lemma {:induction false} ReplacedChars(s: string)
    ensures forall i :: 0 <= i < |ReplaceNonWord(s)| ==>
      IsWordChar(ReplaceNonWord(s)[i]) || IsSpace(ReplaceNonWord(s)[i])
  {
    if s != [] {
      ReplacedChars(s[1..]);
      var r, r' := ReplaceNonWord(s), ReplaceNonWord(s[1..]);
      assert r == [r[0]] + r';
      forall i | 0 < i < |r|
        ensures IsWordChar(r[i]) || IsSpace(r[i])
      {
        assert r[i] == r'[i - 1];
      }
    }
  }

  /** Lower-casing and the replacement leave word characters and spaces alone. */
  lemma {:induction false} WordTextUnchanged(s: string)
    requires forall i :: 0 <= i < |s| ==> IsWordChar(s[i]) || s[i] == ' '
    ensures ToLowerCase(s) == s && ReplaceNonWord(s) == s
  {
    if s != [] {
      assert forall i :: 0 <= i < |s[1..]| ==> s[1..][i] == s[i + 1];
      WordTextUnchanged(s[1..]);
    }
  }

  /** `.replace(/\s+/g, ' ')`: every maximal whitespace run becomes one space,
      emitted at the run's last character. */
  function CollapseWhitespace(s: string): string {
    if s == [] then []
    else if IsSpace(s[0]) && |s| > 1 && IsSpace(s[1]) then CollapseWhitespace(s[1..])
    else [if IsSpace(s[0]) then ' ' else s[0]] + CollapseWhitespace(s[1..])
  }

  /** Collapsing keeps the first character when it is not whitespace, leaves no
      whitespace but single spaces, and adds no other character. */
  lemma {:induction false} CollapseShape(s: string)
    ensures CollapseWhitespace(s) == [] <==> s == []
    ensures s != [] && !IsSpace(s[0]) ==> CollapseWhitespace(s)[0] == s[0]
    ensures forall i :: 0 <= i < |CollapseWhitespace(s)| ==>
      CollapseWhitespace(s)[i] == ' ' || (!IsSpace(CollapseWhitespace(s)[i]) && CollapseWhitespace(s)[i] in s)
    ensures forall i :: 0 < i < |CollapseWhitespace(s)| && CollapseWhitespace(s)[i] == ' ' ==>
      CollapseWhitespace(s)[i - 1] != ' '
  {
    if s != [] {
      var tail := s[1..];
      CollapseShape(tail);
      assert forall c :: c in tail ==> c in s;
      var r, r' := CollapseWhitespace(s), CollapseWhitespace(tail);
      if !(IsSpace(s[0]) && |s| > 1 && IsSpace(s[1])) {
        assert r == [r[0]] + r';
        forall i | 0 < i < |r|
          ensures r[i] == r'[i - 1]
        {
        }
        if r[0] == ' ' && |r| > 1 {
          assert tail != [] && !IsSpace(tail[0]);
        }
      }
    }
  }

  /** `sanitize`: lower-case, non-word characters to spaces, whitespace runs
      collapsed, trimmed. */
  function Sanitize(text: string): string {
    Trim(CollapseWhitespace(ReplaceNonWord(ToLowerCase(text))))
  }

  /** What `sanitize` produces: only `a-z`, `0-9` and single inner spaces. */
  predicate IsSanitized(s: string) {
    && (forall i :: 0 <= i < |s| ==> IsWordChar(s[i]) || s[i] == ' ')
    && (forall i :: 0 < i < |s| && s[i] == ' ' ==> s[i - 1] != ' ')
    && (|s| > 0 ==> s[0] != ' ' && s[|s| - 1] != ' ')
  }

  /** Only word characters and single inner spaces, maybe with a space at either end. */
  predicate IsCollapsed(s: string) {
    && (forall i :: 0 <= i < |s| ==> IsWordChar(s[i]) || s[i] == ' ')
    && (forall i :: 0 < i < |s| && s[i] == ' ' ==> s[i - 1] != ' ')
  }

  lemma CollapseOfReplaced(a: string)
    requires forall i :: 0 <= i < |a| ==> IsWordChar(a[i]) || IsSpace(a[i])
    ensures IsCollapsed(CollapseWhitespace(a))
  {
    var c := CollapseWhitespace(a);
    CollapseShape(a);
    forall i | 0 <= i < |c|
      ensures IsWordChar(c[i]) || c[i] == ' '
    {
      if c[i] != ' ' {
        var j :| 0 <= j < |a| && a[j] == c[i];
      }
    }
  }

  lemma TrimOfCollapsed(c: string)
    requires IsCollapsed(c)
    ensures IsSanitized(Trim(c))
  {
    TrimSpec(c);
    var k := |c| - |TrimStart(c)|;
    var r := Trim(c);
    assert r == c[k..k + |r|];
    forall i | 0 <= i < |r|
      ensures IsWordChar(r[i]) || r[i] == ' '
    {
      assert r[i] == c[k + i];
    }
    forall i | 0 < i < |r| && r[i] == ' '
      ensures r[i - 1] != ' '
    {
      assert r[i] == c[k + i] && r[i - 1] == c[k + i - 1];
    }
  }

  lemma SanitizeIsSanitized(text: string)
    ensures IsSanitized(Sanitize(text))
  {
    var a := ReplaceNonWord(ToLowerCase(text));
    ReplacedChars(ToLowerCase(text));
    CollapseOfReplaced(a);
    TrimOfCollapsed(CollapseWhitespace(a));
  }

  /** Collapsing changes nothing once the only whitespace left is single spaces. */
  lemma {:induction false} CollapseOfCollapsed(s: string)
    requires forall i :: 0 <= i < |s| ==> IsWordChar(s[i]) || s[i] == ' '
    requires forall i :: 0 < i < |s| && s[i] == ' ' ==> s[i - 1] != ' '
    ensures CollapseWhitespace(s) == s
    decreases |s|
  {
    if s != [] {
      var tail := s[1..];
      assert forall i :: 0 <= i < |tail| ==> tail[i] == s[i + 1];
      CollapseOfCollapsed(tail);
      if IsSpace(s[0]) && |s| > 1 {
        assert s[1] != ' ' && !IsSpace(s[1]);
      }
    }
  }

  lemma SanitizeOfSanitized(s: string)
    requires IsSanitized(s)
    ensures Sanitize(s) == s
  {
    WordTextUnchanged(s);
    CollapseOfCollapsed(s);
    TrimOfTrimmed(s);
  }

  /** `sanitize` is idempotent. */
  lemma SanitizeIdempotent(text: string)
    ensures Sanitize(Sanitize(text)) == Sanitize(text)
  {
    SanitizeIsSanitized(text);
    SanitizeOfSanitized(Sanitize(text));
  }

  /** `s.split(' ').length`: one more than the number of spaces. */
  function SplitLength(s: string): (r: nat)
    ensures r >= 1
  {
    if s == [] then 1 else SplitLength(s[1..]) + (if s[0] == ' ' then 1 else 0)
  }

  // ---------------------------------------------------------------- tokenize

  datatype Token = Token(original: string, start: nat, end: nat, normalized: string)

  function MakeToken(text: string, start: nat, end: nat): Token
    requires start <= end <= |text|
  {
    Token(text[start..end], start, end, Sanitize(text[start..end]))
  }

  /** A token of `text`: a non-empty slice together with its offsets. */
  predicate TokenOf(text: string, t: Token) {
    t.start < t.end <= |text| && t.original == text[t.start..t.end]
  }

  /** Tokens in strictly increasing order with a gap between neighbours. */
  predicate Ordered(toks: seq<Token>) {
    forall j, k :: 0 <= j < k < |toks| ==> toks[j].end < toks[k].start
  }

  predicate TokensOf(text: string, toks: seq<Token>) {
    (forall k :: 0 <= k < |toks| ==> TokenOf(text, toks[k])) && Ordered(toks)
  }

  /** Offsets within a text of length `n`, in increasing order: all the window
      search needs of the tokens. */
  predicate Placed(n: nat, toks: seq<Token>) {
    (forall k :: 0 <= k < |toks| ==> toks[k].start < toks[k].end <= n) && Ordered(toks)
  }

  predicate HasNonSpace(text: string) {
    exists i :: 0 <= i < |text| && !IsSpace(text[i])
  }

  /** The offsets of one match of `/\S+/g`. */
  datatype Span = Span(start: nat, end: nat)

  /** A maximal run of non-whitespace characters. */
  predicate IsRun(text: string, r: Span) {
    && r.start < r.end <= |text|
    && (forall i :: r.start <= i < r.end ==> !IsSpace(text[i]))
    && (r.start == 0 || IsSpace(text[r.start - 1]))
    && (r.end == |text| || IsSpace(text[r.end]))
  }

  /** Where the non-whitespace run starting at `i` ends. */
  function RunEnd(text: string, i: nat): (j: nat)
    requires i <= |text|
    ensures i <= j <= |text|
    ensures forall k :: i <= k < j ==> !IsSpace(text[k])
    ensures j < |text| ==> IsSpace(text[j])
    decreases |text| - i
  {
    if i == |text| || IsSpace(text[i]) then i else RunEnd(text, i + 1)
  }

  /** The matches of `/\S+/g` in `text` from position `i` on. */
  function RunsFrom(text: string, i: nat): seq<Span>
    requires i <= |text|
    decreases |text| - i
  {
    if i == |text| then []
    else if IsSpace(text[i]) then RunsFrom(text, i + 1)
    else [Span(i, RunEnd(text, i))] + RunsFrom(text, RunEnd(text, i))
  }

  /** Position `i` does not cut a non-whitespace run in two. */
  predicate AtBoundary(text: string, i: nat)
    requires i <= |text|
  {
    i == 0 || i == |text| || IsSpace(text[i - 1]) || IsSpace(text[i])
  }

  /** Spans in strictly increasing order with a gap between neighbours. */
  predicate SpansOrdered(rs: seq<Span>) {
    forall j, k :: 0 <= j < k < |rs| ==> rs[j].end < rs[k].start
  }

  /** Every match of `/\S+/g` from position `i` is a maximal run at or after
      `i`, and they come in increasing order. */
  lemma {:induction false} RunsFromAreRuns(text: string, i: nat)
    requires i <= |text| && AtBoundary(text, i)
    ensures forall k :: 0 <= k < |RunsFrom(text, i)| ==> i <= RunsFrom(text, i)[k].start && IsRun(text, RunsFrom(text, i)[k])
    ensures SpansOrdered(RunsFrom(text, i))
    decreases |text| - i
  {
    if i == |text| {
    } else if IsSpace(text[i]) {
      RunsFromAreRuns(text, i + 1);
    } else {
      var j := RunEnd(text, i);
      var t := Span(i, j);
      var rest := RunsFrom(text, j);
      RunsFromAreRuns(text, j);
      var rs := [t] + rest;
      assert RunsFrom(text, i) == rs;
      assert IsRun(text, t);
      forall k | 0 < k < |rs|
        ensures rs[k] == rest[k - 1] && t.end < rs[k].start
      {
        assert !IsSpace(text[rest[k - 1].start]);
      }
    }
  }

  /** No match from position `i` exactly when only whitespace is left there. */
  lemma {:induction false} RunsFromEmpty(text: string, i: nat)
    requires i <= |text|
    ensures RunsFrom(text, i) == [] <==> forall p :: i <= p < |text| ==> IsSpace(text[p])
    decreases |text| - i
  {
    if i < |text| && IsSpace(text[i]) {
      RunsFromEmpty(text, i + 1);
    }
  }

  /** Every non-space character from position `i` on lies in some match. */
  lemma {:induction false} RunsFromCover(text: string, i: nat, p: nat)
    requires i <= p < |text| && !IsSpace(text[p])
    ensures exists k :: 0 <= k < |RunsFrom(text, i)| && RunsFrom(text, i)[k].start <= p < RunsFrom(text, i)[k].end
    decreases |text| - i
  {
    if IsSpace(text[i]) {
      RunsFromCover(text, i + 1, p);
      assert RunsFrom(text, i) == RunsFrom(text, i + 1);
    } else {
      var j := RunEnd(text, i);
      var rest := RunsFrom(text, j);
      var rs := [Span(i, j)] + rest;
      assert RunsFrom(text, i) == rs;
      if p < j {
        assert rs[0].start <= p < rs[0].end;
      } else {
        RunsFromCover(text, j, p);
        var k :| 0 <= k < |rest| && rest[k].start <= p < rest[k].end;
        assert rs[k + 1] == rest[k];
      }
    }
  }

  /** Every span lies within a text of length `n`. */
  predicate SpansWithin(n: nat, rs: seq<Span>) {
    forall k :: 0 <= k < |rs| ==> rs[k].start <= rs[k].end <= n
  }

  /** The token objects `tokenize` pushes for the spans `rs`. */
  function TokensAt(text: string, rs: seq<Span>): (toks: seq<Token>)
    requires SpansWithin(|text|, rs)
    ensures |toks| == |rs|
  {
    if rs == [] then [] else [MakeToken(text, rs[0].start, rs[0].end)] + TokensAt(text, rs[1..])
  }

  /** Each token carries its span's offsets and the text between them. */
  lemma {:induction false} TokensAtSpans(text: string, rs: seq<Span>)
    requires SpansWithin(|text|, rs)
    ensures forall k :: 0 <= k < |rs| ==>
      && TokensAt(text, rs)[k].start == rs[k].start && TokensAt(text, rs)[k].end == rs[k].end
      && TokensAt(text, rs)[k].original == text[rs[k].start..rs[k].end]
  {
    if rs != [] {
      TokensAtSpans(text, rs[1..]);
      forall k | 0 < k < |rs|
        ensures TokensAt(text, rs)[k] == TokensAt(text, rs[1..])[k - 1] && rs[k] == rs[1..][k - 1]
      {
      }
    }
  }

  /** Pushing one more token. */
  lemma {:induction false} TokensAtSnoc(text: string, rs: seq<Span>, r: Span)
    requires SpansWithin(|text|, rs) && r.start <= r.end <= |text|
    ensures SpansWithin(|text|, rs + [r])
    ensures TokensAt(text, rs + [r]) == TokensAt(text, rs) + [MakeToken(text, r.start, r.end)]
  {
    if rs != [] {
      assert (rs + [r])[1..] == rs[1..] + [r];
      TokensAtSnoc(text, rs[1..], r);
    }
  }

  /** The spans `tokenize` uses: the matches, or the whole text when there is
      none and the text is not empty. */
  function TokenSpans(text: string): seq<Span> {
    var runs := RunsFrom(text, 0);
    if |runs| == 0 && |text| > 0 then [Span(0, |text|)] else runs
  }

  /** The token spans are non-empty, within the text and in increasing order;
      there are none exactly when the text is empty. */
  lemma TokenSpansPlaced(text: string)
    ensures SpansWithin(|text|, TokenSpans(text)) && SpansOrdered(TokenSpans(text))
    ensures forall k :: 0 <= k < |TokenSpans(text)| ==> TokenSpans(text)[k].start < TokenSpans(text)[k].end
    ensures TokenSpans(text) == [] <==> text == []
  {
    RunsFromAreRuns(text, 0);
    RunsFromEmpty(text, 0);
  }

  /** `tokenize`: the non-whitespace runs of `text`, or, when there is none and
      `text` is not empty, one token spanning the whole text. */
  function Tokens(text: string): (toks: seq<Token>)
    ensures TokensOf(text, toks)
    ensures toks == [] <==> text == []
  {
    TokenSpansPlaced(text);
    TokensAtSpans(text, TokenSpans(text));
    TokensAt(text, TokenSpans(text))
  }

  /** On a text with some non-whitespace, the tokens are exactly its maximal runs:
      each one is a run, and every non-space character lies in one. */
  lemma TokensAreRuns(text: string)
    requires HasNonSpace(text)
    ensures forall k :: 0 <= k < |Tokens(text)| ==> IsRun(text, Span(Tokens(text)[k].start, Tokens(text)[k].end))
    ensures forall p :: 0 <= p < |text| && !IsSpace(text[p]) ==>
      exists k :: 0 <= k < |Tokens(text)| && Tokens(text)[k].start <= p < Tokens(text)[k].end
  {
    RunsFromAreRuns(text, 0);
    RunsFromEmpty(text, 0);
    var rs := RunsFrom(text, 0);
    assert TokenSpans(text) == rs;
    TokensAtSpans(text, rs);
    forall k | 0 <= k < |Tokens(text)|
      ensures IsRun(text, Span(Tokens(text)[k].start, Tokens(text)[k].end))
    {
      assert Span(Tokens(text)[k].start, Tokens(text)[k].end) == rs[k];
    }
    forall p | 0 <= p < |text| && !IsSpace(text[p])
      ensures exists k :: 0 <= k < |Tokens(text)| && Tokens(text)[k].start <= p < Tokens(text)[k].end
    {
      RunsFromCover(text, 0, p);
      var k :| 0 <= k < |rs| && rs[k].start <= p < rs[k].end;
      assert Tokens(text)[k].start <= p < Tokens(text)[k].end;
    }
  }

  /** A non-empty, all-whitespace text yields one token spanning the whole text. */
  lemma BlankTextIsOneToken(text: string)
    requires text != [] && !HasNonSpace(text)
    ensures Tokens(text) == [Token(text, 0, |text|, Sanitize(text))]
  {
    RunsFromEmpty(text, 0);
    assert TokenSpans(text) == [Span(0, |text|)];
    assert text[0..|text|] == text;
  }

  /** Skipping whitespace does not change the matches that follow. */
  lemma {:induction false} RunsFromSkip(text: string, from: nat, start: nat)
    requires from <= start <= |text|
    requires forall k :: from <= k < start ==> IsSpace(text[k])
    ensures RunsFrom(text, from) == RunsFrom(text, start)
    decreases start - from
  {
    if from < start {
      RunsFromSkip(text, from + 1, start);
    }
  }

  /** Where `regex.exec` finds the next match from `lastIndex`: the first
      non-whitespace position, or the end of the text. */
  method NextMatchStart(text: string, lastIndex: nat) returns (start: nat)
    requires lastIndex <= |text|
    ensures lastIndex <= start <= |text|
    ensures forall k :: lastIndex <= k < start ==> IsSpace(text[k])
    ensures start < |text| ==> !IsSpace(text[start])
  {
    start := lastIndex;
    while start < |text| && IsSpace(text[start])
      invariant lastIndex <= start <= |text|
      invariant forall k :: lastIndex <= k < start ==> IsSpace(text[k])
    {
      start := start + 1;
    }
  }

  /** Where the match found at `start` ends: the greedy `\S+`. */
  method MatchEnd(text: string, start: nat) returns (end: nat)
    requires start <= |text|
    ensures end == RunEnd(text, start)
  {
    end := start;
    while end < |text| && !IsSpace(text[end])
      invariant start <= end <= |text|
      invariant RunEnd(text, end) == RunEnd(text, start)
    {
      end := end + 1;
    }
  }

  /** Recording the match found at `start` keeps the loop's bookkeeping: the
      matches so far followed by those after the match are all the matches. */
  lemma MatchStep(text: string, spans: seq<Span>, start: nat, end: nat)
    requires start < |text| && !IsSpace(text[start]) && end == RunEnd(text, start)
    requires SpansWithin(|text|, spans)
    ensures (spans + [Span(start, end)]) + RunsFrom(text, end) == spans + RunsFrom(text, start)
    ensures SpansWithin(|text|, spans + [Span(start, end)])
    ensures TokensAt(text, spans + [Span(start, end)]) == TokensAt(text, spans) + [MakeToken(text, start, end)]
  {
    assert RunsFrom(text, start) == [Span(start, end)] + RunsFrom(text, end);
    TokensAtSnoc(text, spans, Span(start, end));
  }

  /** The `while (regex.exec(text))` loop of `tokenize`: one token per match. */
  method MatchAll(text: string) returns (tokens: seq<Token>)
    ensures SpansWithin(|text|, RunsFrom(text, 0)) && tokens == TokensAt(text, RunsFrom(text, 0))
  {
    tokens := [];
    ghost var spans: seq<Span> := [];
    var lastIndex := 0;
    var done := false;
    while !done
      invariant 0 <= lastIndex <= |text|
      invariant spans + RunsFrom(text, lastIndex) == RunsFrom(text, 0)
      invariant SpansWithin(|text|, spans) && tokens == TokensAt(text, spans)
      invariant done ==> RunsFrom(text, lastIndex) == []
      decreases |text| - lastIndex, !done
    {
      var start := NextMatchStart(text, lastIndex);
      RunsFromSkip(text, lastIndex, start);
      if start == |text| {
        done := true;
      } else {
        var end := MatchEnd(text, start);
        ghost var m := Span(start, end);
        MatchStep(text, spans, start, end);
        tokens := tokens + [MakeToken(text, start, end)];
        spans := spans + [m];
        lastIndex := end;
      }
    }
    assert spans == RunsFrom(text, 0);
  }

  /** `tokenize`: the matches, then the whole-text fallback. */
  method Tokenize(text: string) returns (tokens: seq<Token>)
    ensures tokens == Tokens(text)
  {
    tokens := MatchAll(text);
    if |tokens| == 0 && |text| > 0 {
      tokens := [MakeToken(text, 0, |text|)];
    }
  }

  // ------------------------------------------------------ findBestFuzzyMatch

  datatype MatchCandidate = MatchCandidate(score: Score, substring: string, start: nat, end: nat)

  /** The initial `bestMatch`, kept when no window scores above 0. */
  const Sentinel := MatchCandidate(0.0, "", 0, 0)

  /** The window of `size` tokens starting at token `first`. */
  datatype Window = Window(size: nat, first: nat)

  predicate Fits(x: Window, n: nat) {
    1 <= x.size && x.first + x.size <= n
  }

  /** The traversal order of the two loops: by size, then by first token. */
  predicate Precedes(x: Window, y: Window) {
    x.size < y.size || (x.size == y.size && x.first < y.first)
  }

  function MinWindow(queryWords: nat, n: nat): int { Max(3, Min(queryWords, n)) }
  function MaxWindow(queryWords: nat, n: nat): int { Min(n, queryWords + 8) }

  /** Window `y` is one of those the inner loop visits for `size` from index `i` on,
      with `n` tokens. */
  predicate InRow(size: nat, i: nat, n: nat, y: Window) {
    y.size == size && i <= y.first && y.first + size <= n
  }

  /** Window `y` is one of those the two loops visit for sizes `lo..hi`. */
  predicate InRows(lo: int, hi: int, n: nat, y: Window) {
    lo <= y.size <= hi && y.first + y.size <= n
  }

  /** The windows the two loops score, for `queryWords` query words and `n` tokens. */
  predicate Scored(queryWords: nat, n: nat, x: Window) {
    InRows(MinWindow(queryWords, n), MaxWindow(queryWords, n), n, x)
  }

  /** `slice.map((token) => token.normalized).join(' ')` */
  function JoinWithSpace(parts: seq<string>): string {
    if |parts| == 0 then ""
    else if |parts| == 1 then parts[0]
    else parts[0] + " " + JoinWithSpace(parts[1..])
  }

  function NormalizedForms(toks: seq<Token>): seq<string> {
    seq(|toks|, k requires 0 <= k < |toks| => toks[k].normalized)
  }

  function WindowScore(compare: Similarity, query: string, toks: seq<Token>, x: Window): Score
    requires x.first + x.size <= |toks|
  {
    compare(query, JoinWithSpace(NormalizedForms(toks[x.first..x.first + x.size])))
  }

  /** The candidate a window stands for: its score and the original text from
      its first token's start to its last token's end. */
  function CandidateAt(compare: Similarity, query: string, text: string, toks: seq<Token>, x: Window): MatchCandidate
    requires Placed(|text|, toks) && Fits(x, |toks|)
  {
    var start := toks[x.first].start;
    var end := toks[x.first + x.size - 1].end;
    assert start <= end by {
      if x.size > 1 {
        assert toks[x.first].end < toks[x.first + x.size - 1].start;
      }
    }
    MatchCandidate(WindowScore(compare, query, toks, x), text[start..end], start, end)
  }

  /** One iteration of the inner loop: replace `best` only on a strictly higher score. */
  function Step(compare: Similarity, query: string, text: string, toks: seq<Token>,
                best: MatchCandidate, x: Window): MatchCandidate
    requires Placed(|text|, toks) && Fits(x, |toks|)
  {
    if WindowScore(compare, query, toks, x) > best.score then CandidateAt(compare, query, text, toks, x)
    else best
  }

  /** The inner loop from index `i` on: `bestMatch` after visiting the windows of
      `size` tokens that start at `i`, `i + 1`, ... */
  function RowFold(compare: Similarity, query: string, text: string, toks: seq<Token>,
                   best: MatchCandidate, size: nat, i: nat): MatchCandidate
    requires Placed(|text|, toks) && 1 <= size
    decreases |toks| - i
  {
    if i + size > |toks| then best
    else RowFold(compare, query, text, toks, Step(compare, query, text, toks, best, Window(size, i)), size, i + 1)
  }

  /** The outer loop from `size` on: `bestMatch` after visiting every window of
      sizes `size..hi`. */
  function SizeFold(compare: Similarity, query: string, text: string, toks: seq<Token>,
                    best: MatchCandidate, size: nat, hi: int): MatchCandidate
    requires Placed(|text|, toks) && 1 <= size
    decreases hi - size + 1
  {
    if size > hi then best
    else SizeFold(compare, query, text, toks, RowFold(compare, query, text, toks, best, size, 0), size + 1, hi)
  }

  /** The inner loop never lowers the score and ends at or above every window it
      visits. */
  lemma {:induction false} RowFoldBound(compare: Similarity, query: string, text: string, toks: seq<Token>,
                                        best: MatchCandidate, size: nat, i: nat)
    requires Placed(|text|, toks) && 1 <= size
    ensures best.score <= RowFold(compare, query, text, toks, best, size, i).score
    ensures forall y :: InRow(size, i, |toks|, y) ==>
      WindowScore(compare, query, toks, y) <= RowFold(compare, query, text, toks, best, size, i).score
    decreases |toks| - i
  {
    if i + size <= |toks| {
      var next := Step(compare, query, text, toks, best, Window(size, i));
      RowFoldBound(compare, query, text, toks, next, size, i + 1);
      forall y | InRow(size, i, |toks|, y) && y.first > i
        ensures WindowScore(compare, query, toks, y) <= RowFold(compare, query, text, toks, best, size, i).score
      {
        assert InRow(size, i + 1, |toks|, y);
      }
    }
  }

  /** The window whose candidate the inner loop from `i` on ends with, or `None`
      when it keeps `best`. */
  ghost function RowPick(compare: Similarity, query: string, text: string, toks: seq<Token>,
                         best: MatchCandidate, size: nat, i: nat): Option<Window>
    requires Placed(|text|, toks) && 1 <= size
    decreases |toks| - i
  {
    if i + size > |toks| then None
    else
      var w := Window(size, i);
      match RowPick(compare, query, text, toks, Step(compare, query, text, toks, best, w), size, i + 1)
      case Some(x) => Some(x)
      case None => if WindowScore(compare, query, toks, w) > best.score then Some(w) else None
  }

  /** The inner loop either keeps `best`, or ends at the candidate of a visited
      window that beats `best` and every window visited before it. */
  lemma {:induction false} RowPickSpec(compare: Similarity, query: string, text: string, toks: seq<Token>,
                                       best: MatchCandidate, size: nat, i: nat)
    requires Placed(|text|, toks) && 1 <= size
    ensures RowPick(compare, query, text, toks, best, size, i).None? ==>
      RowFold(compare, query, text, toks, best, size, i) == best
    ensures RowPick(compare, query, text, toks, best, size, i).Some? ==>
      && InRow(size, i, |toks|, RowPick(compare, query, text, toks, best, size, i).value)
      && RowFold(compare, query, text, toks, best, size, i)
         == CandidateAt(compare, query, text, toks, RowPick(compare, query, text, toks, best, size, i).value)
      && best.score < RowFold(compare, query, text, toks, best, size, i).score
      && forall y :: InRow(size, i, |toks|, y) && y.first < RowPick(compare, query, text, toks, best, size, i).value.first ==>
           WindowScore(compare, query, toks, y) < RowFold(compare, query, text, toks, best, size, i).score
    decreases |toks| - i
  {
    if i + size <= |toks| {
      var w := Window(size, i);
      var next := Step(compare, query, text, toks, best, w);
      var r := RowFold(compare, query, text, toks, best, size, i);
      assert r == RowFold(compare, query, text, toks, next, size, i + 1);
      RowPickSpec(compare, query, text, toks, next, size, i + 1);
      var later := RowPick(compare, query, text, toks, next, size, i + 1);
      if later.Some? {
        var x := later.value;
        forall y | InRow(size, i, |toks|, y) && y.first < x.first
          ensures WindowScore(compare, query, toks, y) < r.score
        {
          if y.first == i {
            assert y == w;
          } else {
            assert InRow(size, i + 1, |toks|, y);
          }
        }
      }
    }
  }

  /** The outer loop never lowers the score and ends at or above every window it
      visits. */
  lemma {:induction false} SizeFoldBound(compare: Similarity, query: string, text: string, toks: seq<Token>,
                                         best: MatchCandidate, size: nat, hi: int)
    requires Placed(|text|, toks) && 1 <= size
    ensures best.score <= SizeFold(compare, query, text, toks, best, size, hi).score
    ensures forall y :: InRows(size, hi, |toks|, y) ==>
      WindowScore(compare, query, toks, y) <= SizeFold(compare, query, text, toks, best, size, hi).score
    decreases hi - size + 1
  {
    if size <= hi {
      var row := RowFold(compare, query, text, toks, best, size, 0);
      RowFoldBound(compare, query, text, toks, best, size, 0);
      SizeFoldBound(compare, query, text, toks, row, size + 1, hi);
      forall y | InRows(size, hi, |toks|, y)
        ensures WindowScore(compare, query, toks, y) <= SizeFold(compare, query, text, toks, best, size, hi).score
      {
        if y.size == size {
          assert InRow(size, 0, |toks|, y);
        } else {
          assert InRows(size + 1, hi, |toks|, y);
        }
      }
    }
  }

  /** The window whose candidate the outer loop from `size` on ends with, or
      `None` when it keeps `best`. */
  ghost function SizePick(compare: Similarity, query: string, text: string, toks: seq<Token>,
                          best: MatchCandidate, size: nat, hi: int): Option<Window>
    requires Placed(|text|, toks) && 1 <= size
    decreases hi - size + 1
  {
    if size > hi then None
    else
      match SizePick(compare, query, text, toks, RowFold(compare, query, text, toks, best, size, 0), size + 1, hi)
      case Some(x) => Some(x)
      case None => RowPick(compare, query, text, toks, best, size, 0)
  }

  /** The outer loop either keeps `best`, or ends at the candidate of a visited
      window that beats `best` and every window visited before it. */
  lemma {:induction false} SizePickSpec(compare: Similarity, query: string, text: string, toks: seq<Token>,
                                        best: MatchCandidate, size: nat, hi: int)
    requires Placed(|text|, toks) && 1 <= size
    ensures SizePick(compare, query, text, toks, best, size, hi).None? ==>
      SizeFold(compare, query, text, toks, best, size, hi) == best
    ensures SizePick(compare, query, text, toks, best, size, hi).Some? ==>
      && InRows(size, hi, |toks|, SizePick(compare, query, text, toks, best, size, hi).value)
      && SizeFold(compare, query, text, toks, best, size, hi)
         == CandidateAt(compare, query, text, toks, SizePick(compare, query, text, toks, best, size, hi).value)
      && best.score < SizeFold(compare, query, text, toks, best, size, hi).score
      && forall y :: InRows(size, hi, |toks|, y) && Precedes(y, SizePick(compare, query, text, toks, best, size, hi).value) ==>
           WindowScore(compare, query, toks, y) < SizeFold(compare, query, text, toks, best, size, hi).score
    decreases hi - size + 1
  {
    if size <= hi {
      var row := RowFold(compare, query, text, toks, best, size, 0);
      var r := SizeFold(compare, query, text, toks, best, size, hi);
      assert r == SizeFold(compare, query, text, toks, row, size + 1, hi);
      RowPickSpec(compare, query, text, toks, best, size, 0);
      SizePickSpec(compare, query, text, toks, row, size + 1, hi);
      var later := SizePick(compare, query, text, toks, row, size + 1, hi);
      if later.Some? {
        var x := later.value;
        RowFoldBound(compare, query, text, toks, best, size, 0);
        forall y | InRows(size, hi, |toks|, y) && Precedes(y, x)
          ensures WindowScore(compare, query, toks, y) < r.score
        {
          if y.size == size {
            assert InRow(size, 0, |toks|, y);
          } else {
            assert InRows(size + 1, hi, |toks|, y);
          }
        }
      } else {
        var pick := RowPick(compare, query, text, toks, best, size, 0);
        if pick.Some? {
          forall y | InRows(size, hi, |toks|, y) && Precedes(y, pick.value)
            ensures WindowScore(compare, query, toks, y) < r.score
          {
            assert InRow(size, 0, |toks|, y);
          }
        }
      }
    }
  }

  /** The two loops over the tokens of the page: `bestMatch` after every
      admissible window size, starting from the sentinel. It is the sentinel or
      the candidate of a visited window, so it reports the page text between
      its own offsets. */
  function MatchTokens(compare: Similarity, normalizedQuery: string, text: string, toks: seq<Token>): (r: MatchCandidate)
    requires Placed(|text|, toks)
    ensures r.start <= r.end <= |text| && r.substring == text[r.start..r.end]
  {
    var q := SplitLength(normalizedQuery);
    SizePickSpec(compare, normalizedQuery, text, toks, Sentinel, MinWindow(q, |toks|), MaxWindow(q, |toks|));
    SizeFold(compare, normalizedQuery, text, toks, Sentinel, MinWindow(q, |toks|), MaxWindow(q, |toks|))
  }

  /** `findBestFuzzyMatch(query, pageText)`: absent exactly when the sanitised
      query or the page text is empty; otherwise the window scan over the
      page's tokens. */
  function BestFuzzyMatch(compare: Similarity, query: string, pageText: string): (r: Option<MatchCandidate>)
    ensures r.None? <==> Sanitize(query) == [] || pageText == []
    ensures r.Some? ==> r.value.start <= r.value.end <= |pageText|
                        && r.value.substring == pageText[r.value.start..r.value.end]
  {
    var normalizedQuery := Sanitize(query);
    if normalizedQuery == [] || pageText == [] then None
    else
      var toks := Tokens(pageText);
      if |toks| == 0 then None
      else Some(MatchTokens(compare, normalizedQuery, pageText, toks))
  }

  /** The reported score is at least the score of every window the loops visit:
      sizes from max(3, min(q, n)) to min(n, q + 8), every start. */
  lemma MatchIsMaximal(compare: Similarity, normalizedQuery: string, text: string, toks: seq<Token>, x: Window)
    requires Placed(|text|, toks)
    requires Scored(SplitLength(normalizedQuery), |toks|, x)
    ensures WindowScore(compare, normalizedQuery, toks, x)
            <= MatchTokens(compare, normalizedQuery, text, toks).score
  {
    var q := SplitLength(normalizedQuery);
    SizeFoldBound(compare, normalizedQuery, text, toks, Sentinel, MinWindow(q, |toks|), MaxWindow(q, |toks|));
  }

  /** A positive result is the candidate of a visited window that reaches the
      best score, and every window visited before it scores strictly less
      (the update is a strict `>`); a zero result is the sentinel. */
  lemma MatchIsFirstBest(compare: Similarity, normalizedQuery: string, text: string, toks: seq<Token>)
    requires Placed(|text|, toks)
    ensures MatchTokens(compare, normalizedQuery, text, toks).score == 0.0 ==>
      MatchTokens(compare, normalizedQuery, text, toks) == Sentinel
    ensures MatchTokens(compare, normalizedQuery, text, toks).score > 0.0 ==>
      exists x :: Scored(SplitLength(normalizedQuery), |toks|, x) && Fits(x, |toks|)
                  && MatchTokens(compare, normalizedQuery, text, toks) == CandidateAt(compare, normalizedQuery, text, toks, x)
                  && forall y :: Scored(SplitLength(normalizedQuery), |toks|, y) && Precedes(y, x) ==>
                       WindowScore(compare, normalizedQuery, toks, y) < MatchTokens(compare, normalizedQuery, text, toks).score
  {
    var q := SplitLength(normalizedQuery);
    var lo, hi := MinWindow(q, |toks|), MaxWindow(q, |toks|);
    SizePickSpec(compare, normalizedQuery, text, toks, Sentinel, lo, hi);
    var pick := SizePick(compare, normalizedQuery, text, toks, Sentinel, lo, hi);
    if pick.Some? {
      assert Scored(q, |toks|, pick.value) && Fits(pick.value, |toks|);
    }
  }

  /** The candidate of a window starts at its first token and ends at its last. */
  lemma CandidateOffsets(compare: Similarity, query: string, text: string, toks: seq<Token>, x: Window)
    requires Placed(|text|, toks) && Fits(x, |toks|)
    ensures CandidateAt(compare, query, text, toks, x).start == toks[x.first].start
    ensures CandidateAt(compare, query, text, toks, x).end == toks[x.first + x.size - 1].end
    ensures CandidateAt(compare, query, text, toks, x).score == WindowScore(compare, query, toks, x)
  {
  }

  /** With fewer than three tokens no window size is admissible, so the result is
      the sentinel. */
  lemma FewTokensGiveSentinel(compare: Similarity, normalizedQuery: string, text: string, toks: seq<Token>)
    requires Placed(|text|, toks) && |toks| < 3
    ensures MatchTokens(compare, normalizedQuery, text, toks) == Sentinel
  {
    var q := SplitLength(normalizedQuery);
    assert MinWindow(q, |toks|) > MaxWindow(q, |toks|);
  }

  /** When scoring identical strings gives 1 and some visited window's joined
      normalised text equals the sanitised query, the reported score is 1. */
  lemma IdenticalWindowScoresOne(compare: Similarity, normalizedQuery: string, text: string, toks: seq<Token>, x: Window)
    requires Placed(|text|, toks)
    requires compare(normalizedQuery, normalizedQuery) == 1.0
    requires Scored(SplitLength(normalizedQuery), |toks|, x)
    requires JoinWithSpace(NormalizedForms(toks[x.first..x.first + x.size])) == normalizedQuery
    ensures MatchTokens(compare, normalizedQuery, text, toks).score == 1.0
  {
    MatchIsMaximal(compare, normalizedQuery, text, toks, x);
  }

  /** The inner `for` loop of `findBestFuzzyMatch`: every window of
      `windowSize` tokens, by increasing start. */
  method ScanRow(compare: Similarity, normalizedQuery: string, pageText: string, tokens: seq<Token>,
                 windowSize: nat, bestMatch0: MatchCandidate)
    returns (bestMatch: MatchCandidate)
    requires Placed(|pageText|, tokens) && 1 <= windowSize
    ensures bestMatch == RowFold(compare, normalizedQuery, pageText, tokens, bestMatch0, windowSize, 0)
  {
    bestMatch := bestMatch0;
    var i := 0;
    while i <= |tokens| - windowSize
      invariant 0 <= i
      invariant RowFold(compare, normalizedQuery, pageText, tokens, bestMatch, windowSize, i)
                == RowFold(compare, normalizedQuery, pageText, tokens, bestMatch0, windowSize, 0)
      decreases |tokens| - i
    {
      var slice := tokens[i..i + windowSize];
      var normalizedSlice := JoinWithSpace(NormalizedForms(slice));
      var score := compare(normalizedQuery, normalizedSlice);
      ghost var next := Step(compare, normalizedQuery, pageText, tokens, bestMatch, Window(windowSize, i));
      if score > bestMatch.score {
        var start := slice[0].start;
        var end := slice[|slice| - 1].end;
        var substring := pageText[start..end];
        bestMatch := MatchCandidate(score, substring, start, end);
      }
      assert bestMatch == next;
      i := i + 1;
    }
  }

  /** The outer `for` loop of `findBestFuzzyMatch`: window sizes from
      max(3, min(q, n)) to min(n, q + 8). */
  method ScanWindows(compare: Similarity, normalizedQuery: string, pageText: string, tokens: seq<Token>)
    returns (bestMatch: MatchCandidate)
    requires Placed(|pageText|, tokens)
    ensures bestMatch == MatchTokens(compare, normalizedQuery, pageText, tokens)
  {
    var n := |tokens|;
    var queryWords := SplitLength(normalizedQuery);
    var minWindow := Max(3, Min(queryWords, n));
    var maxWindow := Min(n, queryWords + 8);
    bestMatch := Sentinel;
    var windowSize := minWindow;
    while windowSize <= maxWindow
      invariant minWindow <= windowSize
      invariant SizeFold(compare, normalizedQuery, pageText, tokens, bestMatch, windowSize, maxWindow)
                == MatchTokens(compare, normalizedQuery, pageText, tokens)
      decreases maxWindow - windowSize
    {
      bestMatch := ScanRow(compare, normalizedQuery, pageText, tokens, windowSize, bestMatch);
      windowSize := windowSize + 1;
    }
  }

  /** `findBestFuzzyMatch`. */
  method FindBestFuzzyMatch(compare: Similarity, query: string, pageText: string)
    returns (r: Option<MatchCandidate>)
    ensures r == BestFuzzyMatch(compare, query, pageText)
  {
    var normalizedQuery := Sanitize(query);
    if normalizedQuery == [] || pageText == [] {
      return None;
    }
    var tokens := Tokenize(pageText);
    if |tokens| == 0 {
      return None;
    }
    var bestMatch := ScanWindows(compare, normalizedQuery, pageText, tokens);
    return Some(bestMatch);
  }
}
