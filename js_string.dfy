/**
 * The few JavaScript string built-ins the core relies on: the `\s` character
 * class, `trim`, `indexOf`, and ASCII case mapping.
 */
module JsString {

  /** The code points JavaScript's `\s` matches and `String.prototype.trim` removes
      (WhiteSpace and LineTerminator). */
  predicate IsSpace(c: char) {
    || c == ' ' || c == '\t' || c == '\n' || c == '\r' || c == '\U{000B}' || c == '\U{000C}'
    || c == '\U{00A0}' || c == '\U{1680}' || ('\U{2000}' <= c <= '\U{200A}')
    || c == '\U{2028}' || c == '\U{2029}' || c == '\U{202F}' || c == '\U{205F}'
    || c == '\U{3000}' || c == '\U{FEFF}'
  }

  /** `toLowerCase` on one character, restricted to ASCII letters. */
  function LowerChar(c: char): char {
    if 'A' <= c <= 'Z' then (c as int + 32) as char else c
  }

  /** `toUpperCase` on one character, restricted to ASCII letters. */
  function UpperChar(c: char): char {
    if 'a' <= c <= 'z' then (c as int - 32) as char else c
  }

  /** Removes the leading whitespace. */
  function TrimStart(s: string): (r: string)
    ensures |r| <= |s|
  {
    if s != [] && IsSpace(s[0]) then TrimStart(s[1..]) else s
  }

  /** Removes the trailing whitespace. */
  function TrimEnd(s: string): (r: string)
    ensures |r| <= |s|
  {
    if s != [] && IsSpace(s[|s| - 1]) then TrimEnd(s[..|s| - 1]) else s
  }

  /** `TrimStart` leaves the suffix of `s` that starts at its first non-space
      character. */
  lemma {:induction false} TrimStartSpec(s: string)
    ensures var r := TrimStart(s);
      && r == s[|s| - |r|..]
      && (r == [] || !IsSpace(r[0]))
      && (forall i :: 0 <= i < |s| - |r| ==> IsSpace(s[i]))
  {
    if s != [] && IsSpace(s[0]) {
      TrimStartSpec(s[1..]);
      var r := TrimStart(s);
      forall i | 0 < i < |s| - |r|
        ensures IsSpace(s[i])
      {
        assert s[i] == s[1..][i - 1];
      }
    }
  }

  /** `TrimEnd` leaves the prefix of `s` that ends at its last non-space
      character. */
  lemma {:induction false} TrimEndSpec(s: string)
    ensures var r := TrimEnd(s);
      && r == s[..|r|]
      && (r == [] || !IsSpace(r[|r| - 1]))
      && (forall i :: |r| <= i < |s| ==> IsSpace(s[i]))
  {
    if s != [] && IsSpace(s[|s| - 1]) {
      TrimEndSpec(s[..|s| - 1]);
      var r := TrimEnd(s);
      forall i | |r| <= i < |s| - 1
        ensures IsSpace(s[i])
      {
        assert s[i] == s[..|s| - 1][i];
      }
    }
  }

  /** `String.prototype.trim`. */
  function Trim(s: string): string {
    TrimEnd(TrimStart(s))
  }

  /** No whitespace at either end: what `trim` leaves. */
  predicate IsTrimmed(s: string) {
    s == [] || (!IsSpace(s[0]) && !IsSpace(s[|s| - 1]))
  }

  /** `trim` cuts away exactly the whitespace at both ends of `s`: the result sits
      in `s` right after the leading whitespace, everything around it is
      whitespace, and it has no whitespace at either end. */
  lemma TrimSpec(s: string)
    ensures var k, r := |s| - |TrimStart(s)|, Trim(s);
      && IsTrimmed(r)
      && k + |r| <= |s|
      && r == s[k..k + |r|]
      && (forall i :: 0 <= i < k ==> IsSpace(s[i]))
      && (forall i :: k + |r| <= i < |s| ==> IsSpace(s[i]))
  {
    var t := TrimStart(s);
    var r := TrimEnd(t);
    var k := |s| - |t|;
    TrimStartSpec(s);
    TrimEndSpec(t);
    assert t == s[k..];
    assert r == t[..|r|];
    assert s[k..][..|r|] == s[k..k + |r|];
    forall i | k + |r| <= i < |s|
      ensures IsSpace(s[i])
    {
      assert s[i] == t[i - k];
    }
  }

  /** `trim` changes nothing on a string that is already trimmed, so it is idempotent. */
  lemma TrimOfTrimmed(s: string)
    requires IsTrimmed(s)
    ensures Trim(s) == s
  {
    assert TrimStart(s) == s;
  }

  lemma TrimIdempotent(s: string)
    ensures Trim(Trim(s)) == Trim(s)
  {
    TrimSpec(s);
    TrimOfTrimmed(Trim(s));
  }

  /** `trim` gives the empty string exactly when `s` is empty or all whitespace. */
  lemma {:induction false} TrimEmptyIffBlank(s: string)
    ensures Trim(s) == [] <==> forall i :: 0 <= i < |s| ==> IsSpace(s[i])
  {
    var t := TrimStart(s);
    TrimStartSpec(s);
    TrimEndSpec(t);
    if t != [] {
      assert !IsSpace(s[|s| - |t|]);
    }
  }

  /** `pat` occurs in `text` at position `j`. */
  predicate OccursAt(text: string, pat: string, j: int) {
    0 <= j && j + |pat| <= |text| && text[j..j + |pat|] == pat
  }

  /** `text.indexOf(pat, from)` for `from <= |text|`. */
  function IndexFrom(text: string, pat: string, from: nat): (r: int)
    requires from <= |text|
    ensures r == -1 || (from <= r && OccursAt(text, pat, r))
    ensures r == -1 ==> forall j :: from <= j ==> !OccursAt(text, pat, j)
    ensures r != -1 ==> forall j :: from <= j < r ==> !OccursAt(text, pat, j)
    decreases |text| - from
  {
    if from + |pat| > |text| then -1
    else if text[from..from + |pat|] == pat then from
    else if from + |pat| == |text| then -1
    else IndexFrom(text, pat, from + 1)
  }

  /** `text.indexOf(pat)`: the first position at which `pat` occurs, or -1 when it
      occurs nowhere. */
  function IndexOf(text: string, pat: string): (r: int)
    ensures r == -1 <==> forall j :: !OccursAt(text, pat, j)
    ensures r != -1 ==> OccursAt(text, pat, r) && forall j :: 0 <= j < r ==> !OccursAt(text, pat, j)
  {
    IndexFrom(text, pat, 0)
  }
}
