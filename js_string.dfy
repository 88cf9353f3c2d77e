/**
 * The three JavaScript string operations the reporter relies on, on strings of
 * Unicode characters: `String.prototype.trim`, `String.prototype.indexOf` and
 * `String.prototype.replace` with a string pattern and an empty replacement.
 */
module JsString {
  import opened Wrappers

  /** WhiteSpace and LineTerminator as ECMAScript defines them: the characters `trim` strips. */
  predicate IsWhitespace(c: char) {
    || c == '\t' || c == '\n' || c == '\U{000B}' || c == '\U{000C}' || c == '\r'
    || c == ' ' || c == '\U{00A0}' || c == '\U{1680}'
    || ('\U{2000}' <= c <= '\U{200A}')
    || c == '\U{2028}' || c == '\U{2029}' || c == '\U{202F}' || c == '\U{205F}'
    || c == '\U{3000}' || c == '\U{FEFF}'
  }

  ghost predicate AllWhitespace(s: string) {
    forall i :: 0 <= i < |s| ==> IsWhitespace(s[i])
  }

  /** No whitespace at either end. */
  ghost predicate Trimmed(s: string) {
    s == [] || (!IsWhitespace(s[0]) && !IsWhitespace(s[|s| - 1]))
  }

  /** `s.trimStart()`. */
  function TrimStart(s: string): (r: string)
    ensures |r| <= |s|
  {
    if |s| > 0 && IsWhitespace(s[0]) then TrimStart(s[1..]) else s
  }

  /** `s.trimEnd()`. */
  function TrimEnd(s: string): (r: string)
    ensures |r| <= |s|
  {
    if |s| > 0 && IsWhitespace(s[|s| - 1]) then TrimEnd(s[..|s| - 1]) else s
  }

  /** `s.trim()`. */
  function Trim(s: string): (r: string)
    ensures |r| <= |s|
  {
    TrimEnd(TrimStart(s))
  }

  /** Trimming the start drops exactly the leading whitespace: the result is the suffix of
      `s` that starts at its first non-whitespace character. */
  lemma {:induction false} TrimStartSpec(s: string)
    ensures var r := TrimStart(s);
            && r == s[|s| - |r|..]
            && AllWhitespace(s[..|s| - |r|])
            && (r == [] || !IsWhitespace(r[0]))
  {
    if |s| > 0 && IsWhitespace(s[0]) {
      TrimStartSpec(s[1..]);
      var r := TrimStart(s[1..]);
      assert s[..|s| - |r|] == [s[0]] + s[1..][..|s| - 1 - |r|];
    }
  }

  /** Trimming the end drops exactly the trailing whitespace: the result is the prefix of
      `s` that ends at its last non-whitespace character. */
  lemma {:induction false} TrimEndSpec(s: string)
    ensures var r := TrimEnd(s);
            && r == s[..|r|]
            && AllWhitespace(s[|r|..])
            && (r == [] || !IsWhitespace(r[|r| - 1]))
  {
    if |s| > 0 && IsWhitespace(s[|s| - 1]) {
      TrimEndSpec(s[..|s| - 1]);
      var r := TrimEnd(s[..|s| - 1]);
      assert s[|r|..] == s[..|s| - 1][|r|..] + [s[|s| - 1]];
    }
  }

  /** `s.trim()` is the slice of `s` between its leading and its trailing whitespace, and has
      no whitespace at either end. */
  lemma TrimSpec(s: string)
    ensures Trimmed(Trim(s))
    ensures exists i, j :: 0 <= i <= j <= |s| && Trim(s) == s[i..j]
                       && AllWhitespace(s[..i]) && AllWhitespace(s[j..])
  {
    var t := TrimStart(s);
    var r := TrimEnd(t);
    TrimStartSpec(s);
    TrimEndSpec(t);
    var i := |s| - |t|;
    assert r == s[i..i + |r|];
    assert s[..i + |r|][..i] == s[..i];
    assert s[i + |r|..] == t[|r|..];
    assert r == [] ==> t == [] || AllWhitespace(t);
  }

  /** `pat` occurs in `s` starting at index `k`. */
  predicate OccursAt(s: string, pat: string, k: nat) {
    k + |pat| <= |s| && s[k..k + |pat|] == pat
  }

  /** The first index at or after `from` where `pat` occurs in `s`, if any. */
  function IndexOfFrom(s: string, pat: string, from: nat): (r: Option<nat>)
    requires from <= |s|
    ensures r.Some? ==> OccursAt(s, pat, r.value)
    decreases |s| - from
  {
    if OccursAt(s, pat, from) then Some(from)
    else if from == |s| then None
    else IndexOfFrom(s, pat, from + 1)
  }

  /** The search from `from` finds the first occurrence at or after `from`, and finds none
      exactly when there is none from there on. */
  lemma {:induction false} IndexOfFromSpec(s: string, pat: string, from: nat)
    requires from <= |s|
    ensures var r := IndexOfFrom(s, pat, from);
            && (r.Some? ==> from <= r.value && forall j :: from <= j < r.value ==> !OccursAt(s, pat, j))
            && (r.None? ==> forall j :: from <= j <= |s| ==> !OccursAt(s, pat, j))
    decreases |s| - from
  {
    if !OccursAt(s, pat, from) && from < |s| {
      IndexOfFromSpec(s, pat, from + 1);
    }
  }

  /** `s.indexOf(pat)`: the first index where `pat` occurs in `s`; the empty pattern occurs at 0. */
  function IndexOf(s: string, pat: string): (r: Option<nat>)
    ensures r.Some? ==> OccursAt(s, pat, r.value)
  {
    IndexOfFrom(s, pat, 0)
  }

  /** `indexOf` finds a match exactly when the pattern occurs somewhere, and the match is the
      first occurrence. */
  lemma IndexOfSpec(s: string, pat: string)
    ensures IndexOf(s, pat).Some? <==> exists j :: OccursAt(s, pat, j)
    ensures IndexOf(s, pat).Some? ==> OccursAt(s, pat, IndexOf(s, pat).value)
    ensures IndexOf(s, pat).Some? ==> forall j :: 0 <= j < IndexOf(s, pat).value ==> !OccursAt(s, pat, j)
  {
    IndexOfFromSpec(s, pat, 0);
    assert forall j: nat :: OccursAt(s, pat, j) ==> j <= |s|;
  }

  /** `s.replace(pat, '')`: the first occurrence of `pat` removed, `s` itself when there is none. */
  function RemoveFirst(s: string, pat: string): (r: string)
    ensures |r| <= |s|
  {
    match IndexOf(s, pat)
    case None => s
    case Some(k) => s[..k] + s[k + |pat|..]
  }

  /** Without an occurrence nothing is removed; with one, the result is `|pat|` shorter and
      putting `pat` back at the first occurrence gives `s` again. */
  lemma RemoveFirstSpec(s: string, pat: string)
    ensures IndexOf(s, pat).None? ==> RemoveFirst(s, pat) == s
    ensures IndexOf(s, pat).Some? ==>
              var k := IndexOf(s, pat).value;
              var r := RemoveFirst(s, pat);
              |r| == |s| - |pat| && r[..k] + pat + r[k..] == s
  {
    if IndexOf(s, pat).Some? {
      var k := IndexOf(s, pat).value;
      var r := RemoveFirst(s, pat);
      assert r[..k] == s[..k] && r[k..] == s[k + |pat|..];
      assert s[..k] + pat + s[k + |pat|..] == s[..k] + s[k..k + |pat|] + s[k + |pat|..];
      assert s[..k] + s[k..k + |pat|] + s[k + |pat|..] == s;
    }
  }

  /** Removing the empty pattern changes nothing. */
  lemma RemoveEmpty(s: string)
    ensures RemoveFirst(s, "") == s
  {
    assert OccursAt(s, "", 0);
  }

  /** Trimming is idempotent. */
  lemma TrimIdempotent(s: string)
    ensures Trim(Trim(s)) == Trim(s)
  {
    TrimSpec(s);
    TrimmedFixed(Trim(s));
  }

  /** A string without whitespace at either end is its own trim. */
  lemma TrimmedFixed(t: string)
    requires Trimmed(t)
    ensures Trim(t) == t
  {
    assert TrimStart(t) == t;
    assert TrimEnd(t) == t;
  }
}
