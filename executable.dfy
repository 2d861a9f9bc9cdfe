/** `extract_executable` (src/main.rs:46-52): the first match of the regex
    `"(.+?)"` in a launch command, quotes included, or "" when there is none.
    The regex is replaced by an explicit left-to-right scanner with the same
    leftmost-first, lazy semantics: the leftmost opening quote that starts a
    match, then the nearest closing quote that leaves at least one character
    between the two; `.` matches every character except '\n'. */
module Executable {
  import opened Wrappers
  import opened Text

  /** `s[i..j+1]` matches `"(.+?)"`: a quote at `i`, a quote at `j`, at least
      one character between them, and no line feed among those characters. */
  predicate IsMatch(s: string, i: int, j: int) {
    0 <= i && i + 2 <= j < |s| && s[i] == '"' && s[j] == '"' && NoNewline(s, i + 1, j)
  }

  /** The match the regex engine reports: leftmost start, then the lazy
      (shortest) end for that start. */
  ghost predicate IsFirstMatch(s: string, i: int, j: int) {
    && IsMatch(s, i, j)
    && (forall k :: i + 2 <= k < j ==> s[k] != '"')
    && (forall i', j' :: 0 <= i' < i ==> !IsMatch(s, i', j'))
  }

  /** The nearest quote at or after `j`, provided no line feed comes first. */
  function CloseFrom(s: string, j: nat): (r: Option<nat>)
    ensures r.Some? ==> && j <= r.value < |s| && s[r.value] == '"'
                        && NoNewline(s, j, r.value)
                        && forall k :: j <= k < r.value ==> s[k] != '"'
    ensures r.None? ==> forall k :: j <= k < |s| && s[k] == '"' ==> !NoNewline(s, j, k)
    decreases |s| - j
  {
    if j >= |s| then None
    else if s[j] == '"' then Some(j)
    else if s[j] == '\n' then None
    else CloseFrom(s, j + 1)
  }

  /** The end of the shortest match that starts at `i`, if any. */
  function MatchFrom(s: string, i: nat): (r: Option<nat>)
    requires i < |s|
    ensures r.Some? ==> IsMatch(s, i, r.value) && forall k :: i + 2 <= k < r.value ==> s[k] != '"'
    ensures r.None? ==> forall j :: !IsMatch(s, i, j)
  {
    if s[i] == '"' && i + 1 < |s| && s[i + 1] != '\n' then CloseFrom(s, i + 2) else None
  }

  /** The first match starting at or after `i`, as (start, end) indices. */
  function FirstMatchFrom(s: string, i: nat): (r: Option<(nat, nat)>)
    ensures r.Some? ==> && i <= r.value.0
                        && IsMatch(s, r.value.0, r.value.1)
                        && (forall k :: r.value.0 + 2 <= k < r.value.1 ==> s[k] != '"')
                        && (forall i', j' :: i <= i' < r.value.0 ==> !IsMatch(s, i', j'))
    ensures r.None? ==> forall i', j' :: i <= i' ==> !IsMatch(s, i', j')
    decreases |s| - i
  {
    if i >= |s| then None
    else
      match MatchFrom(s, i)
      case Some(j) => Some((i, j))
      case None => FirstMatchFrom(s, i + 1)
  }

  /** `extract_executable`: the first quoted token, quotes included, or "". */
  function ExtractExecutable(s: string): (r: string)
    ensures |r| <= |s|
    ensures r == "" <==> forall i, j :: !IsMatch(s, i, j)
    ensures r != "" ==> exists i, j :: IsFirstMatch(s, i, j) && r == s[i..j + 1]
    ensures r != "" ==> 3 <= |r| && r[0] == '"' && r[|r| - 1] == '"'
  {
    match FirstMatchFrom(s, 0)
    case Some((i, j)) =>
      assert IsFirstMatch(s, i, j);
      s[i..j + 1]
    case None => ""
  }

  /** The regex engine's choice is determined: at most one (start, end) pair
      is the first match. */
  lemma FirstMatchUnique(s: string, i: int, j: int, i': int, j': int)
    requires IsFirstMatch(s, i, j) && IsFirstMatch(s, i', j')
    ensures i == i' && j == j'
  {
  }

  /** Rewriting a launch string keeps its executable: the first quoted token
      of `exe + rest`, where `exe` is itself a first quoted token, is `exe`. */
  lemma {:induction false} ExtractExecutableKeepsPrefix(s: string, rest: string)
    requires ExtractExecutable(s) != ""
    ensures ExtractExecutable(ExtractExecutable(s) + rest) == ExtractExecutable(s)
  {
    var e := ExtractExecutable(s);
    var i, j :| IsFirstMatch(s, i, j) && e == s[i..j + 1];
    var t := e + rest;
    var n := |e| - 1;
    assert forall k :: 0 <= k <= n ==> t[k] == s[i + k];
    assert IsMatch(t, 0, n);
    assert forall k :: 2 <= k < n ==> t[k] != '"';
    assert t[n] == '"';
    assert ExtractExecutable(t) != "";
    var i', j' :| IsFirstMatch(t, i', j') && ExtractExecutable(t) == t[i'..j' + 1];
    assert i' == 0 && j' == n;
    assert t[..n + 1] == e;
  }
}
