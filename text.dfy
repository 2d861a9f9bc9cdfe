/** String predicates the program takes from Rust's `str`: `starts_with`,
    `contains`, and the "no line break" condition under which the regex
    wildcard `.` matches. */
module Text {

  /** The prefix of every top-level key the browser registers, both the ones
      discovery looks for and the launch keys the service rewrites. */
  const KeyPrefix := "Firefox"

  /** Rust's `str::starts_with` with a string pattern. */
  predicate StartsWith(s: string, prefix: string) {
    |prefix| <= |s| && s[..|prefix|] == prefix
  }

  /** `sub` occurs in `s` starting at index `i`. */
  predicate OccursAt(s: string, sub: string, i: int) {
    0 <= i && i + |sub| <= |s| && s[i..i + |sub|] == sub
  }

  /** Rust's `str::contains` with a string pattern: some occurrence exists.
      The empty pattern occurs in every string. */
  predicate Contains(s: string, sub: string) {
    exists i | 0 <= i <= |s| - |sub| :: OccursAt(s, sub, i)
  }

  /** No character of `s[lo..hi]` is a line feed, so the regex wildcard `.`
      (which excludes only '\n') matches each of them. */
  predicate NoNewline(s: string, lo: int, hi: int)
    requires 0 <= lo <= hi <= |s|
  {
    forall k :: lo <= k < hi ==> s[k] != '\n'
  }

  /** A string always contains its own suffix; in particular the launch
      string the program writes, `exe + " " + options`, contains `options`. */
  lemma ContainsSuffix(prefix: string, sub: string)
    ensures Contains(prefix + sub, sub)
  {
    var s := prefix + sub;
    assert s[|prefix|..|prefix| + |sub|] == sub;
    assert OccursAt(s, sub, |prefix|);
  }

  /** Every string contains the empty pattern. */
  lemma ContainsEmpty(s: string)
    ensures Contains(s, "")
  {
    assert OccursAt(s, "", 0);
  }
}
