/** The two functions of Go's `strings` package the gallery uses. */
module GoStrings {

  /** `strings.HasSuffix`. */
  predicate HasSuffix(s: string, suffix: string): (b: bool)
    ensures b <==> exists prefix :: s == prefix + suffix
  {
    var n := |s| - |suffix|;
    assert n >= 0 ==> s == s[..n] + s[n..];
    n >= 0 && s[n..] == suffix
  }

  /** `strings.TrimSuffix`: removes one copy of `suffix` from the end, if present. */
  function TrimSuffix(s: string, suffix: string): (r: string)
    ensures HasSuffix(s, suffix) ==> r + suffix == s
    ensures !HasSuffix(s, suffix) ==> r == s
  {
    if HasSuffix(s, suffix) then s[..|s| - |suffix|] else s
  }

  /** Appending a suffix and trimming it again gives back the original text. */
  lemma TrimSuffixOfAppended(s: string, suffix: string)
    ensures HasSuffix(s + suffix, suffix)
    ensures TrimSuffix(s + suffix, suffix) == s
  {
    assert (s + suffix)[|s|..] == suffix;
    assert (s + suffix)[..|s|] == s;
  }
}
