/** The two string operations of Go's `strings` package that the handlers use. */
module GoStrings {

  /** `strings.HasSuffix`: `suffix` is a tail of `s`. */
  predicate HasSuffix(s: string, suffix: string) {
    |suffix| <= |s| && s[|s| - |suffix|..] == suffix
  }

  /** `strings.TrimSuffix`: removes one occurrence of `suffix` from the end of `s`, if it is there. */
  function TrimSuffix(s: string, suffix: string): (r: string)
    ensures HasSuffix(s, suffix) ==> r + suffix == s
    ensures !HasSuffix(s, suffix) ==> r == s
  {
    if HasSuffix(s, suffix) then s[..|s| - |suffix|] else s
  }

  /** A string has a suffix exactly when it is some string followed by that suffix. */
  lemma HasSuffixIff(s: string, suffix: string)
    ensures HasSuffix(s, suffix) <==> exists t :: t + suffix == s
  {
    if HasSuffix(s, suffix) {
      assert s[..|s| - |suffix|] + suffix == s;
    }
    forall t | t + suffix == s
      ensures HasSuffix(s, suffix)
    {
      assert s[|s| - |suffix|..] == suffix;
    }
  }

  /** Appending a suffix and trimming it again gives back the original string. */
  lemma TrimAppended(t: string, suffix: string)
    ensures HasSuffix(t + suffix, suffix)
    ensures TrimSuffix(t + suffix, suffix) == t
  {
    var s := t + suffix;
    assert s[|s| - |suffix|..] == suffix;
    assert s[..|s| - |suffix|] == t;
  }
}
