/** String helpers for the `gs://` address model. Strings are `seq<char>`. */
module Text {

  predicate StartsWith(s: string, p: string) {
    |p| <= |s| && s[..|p|] == p
  }

  predicate EndsWith(s: string, p: string) {
    |p| <= |s| && s[|s| - |p|..] == p
  }

  /** `p` occurs in `s` starting at index `i`. */
  predicate OccursAt(s: string, p: string, i: nat) {
    i + |p| <= |s| && s[i..i + |p|] == p
  }

  /** Length of the longest prefix of `s` in which `c` does not occur: what a
      greedy `[^c]*` consumes at the start of `s`. */
  function SpanWithout(s: string, c: char): (n: nat)
    ensures n <= |s|
    ensures forall i :: 0 <= i < n ==> s[i] != c
    ensures n == |s| || s[n] == c
  {
    if s == [] || s[0] == c then 0 else 1 + SpanWithout(s[1..], c)
  }

  /** The span is the only length with the three properties above. */
  lemma SpanWithoutIsUnique(s: string, c: char, n: nat)
    requires n <= |s|
    requires forall i :: 0 <= i < n ==> s[i] != c
    requires n == |s| || s[n] == c
    ensures SpanWithout(s, c) == n
  {
  }

  /** `name`, followed by a `/` when `slash` holds. */
  function WithTrailingSlash(name: string, slash: bool): string {
    if slash then name + "/" else name
  }

  /** Splits off exactly one trailing `/`, reporting whether there was one. */
  function StripTrailingSlash(s: string): (r: (string, bool))
    ensures WithTrailingSlash(r.0, r.1) == s
    ensures r.1 <==> EndsWith(s, "/")
  {
    if EndsWith(s, "/") then (s[..|s| - 1], true) else (s, false)
  }
}
