/** Values shared by the crawler's modules: optional values, the two Python
    exceptions the core can raise, the parts of a parsed URL it looks at, and
    the string operations it uses. */
module Common {

  datatype Option<+T> = None | Some(value: T)

  /** The exceptions that escape the modelled code. */
  datatype Error = TypeError | AssertionError

  datatype Result<+T> = Ok(value: T) | Err(error: Error)

  /** The fields of `urllib.parse.urlparse(url)` the crawler reads; `hostname`
      is `None` for a URL without a network location. */
  datatype ParsedUrl = ParsedUrl(scheme: string, hostname: Option<string>, path: string)

  /** `urlparse` itself is a library function and is passed in as a parameter. */
  type UrlParser = string -> ParsedUrl

  function LowerChar(c: char): char
  {
    if 'A' <= c <= 'Z' then (c as int + 32) as char else c
  }

  /** `str.lower()`, restricted to the ASCII letters: no capital is left,
      each capital becomes its small letter, and every other character is
      kept. */
  function Lower(s: string): (r: string)
    ensures |r| == |s|
    ensures forall i :: 0 <= i < |s| ==> !('A' <= r[i] <= 'Z')
    ensures forall i :: 0 <= i < |s| && 'A' <= s[i] <= 'Z' ==> r[i] as int - 'a' as int == s[i] as int - 'A' as int
    ensures forall i :: 0 <= i < |s| && !('A' <= s[i] <= 'Z') ==> r[i] == s[i]
  {
    seq(|s|, i requires 0 <= i < |s| => LowerChar(s[i]))
  }

  /** Lower-casing twice is lower-casing once. */
  lemma LowerIsIdempotent(s: string)
    ensures Lower(Lower(s)) == Lower(s)
  {
  }

  predicate OccursAt(s: string, sub: string, i: nat)
  {
    i + |sub| <= |s| && s[i..i + |sub|] == sub
  }

  /** Python's `sub in s` on strings: `sub` occurs somewhere in `s`. */
  predicate Contains(s: string, sub: string)
  {
    exists i | 0 <= i <= |s| - |sub| :: OccursAt(s, sub, i)
  }
}
