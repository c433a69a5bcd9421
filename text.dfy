/**
 * Whitespace trimming: leading and trailing whitespace characters are
 * removed, the rest is kept. Python uses two whitespace sets for this:
 * str.strip() with no argument strips every character str.isspace()
 * accepts, while float() strips only the ASCII characters tab, line feed,
 * vertical tab, form feed, carriage return and space, once every non-ASCII
 * whitespace character has been turned into a space.
 */
module Text {

  /** The characters str.strip() treats as whitespace (str.isspace()). */
  predicate IsSpace(c: char) {
    ('\U{9}' <= c <= '\U{D}') || ('\U{1C}' <= c <= '\U{20}') || c == '\U{85}' || c == '\U{A0}' ||
    c == '\U{1680}' || ('\U{2000}' <= c <= '\U{200A}') || c == '\U{2028}' || c == '\U{2029}' ||
    c == '\U{202F}' || c == '\U{205F}' || c == '\U{3000}'
  }

  /**
   * The characters float() skips around a number: the ASCII whitespace
   * '\t', '\n', '\v', '\f', '\r' and ' ', and the non-ASCII characters
   * str.isspace() accepts. The ASCII separators U+001C to U+001F are not
   * among them.
   */
  predicate IsFloatSpace(c: char) {
    IsSpace(c) && !('\U{1C}' <= c <= '\U{1F}')
  }

  /** The number of characters of `ws` at the start of `s`. */
  function LeadLen(s: string, ws: char -> bool): (n: nat)
    ensures n <= |s|
    ensures forall k :: 0 <= k < n ==> ws(s[k])
    ensures n < |s| ==> !ws(s[n])
  {
    if s == [] || !ws(s[0]) then 0 else 1 + LeadLen(s[1..], ws)
  }

  /** The number of characters of `ws` at the end of `s`. */
  function TrailLen(s: string, ws: char -> bool): (n: nat)
    ensures n <= |s|
    ensures forall k :: |s| - n <= k < |s| ==> ws(s[k])
    ensures n < |s| ==> !ws(s[|s| - 1 - n])
  {
    if s == [] || !ws(s[|s| - 1]) then 0 else 1 + TrailLen(s[..|s| - 1], ws)
  }

  /**
   * `s` without its leading and trailing characters of `ws`: a slice of `s`
   * that neither starts nor ends with one of them, every character of `s`
   * outside it being one of them.
   */
  function Strip(s: string, ws: char -> bool): (r: string)
    ensures LeadLen(s, ws) + |r| <= |s| && r == s[LeadLen(s, ws)..LeadLen(s, ws) + |r|]
    ensures forall k :: 0 <= k < |s| && !(LeadLen(s, ws) <= k < LeadLen(s, ws) + |r|) ==> ws(s[k])
    ensures r != [] ==> !ws(r[0]) && !ws(r[|r| - 1])
  {
    var t := s[LeadLen(s, ws)..];
    t[..|t| - TrailLen(t, ws)]
  }

  /** A string that neither starts nor ends with whitespace is its own strip. */
  lemma StripUnpadded(s: string, ws: char -> bool)
    requires s != [] ==> !ws(s[0]) && !ws(s[|s| - 1])
    ensures Strip(s, ws) == s
  {
    assert LeadLen(s, ws) == 0;
    assert s[LeadLen(s, ws)..] == s;
    assert TrailLen(s, ws) == 0;
  }

  /** Whitespace around a string that neither starts nor ends with whitespace is stripped off. */
  lemma {:induction false} StripPadded(pre: string, t: string, post: string, ws: char -> bool)
    requires forall k :: 0 <= k < |pre| ==> ws(pre[k])
    requires forall k :: 0 <= k < |post| ==> ws(post[k])
    requires t != [] && !ws(t[0]) && !ws(t[|t| - 1])
    ensures Strip(pre + t + post, ws) == t
  {
    var s := pre + t + post;
    var r := Strip(s, ws);
    var lead := LeadLen(s, ws);
    assert s[|pre|] == t[0];
    assert lead == |pre|;
    assert s[|pre| + |t| - 1] == t[|t| - 1];
    assert r == s[|pre|..|pre| + |t|];
  }

  /** Stripping twice is stripping once. */
  lemma StripIdempotent(s: string, ws: char -> bool)
    ensures Strip(Strip(s, ws), ws) == Strip(s, ws)
  {
    StripUnpadded(Strip(s, ws), ws);
  }
}
