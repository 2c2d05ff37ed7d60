/** Python's `str.strip()` with no argument, which removes leading and
    trailing whitespace as `str.isspace` defines it. */
module PyStr {

  /** The characters for which Python 3's `str.isspace` holds: general
      category Zs, or bidirectional class WS, B or S. */
  predicate IsSpace(c: char)
  {
    || ('\t' <= c <= '\r')             // \t \n \v \f \r
    || ('\U{1C}' <= c <= '\U{1F}')     // file, group, record and unit separators
    || c == ' '
    || c == '\U{85}'                   // next line
    || c == '\U{A0}'                   // no-break space
    || c == '\U{1680}'                 // ogham space mark
    || ('\U{2000}' <= c <= '\U{200A}') // en quad .. hair space
    || c == '\U{2028}'                 // line separator
    || c == '\U{2029}'                 // paragraph separator
    || c == '\U{202F}'                 // narrow no-break space
    || c == '\U{205F}'                 // medium mathematical space
    || c == '\U{3000}'                 // ideographic space
  }

  /** Every character of `s[lo..hi]` is whitespace. */
  predicate SpaceIn(s: string, lo: int, hi: int)
    requires 0 <= lo <= hi <= |s|
  {
    forall k | lo <= k < hi :: IsSpace(s[k])
  }

  predicate AllSpace(s: string)
  {
    SpaceIn(s, 0, |s|)
  }

  /** `s[i..j]` is `s` with exactly its leading and trailing whitespace cut
      off: everything outside is whitespace, and the kept part neither
      starts nor ends with whitespace. */
  predicate Margins(s: string, i: int, j: int)
  {
    && 0 <= i <= j <= |s|
    && SpaceIn(s, 0, i)
    && SpaceIn(s, j, |s|)
    && (i < j ==> !IsSpace(s[i]) && !IsSpace(s[j - 1]))
  }

  /** The length of the longest all-whitespace prefix of `s`. */
  function LeadingSpace(s: string): (n: nat)
    ensures n <= |s|
    ensures SpaceIn(s, 0, n)
    ensures n < |s| ==> !IsSpace(s[n])
  {
    if s == [] || !IsSpace(s[0]) then 0
    else
      var m := LeadingSpace(s[1..]);
      assert forall k | 1 <= k < m + 1 :: s[k] == s[1..][k - 1];
      1 + m
  }

  /** The length of the longest all-whitespace suffix of `s`. */
  function TrailingSpace(s: string): (n: nat)
    ensures n <= |s|
    ensures SpaceIn(s, |s| - n, |s|)
    ensures n < |s| ==> !IsSpace(s[|s| - 1 - n])
  {
    if s == [] || !IsSpace(s[|s| - 1]) then 0
    else
      var init := s[..|s| - 1];
      var m := TrailingSpace(init);
      assert forall k | |init| - m <= k < |init| :: s[k] == init[k];
      1 + m
  }

  /** `s.strip()`: drop the leading whitespace, then the trailing whitespace
      of what is left. The result is the slice of `s` that starts after its
      leading whitespace, and the cut is a whitespace-only margin. */
  function Strip(s: string): (r: string)
    ensures Margins(s, LeadingSpace(s), LeadingSpace(s) + |r|)
    ensures r == s[LeadingSpace(s)..LeadingSpace(s) + |r|]
    ensures r == [] || (!IsSpace(r[0]) && !IsSpace(r[|r| - 1]))
    ensures r == [] <==> AllSpace(s)
  {
    var i := LeadingSpace(s);
    var rest := s[i..];
    var n := TrailingSpace(rest);
    var j := i + (|rest| - n);
    assert SpaceIn(s, j, |s|) by {
      forall k | j <= k < |s| ensures IsSpace(s[k]) {
        assert s[k] == rest[k - i];
      }
    }
    assert i < j ==> s[j - 1] == rest[|rest| - 1 - n];
    assert AllSpace(s) ==> i == |s|;
    s[i..j]
  }

  /** The margins determine the stripped text: whatever cut satisfies
      `Margins` yields exactly what `Strip` returns. */
  lemma StripUnique(s: string, i: int, j: int)
    requires Margins(s, i, j)
    ensures Strip(s) == s[i..j]
  {
  }

  /** Stripping twice is stripping once. */
  lemma StripIdempotent(s: string)
    ensures Strip(Strip(s)) == Strip(s)
  {
  }
}
