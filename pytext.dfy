/**
 * Python's `str.strip()` with no argument, as applied to the login form's
 * username and password: whitespace is removed from both ends, where
 * whitespace is every character for which `str.isspace()` holds.
 */
module PyText {

  /** The characters Python's `str.isspace()` accepts. */
  predicate IsSpace(c: char)
  {
    || c == ' '
    || '\U{9}' <= c <= '\U{d}'        // tab, line feed, vertical tab, form feed, carriage return
    || '\U{1c}' <= c <= '\U{1f}'      // the four information separators
    || c == '\U{85}' || c == '\U{a0}' || c == '\U{1680}'
    || '\U{2000}' <= c <= '\U{200a}'
    || c == '\U{2028}' || c == '\U{2029}' || c == '\U{202f}' || c == '\U{205f}' || c == '\U{3000}'
  }

  /** Every character of `s` from index `lo` up to, not including, `hi` is whitespace. */
  ghost predicate SpaceBetween(s: string, lo: int, hi: int)
  {
    forall k :: lo <= k < hi && 0 <= k < |s| ==> IsSpace(s[k])
  }

  /** `s.lstrip()`: the suffix of `s` left after its leading whitespace. */
  function TrimStart(s: string): (r: string)
    ensures |r| <= |s| && r == s[|s| - |r|..]
    ensures SpaceBetween(s, 0, |s| - |r|)
    ensures r == [] || !IsSpace(r[0])
  {
    if s == [] || !IsSpace(s[0]) then s
    else TrimStart(s[1..])
  }

  /** `s.rstrip()`: the prefix of `s` left before its trailing whitespace. */
  function TrimEnd(s: string): (r: string)
    ensures |r| <= |s| && r == s[..|r|]
    ensures SpaceBetween(s, |r|, |s|)
    ensures r == [] || !IsSpace(r[|r| - 1])
  {
    if s == [] || !IsSpace(s[|s| - 1]) then s
    else TrimEnd(s[..|s| - 1])
  }

  /** `s` is `r` with whitespace-only runs added before (the first `i` characters) and after. */
  ghost predicate PaddedBy(s: string, r: string, i: nat)
  {
    && i + |r| <= |s|
    && r == s[i..i + |r|]
    && SpaceBetween(s, 0, i)
    && SpaceBetween(s, i + |r|, |s|)
  }

  /** The stripped text sits in `s` right after the leading whitespace. */
  lemma TrimsInside(s: string)
    ensures var t := TrimStart(s); TrimEnd(t) == s[|s| - |t|..|s| - |t| + |TrimEnd(t)|]
  { }

  /** Whitespace at the end of a suffix of `s` is whitespace at the end of `s`. */
  lemma SpaceInSuffix(s: string, i: nat, lo: nat)
    requires i <= |s| && SpaceBetween(s[i..], lo, |s| - i)
    ensures SpaceBetween(s, i + lo, |s|)
  {
    forall k | i + lo <= k < |s| ensures IsSpace(s[k]) {
      assert s[k] == s[i..][k - i];
    }
  }

  /** Stripping both ends leaves `s` padded around the result. */
  lemma TrimsPad(s: string)
    ensures PaddedBy(s, TrimEnd(TrimStart(s)), |s| - |TrimStart(s)|)
  {
    TrimsInside(s);
    var t := TrimStart(s);
    SpaceInSuffix(s, |s| - |t|, |TrimEnd(t)|);
  }

  /**
   * `s.strip()`: `s` is the stripped text with whitespace-only runs added at
   * either end (the leading run being the one `TrimStart` removes), and the
   * stripped text neither starts nor ends with whitespace.
   */
  function Strip(s: string): (r: string)
    ensures |r| <= |s|
    ensures r == [] || (!IsSpace(r[0]) && !IsSpace(r[|r| - 1]))
    ensures PaddedBy(s, r, |s| - |TrimStart(s)|)
  {
    TrimsPad(s);
    TrimEnd(TrimStart(s))
  }

  /** Text that has no whitespace at either end is left as it is. */
  lemma StripKeepsTrimmed(s: string)
    requires s == [] || (!IsSpace(s[0]) && !IsSpace(s[|s| - 1]))
    ensures Strip(s) == s
  {
  }

  /** Stripping twice is the same as stripping once. */
  lemma StripIdempotent(s: string)
    ensures Strip(Strip(s)) == Strip(s)
  {
    StripKeepsTrimmed(Strip(s));
  }

}
