/** Python's whitespace handling on text, as the gleaner uses it: `s.strip()` and the
    truth value of the stripped string (`not s.strip()`). */
module PyStr {

  /** Python's `str.isspace` for one character: the ASCII control whitespace
      (tab, line feed, vertical tab, form feed, carriage return), the file, group,
      record and unit separators, space, next line, no-break space, and the Unicode
      space separators, line and paragraph separators. */
  predicate IsSpace(c: char) {
    || ('\t' <= c <= '\r')
    || ('\U{1C}' <= c <= ' ')
    || c == '\U{85}'
    || c == '\U{A0}'
    || c == '\U{1680}'
    || ('\U{2000}' <= c <= '\U{200A}')
    || c == '\U{2028}'
    || c == '\U{2029}'
    || c == '\U{202F}'
    || c == '\U{205F}'
    || c == '\U{3000}'
  }

  /** `s.lstrip()`. */
  function StripLeading(s: string): (r: string)
    ensures |r| <= |s|
  {
    if s != [] && IsSpace(s[0]) then StripLeading(s[1..]) else s
  }

  /** `s.rstrip()`. */
  function StripTrailing(s: string): (r: string)
    ensures |r| <= |s|
  {
    if s != [] && IsSpace(s[|s| - 1]) then StripTrailing(s[..|s| - 1]) else s
  }

  /** `s.strip()`: `s.lstrip()` followed by `rstrip()`, never longer than `s`. */
  function Strip(s: string): (r: string)
    ensures |r| <= |s|
  {
    StripTrailing(StripLeading(s))
  }

  /** `s.lstrip()` is the suffix of `s` after its leading whitespace, and does not
      itself start with whitespace. */
  lemma {:induction false} StripLeadingDropsLeadingSpace(s: string)
    ensures var r := StripLeading(s);
            && (forall j :: 0 <= j < |r| ==> r[j] == s[|s| - |r| + j])
            && (forall i :: 0 <= i < |s| - |r| ==> IsSpace(s[i]))
            && (r != [] ==> !IsSpace(r[0]))
  {
    if s != [] && IsSpace(s[0]) {
      StripLeadingDropsLeadingSpace(s[1..]);
    }
  }

  /** `s.rstrip()` is the prefix of `s` before its trailing whitespace, and does not
      itself end with whitespace. */
  lemma {:induction false} StripTrailingDropsTrailingSpace(s: string)
    ensures var r := StripTrailing(s);
            && (forall j :: 0 <= j < |r| ==> r[j] == s[j])
            && (forall i :: |r| <= i < |s| ==> IsSpace(s[i]))
            && (r != [] ==> !IsSpace(r[|r| - 1]))
  {
    if s != [] && IsSpace(s[|s| - 1]) {
      StripTrailingDropsTrailingSpace(s[..|s| - 1]);
    }
  }

  /** `s.strip()` reads `s` from the end of its leading whitespace on. */
  lemma StripIsRunOf(s: string)
    ensures var r, i := Strip(s), |s| - |StripLeading(s)|;
            forall k :: 0 <= k < |r| ==> r[k] == s[i + k]
  {
    StripLeadingDropsLeadingSpace(s);
    StripTrailingDropsTrailingSpace(StripLeading(s));
  }

  /** Where `left` is `s` read from `i` on, and `left` holds only whitespace from `n`
      on, `s` holds only whitespace from `i + n` on. */
  lemma SpaceAfterRun(s: string, left: string, i: nat, n: nat)
    requires i + |left| == |s| && n <= |left|
    requires forall j :: 0 <= j < |left| ==> left[j] == s[i + j]
    requires forall j :: n <= j < |left| ==> IsSpace(left[j])
    ensures forall k :: i + n <= k < |s| ==> IsSpace(s[k])
  {
    forall k | i + n <= k < |s|
      ensures IsSpace(s[k])
    {
      assert s[k] == left[k - i];
    }
  }

  /** Everything in `s` after the run that `s.strip()` keeps is whitespace. */
  lemma SpaceAfterStrip(s: string)
    ensures var r, i := Strip(s), |s| - |StripLeading(s)|;
            forall k :: i + |r| <= k < |s| ==> IsSpace(s[k])
  {
    var left := StripLeading(s);
    var n := |StripTrailing(left)|;
    assert |Strip(s)| == n;
    StripLeadingDropsLeadingSpace(s);
    StripTrailingDropsTrailingSpace(left);
    SpaceAfterRun(s, left, |s| - |left|, n);
  }

  /** The first and last characters `s.strip()` keeps are not whitespace. */
  lemma StripEndsNotSpace(s: string)
    ensures var r := Strip(s);
            r != [] ==> !IsSpace(r[0]) && !IsSpace(r[|r| - 1])
  {
    var left := StripLeading(s);
    var r := StripTrailing(left);
    StripLeadingDropsLeadingSpace(s);
    StripTrailingDropsTrailingSpace(left);
    if r != [] {
      assert r[0] == left[0];
    }
  }

  /** `s.strip()` is the run of `s` that starts where its leading whitespace ends:
      everything around it is whitespace, and its first and last characters are not. */
  lemma StripIsTrimmedRun(s: string)
    ensures var r, i := Strip(s), |s| - |StripLeading(s)|;
            && (forall k :: 0 <= k < |r| ==> r[k] == s[i + k])
            && (forall k :: 0 <= k < i ==> IsSpace(s[k]))
            && (forall k :: i + |r| <= k < |s| ==> IsSpace(s[k]))
            && (r != [] ==> !IsSpace(r[0]) && !IsSpace(r[|r| - 1]))
  {
    StripIsRunOf(s);
    StripLeadingDropsLeadingSpace(s);
    SpaceAfterStrip(s);
    StripEndsNotSpace(s);
  }

  /** Stripping twice is stripping once. */
  lemma StripIsIdempotent(s: string)
    ensures Strip(Strip(s)) == Strip(s)
  {
    var r := Strip(s);
    StripEndsNotSpace(s);
    assert StripLeading(r) == r;
  }

  /** The text holds nothing but whitespace. */
  predicate IsBlank(s: string) {
    forall i :: 0 <= i < |s| ==> IsSpace(s[i])
  }

  /** Python's `not s.strip()` holds exactly of the blank strings. */
  lemma StripEmptyIffBlank(s: string)
    ensures Strip(s) == [] <==> IsBlank(s)
  {
    StripIsTrimmedRun(s);
  }

  /** Python's `not s.strip()`. */
  method StripsToEmpty(s: string) returns (empty: bool)
    ensures empty <==> IsBlank(s)
  {
    StripEmptyIffBlank(s);
    empty := Strip(s) == [];
  }
}
