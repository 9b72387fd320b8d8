/**
 * The parts of Python's `str` that the validators and the question filter rely on:
 * `str.isspace()` on one character, `str.strip()` with no argument, and substring containment.
 */
module PyStr {

  /** A character for which Python's `str.isspace()` holds: the Unicode characters of
      general category Zs or bidirectional class WS, B or S. */
  predicate IsSpace(c: char)
  {
    || c == ' '
    || '\t' <= c <= '\r'                 // \t \n \v \f \r
    || '\U{1C}' <= c <= '\U{1F}'         // file, group, record and unit separators
    || c == '\U{85}' || c == '\U{A0}' || c == '\U{1680}'
    || '\U{2000}' <= c <= '\U{200A}'
    || c == '\U{2028}' || c == '\U{2029}' || c == '\U{202F}' || c == '\U{205F}' || c == '\U{3000}'
  }

  /** Every character of `s` is whitespace (the empty string included). */
  predicate AllSpace(s: string)
  {
    forall i | 0 <= i < |s| :: IsSpace(s[i])
  }

  /** `s` neither begins nor ends with whitespace. */
  predicate IsStripped(s: string)
  {
    s == [] || (!IsSpace(s[0]) && !IsSpace(s[|s| - 1]))
  }

  /** `str.lstrip()`: drops the leading whitespace; what it drops is all whitespace
      and what it keeps is a suffix of `s` that does not begin with whitespace. */
  function LStrip(s: string): (r: string)
    ensures |r| <= |s| && r == s[|s| - |r|..]
    ensures AllSpace(s[..|s| - |r|])
    ensures r == [] || !IsSpace(r[0])
  {
    if |s| > 0 && IsSpace(s[0]) then
      var r := LStrip(s[1..]);
      assert s[1..][|s| - 1 - |r|..] == s[|s| - |r|..];
      r
    else
      s
  }

  /** `str.rstrip()`: drops the trailing whitespace; what it drops is all whitespace
      and what it keeps is a prefix of `s` that does not end with whitespace. */
  function RStrip(s: string): (r: string)
    ensures |r| <= |s| && r == s[..|r|]
    ensures AllSpace(s[|r|..])
    ensures r == [] || !IsSpace(r[|r| - 1])
  {
    if |s| > 0 && IsSpace(s[|s| - 1]) then
      var r := RStrip(s[..|s| - 1]);
      assert s[..|s| - 1][..|r|] == s[..|r|];
      assert forall i | |r| <= i < |s| :: i == |s| - 1 || s[i] == s[..|s| - 1][i];
      r
    else
      s
  }

  /** `str.strip()`: the result does not begin or end with whitespace, and it is empty
      exactly when `s` is all whitespace. */
  function Strip(s: string): (r: string)
    ensures |r| <= |s|
    ensures IsStripped(r)
    ensures r == [] <==> AllSpace(s)
  {
    var t := RStrip(s);
    assert t == [] ==> s[|t|..] == s;
    LStrip(t)
  }

  /** `str.strip()` removes exactly a whitespace prefix and a whitespace suffix:
      the result occurs in `s` at some position `i`, with only whitespace around it. */
  lemma StripIsTrimmedSlice(s: string)
    ensures var r := Strip(s);
      exists i | 0 <= i <= |s| - |r| ::
        s[i..i + |r|] == r && AllSpace(s[..i]) && AllSpace(s[i + |r|..])
  {
    var t := RStrip(s);
    var r := LStrip(t);
    var i := |t| - |r|;
    assert s[i..i + |r|] == r by {
      assert s[i..i + |r|] == s[..|t|][i..];
    }
    assert AllSpace(s[..i]) by {
      assert s[..i] == t[..i];
    }
  }

  /** Stripping twice is stripping once. */
  lemma StripIdempotent(s: string)
    ensures Strip(Strip(s)) == Strip(s)
  {
    var r := Strip(s);
    if r != [] {
      assert RStrip(r) == r;
      assert LStrip(r) == r;
    }
  }

  /** `q` occurs in `text` starting at position `i`. */
  predicate OccursAt(text: string, q: string, i: int)
  {
    0 <= i <= |text| - |q| && text[i..i + |q|] == q
  }

  /** Case-sensitive substring containment: `q` occurs in `text` at some position. */
  predicate Contains(text: string, q: string)
  {
    exists i | 0 <= i <= |text| - |q| :: OccursAt(text, q, i)
  }
}
