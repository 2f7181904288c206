/** The parts of Python's `str` that the segmentation service relies on. */
module PyText {
  import opened Strings

  /** `str.isspace` for one character: the characters Python classes as whitespace. */
  predicate IsPySpace(c: char)
  {
    ('\t' <= c <= '\r') || ('\U{1C}' <= c <= ' ') || c == '\U{85}' || c == '\U{A0}'
    || c == '\U{1680}' || ('\U{2000}' <= c <= '\U{200A}') || c == '\U{2028}' || c == '\U{2029}'
    || c == '\U{202F}' || c == '\U{205F}' || c == '\U{3000}'
  }

  /** `str.strip()`: the slice of `s` left once its leading and its trailing whitespace are cut
      off. */
  function Strip(s: string): (r: string)
    ensures StrippedBy(r, IsPySpace)
    ensures |r| <= |s|
    ensures LeadingRun(s, IsPySpace) + |r| <= |s|
    ensures r == s[LeadingRun(s, IsPySpace)..LeadingRun(s, IsPySpace) + |r|]
    ensures forall i :: LeadingRun(s, IsPySpace) + |r| <= i < |s| ==> IsPySpace(s[i])
  {
    StripBy(s, IsPySpace)
  }

  /** Stripping twice is stripping once. */
  lemma StripIdempotent(s: string)
    ensures Strip(Strip(s)) == Strip(s)
  {
  }

  /** A cased character that is upper case (ASCII letters only). */
  predicate IsUpperLetter(c: char)
  {
    'A' <= c <= 'Z'
  }

  /** A cased character that is lower case (ASCII letters only). */
  predicate IsLowerLetter(c: char)
  {
    'a' <= c <= 'z'
  }

  /** `\d` in a pattern (ASCII digits only). */
  predicate IsDigit(c: char)
  {
    '0' <= c <= '9'
  }

  /** `str.isupper()`: the string has a cased character, and none of its cased characters is
      lower case. */
  predicate IsUpper(s: string)
  {
    (exists i :: 0 <= i < |s| && IsUpperLetter(s[i])) && forall i :: 0 <= i < |s| ==> !IsLowerLetter(s[i])
  }

  /** Whitespace is not cased, so `isupper` does not see what `strip` removes. */
  lemma IsUpperStrip(s: string)
    ensures IsUpper(Strip(s)) == IsUpper(s)
  {
    var lo := LeadingRun(s, IsPySpace);
    var r := Strip(s);
    StripKeepsLetters(s, lo, r);
    if IsUpper(s) {
      var i :| 0 <= i < |s| && IsUpperLetter(s[i]);
      assert IsCased(s[i]);
      assert r[i - lo] == s[i];
    }
    if IsUpper(r) {
      var i :| 0 <= i < |r| && IsUpperLetter(r[i]);
      assert s[lo + i] == r[i];
      forall j | 0 <= j < |s| ensures !IsLowerLetter(s[j]) {
        if lo <= j < lo + |r| {
          assert s[j] == r[j - lo];
        }
      }
    }
  }

  /** The letters of `s` are those of `Strip(s)`, in the same places after the shift. */
  lemma StripKeepsLetters(s: string, lo: nat, r: string)
    requires lo == LeadingRun(s, IsPySpace) && r == Strip(s)
    ensures lo + |r| <= |s|
    ensures forall i :: 0 <= i < |r| ==> r[i] == s[lo + i]
    ensures forall i :: 0 <= i < |s| && IsCased(s[i]) ==> lo <= i < lo + |r|
  {
    forall i | 0 <= i < |s| && IsCased(s[i]) ensures lo <= i < lo + |r| {
      CasedNotSpace(s[i]);
    }
  }

  predicate IsCased(c: char)
  {
    IsUpperLetter(c) || IsLowerLetter(c)
  }

  lemma CasedNotSpace(c: char)
    requires IsCased(c)
    ensures !IsPySpace(c)
  {
  }
}
