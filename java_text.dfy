/** The parts of `java.lang.String` and `java.lang.Character` that the backend relies on.
    A Java string is modelled as a sequence of characters (Unicode scalar values). */
module JavaText {
  import opened Strings

  /** `Character.isWhitespace`: the Unicode space, line and paragraph separators other than the
      non-breaking spaces U+00A0, U+2007 and U+202F, plus the control characters U+0009-U+000D
      and U+001C-U+001F. */
  predicate IsWhitespace(c: char)
  {
    c == ' ' || ('\t' <= c <= '\r') || ('\U{1C}' <= c <= '\U{1F}')
    || c == '\U{1680}' || ('\U{2000}' <= c <= '\U{2006}') || ('\U{2008}' <= c <= '\U{200A}')
    || c == '\U{2028}' || c == '\U{2029}' || c == '\U{205F}' || c == '\U{3000}'
  }

  /** `String.isBlank`: empty, or whitespace only. */
  predicate IsBlank(s: string)
  {
    forall i :: 0 <= i < |s| ==> IsWhitespace(s[i])
  }

  /** The characters `String.trim` removes: every character up to and including U+0020. */
  predicate AtMostSpace(c: char)
  {
    c <= ' '
  }

  /** `s` is what `String.trim` leaves: it neither starts nor ends with a character <= U+0020. */
  predicate IsTrimmed(s: string)
  {
    StrippedBy(s, AtMostSpace)
  }

  /** `String.trim`. */
  function Trim(s: string): (r: string)
    ensures IsTrimmed(r)
    ensures |r| <= |s|
    ensures IsTrimmed(s) ==> r == s
    ensures IsBlank(s) ==> IsBlank(r)
    ensures LeadingRun(s, AtMostSpace) + |r| <= |s|
    ensures r == s[LeadingRun(s, AtMostSpace)..LeadingRun(s, AtMostSpace) + |r|]
    ensures forall i :: LeadingRun(s, AtMostSpace) + |r| <= i < |s| ==> AtMostSpace(s[i])
  {
    var r := StripBy(s, AtMostSpace);
    assert IsBlank(s) ==> IsBlank(r) by {
      if IsBlank(s) {
        forall i | 0 <= i < |r|
          ensures IsWhitespace(r[i])
        {
          assert r[i] == s[LeadingRun(s, AtMostSpace) + i];
        }
      }
    }
    r
  }

  /** `.map(String::trim)` over a list. */
  function TrimEach(xs: seq<string>): (r: seq<string>)
    ensures |r| == |xs|
    ensures forall i :: 0 <= i < |xs| ==> r[i] == Trim(xs[i])
  {
    seq(|xs|, i requires 0 <= i < |xs| => Trim(xs[i]))
  }

  lemma TrimEachAppend(xs: seq<string>, ys: seq<string>)
    ensures TrimEach(xs + ys) == TrimEach(xs) + TrimEach(ys)
  {
    var l, r := TrimEach(xs + ys), TrimEach(xs) + TrimEach(ys);
    forall i | 0 <= i < |l| ensures l[i] == r[i] {
      TrimEachAt(xs, ys, i);
    }
  }

  lemma TrimEachNone(xs: seq<string>)
    requires xs == []
    ensures TrimEach(xs) == []
  {
  }

  lemma TrimEachSingleton(x: string)
    ensures TrimEach([x]) == [Trim(x)]
  {
  }

  lemma TrimEachAt(xs: seq<string>, ys: seq<string>, i: nat)
    requires i < |xs| + |ys|
    ensures TrimEach(xs + ys)[i] == (TrimEach(xs) + TrimEach(ys))[i]
  {
    if i < |xs| {
      assert (xs + ys)[i] == xs[i];
    } else {
      assert (xs + ys)[i] == ys[i - |xs|];
    }
  }

  /** `.filter(s -> !s.isBlank())` over a list: the non-blank elements, in their order. */
  function NonBlank(xs: seq<string>): (r: seq<string>)
    ensures |r| <= |xs|
  {
    if xs == [] then []
    else
      var last := xs[|xs| - 1];
      NonBlank(xs[..|xs| - 1]) + (if IsBlank(last) then [] else [last])
  }

  /** What the filter keeps is non-blank and comes from the list. */
  lemma {:induction false} NonBlankMembers(xs: seq<string>)
    ensures forall s <- NonBlank(xs) :: !IsBlank(s) && s in xs
    decreases |xs|
  {
    if xs != [] {
      var front := xs[..|xs| - 1];
      NonBlankMembers(front);
      assert forall s <- front :: s in xs;
    }
  }

  lemma {:induction false} NonBlankAppend(xs: seq<string>, ys: seq<string>)
    ensures NonBlank(xs + ys) == NonBlank(xs) + NonBlank(ys)
    decreases |ys|
  {
    if ys == [] {
      assert xs + ys == xs;
    } else {
      var n := |ys| - 1;
      var front, last := ys[..n], ys[n];
      var tail := if IsBlank(last) then [] else [last];
      calc {
        NonBlank(xs + ys);
        { assert xs + ys == (xs + front) + [last]; }
        NonBlank((xs + front) + [last]);
        { NonBlankSnoc(xs + front, last); }
        NonBlank(xs + front) + tail;
        { NonBlankAppend(xs, front); }
        NonBlank(xs) + NonBlank(front) + tail;
        { NonBlankSnoc(front, last); assert front + [last] == ys; }
        NonBlank(xs) + NonBlank(ys);
      }
    }
  }

  lemma NonBlankSnoc(xs: seq<string>, x: string)
    ensures NonBlank(xs + [x]) == NonBlank(xs) + (if IsBlank(x) then [] else [x])
  {
    assert (xs + [x])[..|xs|] == xs;
  }

  /** Drop the empty strings at the end of a list. */
  function DropTrailingEmpty(xs: seq<string>): (r: seq<string>)
    ensures r <= xs
    ensures r == [] || r[|r| - 1] != ""
    ensures forall i :: |r| <= i < |xs| ==> xs[i] == ""
  {
    if xs != [] && xs[|xs| - 1] == "" then DropTrailingEmpty(xs[..|xs| - 1]) else xs
  }

  /** `s.split(regex)` where `regex` matches exactly the literal `sep`: the pieces between the
      leftmost non-overlapping matches, trailing empty pieces removed; the whole string when
      nothing matches. */
  function JavaSplit(s: string, sep: string): (pieces: seq<string>)
    requires |sep| > 0
  {
    if IndexOfFrom(s, sep, 0).None? then [s] else DropTrailingEmpty(Split(s, sep))
  }

  /** Trimming and dropping blank pieces erases the difference between Java's split, which drops
      trailing empty pieces, and the split that keeps every piece. */
  lemma {:induction false} JavaSplitFiltered(s: string, sep: string)
    requires |sep| > 0
    ensures NonBlank(TrimEach(JavaSplit(s, sep))) == NonBlank(TrimEach(Split(s, sep)))
  {
    if IndexOfFrom(s, sep, 0).Some? {
      DropTrailingEmptyFiltered(Split(s, sep));
    }
  }

  lemma {:induction false} DropTrailingEmptyFiltered(xs: seq<string>)
    ensures NonBlank(TrimEach(DropTrailingEmpty(xs))) == NonBlank(TrimEach(xs))
    decreases |xs|
  {
    if xs != [] && xs[|xs| - 1] == "" {
      var front := xs[..|xs| - 1];
      calc {
        NonBlank(TrimEach(DropTrailingEmpty(xs)));
        NonBlank(TrimEach(DropTrailingEmpty(front)));
        { DropTrailingEmptyFiltered(front); }
        NonBlank(TrimEach(front));
        { EmptyFiltered(TrimEach(front)); }
        NonBlank(TrimEach(front) + [""]);
        { TrimEachAppend(front, [""]); TrimEachEmpty(); FrontLast(xs); }
        NonBlank(TrimEach(xs));
      }
    }
  }

  lemma TrimEachEmpty()
    ensures TrimEach([""]) == [""]
  {
    assert Trim("") == "";
  }

  lemma EmptyFiltered(xs: seq<string>)
    ensures NonBlank(xs + [""]) == NonBlank(xs)
  {
    NonBlankSnoc(xs, "");
  }

  /** `s.lastIndexOf(c, from)`: an index of `c` no greater than `from`, or -1. */
  function LastIndexOf(s: string, c: char, from: int): (r: int)
    ensures -1 <= r < |s| && (r == -1 || r <= from)
    ensures 0 <= r ==> s[r] == c
    decreases if from < |s| then from + 1 else |s| + 1
  {
    if from >= |s| then LastIndexOf(s, c, |s| - 1)
    else if from < 0 then -1
    else if s[from] == c then from
    else LastIndexOf(s, c, from - 1)
  }

  /** `lastIndexOf` finds the greatest such index: there is no `c` after it up to `from`. A
      `from` beyond the end searches the whole string; a negative `from` finds nothing. */
  lemma {:induction false} LastIndexOfGreatest(s: string, c: char, from: int)
    ensures forall k :: LastIndexOf(s, c, from) < k <= from && 0 <= k < |s| ==> s[k] != c
    decreases if from < |s| then from + 1 else |s| + 1
  {
    if from >= |s| {
      LastIndexOfGreatest(s, c, |s| - 1);
    } else if 0 <= from && s[from] != c {
      LastIndexOfGreatest(s, c, from - 1);
    }
  }

  predicate IsAsciiLower(c: char)
  {
    'a' <= c <= 'z'
  }

  /** Whether `Character.toUpperCase`/`toLowerCase`, as `String.equalsIgnoreCase` applies them,
      make `c` equal to the lower-case ASCII letter `w`. Besides the two ASCII cases, U+0130 and
      U+0131 match 'i', U+017F matches 's' and U+212A (Kelvin sign) matches 'k'. */
  predicate CharEqualsIgnoreCase(c: char, w: char)
    requires IsAsciiLower(w)
  {
    c == w || c as int == w as int - 32
    || (w == 'i' && (c == '\U{130}' || c == '\U{131}'))
    || (w == 's' && c == '\U{17F}')
    || (w == 'k' && c == '\U{212A}')
  }

  /** `s.equalsIgnoreCase(word)` for a word of lower-case ASCII letters. */
  predicate EqualsIgnoreCase(s: string, word: string)
    requires forall w <- word :: IsAsciiLower(w)
  {
    |s| == |word| && forall i :: 0 <= i < |s| ==> CharEqualsIgnoreCase(s[i], word[i])
  }
}
