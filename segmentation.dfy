/** The grouping rules of the Python segmentation service: heading detection, the split of a
    text into sections at heading lines, the split of a section into runs of related sentences,
    and the merge of similar neighbouring segments. Sentence splitting and the embedding
    similarities are inputs: a similarity comparison is given as the boolean it yields. */
module Segmentation {
  import opened Strings
  import opened PyText

  // ---------------------------------------------------------------------------------------------
  // _is_heading

  predicate IsRomanLetter(c: char)
  {
    c == 'I' || c == 'V' || c == 'X'
  }

  /** `re.match(r'^[IVX]+\.', t)`. */
  predicate RomanNumeralDot(t: string)
  {
    var k := LeadingRun(t, IsRomanLetter);
    0 < k < |t| && t[k] == '.'
  }

  /** `re.match(r'^\d+\.', t)`. */
  predicate NumberDot(t: string)
  {
    var k := LeadingRun(t, IsDigit);
    0 < k < |t| && t[k] == '.'
  }

  /** `re.match(r'^[A-Z]\.', t)`. */
  predicate LetterDot(t: string)
  {
    |t| >= 2 && IsUpperLetter(t[0]) && t[1] == '.'
  }

  /** `re.match('^' + word + r'\s+\d+', t)`. */
  predicate WordThenNumber(t: string, word: string)
  {
    word <= t
    && var rest := t[|word|..];
       var w := LeadingRun(rest, IsPySpace);
       0 < w < |rest| && IsDigit(rest[w])
  }

  predicate IsDot(c: char)
  {
    c == '.'
  }

  /** What a pattern `^P+Q` matches: a non-empty run of characters satisfying `p`, then one
      satisfying `q`. The run may stop anywhere; the regular expression backtracks. */
  predicate RegexRunThen(t: string, p: char -> bool, q: char -> bool)
  {
    exists k :: 0 < k < |t| && q(t[k]) && forall i :: 0 <= i < k ==> p(t[i])
  }

  /** When no character satisfies both, the run can only stop at its end, so the longest run
      decides the match. */
  lemma LeadingRunThen(t: string, p: char -> bool, q: char -> bool)
    requires forall c :: q(c) ==> !p(c)
    ensures (var k := LeadingRun(t, p); 0 < k < |t| && q(t[k])) <==> RegexRunThen(t, p, q)
  {
    if RegexRunThen(t, p, q) {
      var k :| 0 < k < |t| && q(t[k]) && forall i :: 0 <= i < k ==> p(t[i]);
      LeadingRunIs(t, p, k);
    }
  }

  /** The patterns as written agree with the regular expressions of `_is_heading`:
      `^[IVX]+\.`, `^\d+\.` and `^<word>\s+\d+`. */
  lemma HeadingPatternsAreRegexes(t: string, word: string)
    ensures RomanNumeralDot(t) <==> RegexRunThen(t, IsRomanLetter, IsDot)
    ensures NumberDot(t) <==> RegexRunThen(t, IsDigit, IsDot)
    ensures WordThenNumber(t, word) <==> word <= t && RegexRunThen(t[|word|..], IsPySpace, IsDigit)
  {
    LeadingRunThen(t, IsRomanLetter, IsDot);
    LeadingRunThen(t, IsDigit, IsDot);
    if word <= t {
      LeadingRunThen(t[|word|..], IsPySpace, IsDigit);
    }
  }

  /** One of the five heading patterns matches the start of `t`. */
  predicate MatchesHeadingPattern(t: string)
  {
    RomanNumeralDot(t) || NumberDot(t) || LetterDot(t)
    || WordThenNumber(t, "Chapter") || WordThenNumber(t, "Section")
  }

  /** `_is_heading`: an upper-case line of more than three characters once stripped, or a
      stripped line that begins like a numbered heading. */
  predicate IsHeading(line: string)
  {
    (IsUpper(line) && |Strip(line)| > 3) || MatchesHeadingPattern(Strip(line))
  }

  /** Whether a line is a heading does not depend on the whitespace around it. */
  lemma HeadingIgnoresSurroundingSpace(line: string)
    ensures IsHeading(Strip(line)) == IsHeading(line)
  {
    IsUpperStrip(line);
    StripIdempotent(line);
  }

  /** An upper-case line longer than three characters is a heading ... */
  lemma UpperCaseHeading()
    ensures IsHeading("NOTES")
  {
    assert Strip("NOTES") == "NOTES";
    assert IsUpperLetter("NOTES"[0]);
  }

  /** ... and a shorter one is not. */
  lemma ShortUpperCaseLine()
    ensures !IsHeading("ABC")
  {
    assert Strip("ABC") == "ABC";
    LeadingRunIs("ABC", IsRomanLetter, 0);
    LeadingRunIs("ABC", IsDigit, 0);
  }

  /** A line of at most three characters once stripped is a heading only through one of the
      patterns that end in a dot, so without a dot it is no heading, upper-case or not. */
  lemma ShortLineWithoutDot(line: string)
    requires |Strip(line)| <= 3
    requires forall i :: 0 <= i < |line| ==> line[i] != '.'
    ensures !IsHeading(line)
  {
  }

  /** So for an upper-case line without a dot, being a heading means exactly being longer than
      three characters once stripped. */
  lemma UpperCaseLineWithoutDot(line: string)
    requires IsUpper(line)
    requires forall i :: 0 <= i < |line| ==> line[i] != '.'
    ensures IsHeading(line) <==> |Strip(line)| > 3
  {
  }

  /** A stripped line where a run of Roman numerals or of digits is followed by a dot is a
      heading. */
  lemma RunThenDotHeading(t: string, k: nat)
    requires Strip(t) == t && 0 < k < |t| && t[k] == '.'
    requires (forall i :: 0 <= i < k ==> IsRomanLetter(t[i])) || (forall i :: 0 <= i < k ==> IsDigit(t[i]))
    ensures IsHeading(t)
  {
    HeadingPatternsAreRegexes(t, "");
    assert IsDot(t[k]);
  }

  /** A Roman numeral followed by a dot begins a heading. */
  lemma RomanNumeralHeading()
    ensures IsHeading("IV. Aim")
  {
    assert Strip("IV. Aim") == "IV. Aim";
    RunThenDotHeading("IV. Aim", 2);
  }

  /** So does a number followed by a dot ... */
  lemma NumberHeading()
    ensures IsHeading("12. Aim")
  {
    assert Strip("12. Aim") == "12. Aim";
    RunThenDotHeading("12. Aim", 2);
  }

  /** ... but not a number without its dot. */
  lemma NumberWithoutDot()
    ensures !IsHeading("12 Aim")
  {
    assert Strip("12 Aim") == "12 Aim";
    assert IsLowerLetter("12 Aim"[4]);
    LeadingRunIs("12 Aim", IsDigit, 2);
    LeadingRunIs("12 Aim", IsRomanLetter, 0);
  }

  /** A capital letter followed by a dot begins a heading. */
  lemma LetterHeading()
    ensures IsHeading("A. Aim")
  {
    assert Strip("A. Aim") == "A. Aim";
  }

  /** A stripped line that begins with "Chapter" or "Section", whitespace and a digit is a
      heading. */
  lemma WordHeading(t: string, word: string, w: nat)
    requires word == "Chapter" || word == "Section"
    requires Strip(t) == t && word <= t && 0 < w && |word| + w < |t|
    requires forall i :: |word| <= i < |word| + w ==> IsPySpace(t[i])
    requires IsDigit(t[|word| + w])
    ensures IsHeading(t)
  {
    var rest := t[|word|..];
    LeadingRunIs(rest, IsPySpace, w);
    assert rest[w] == t[|word| + w];
    assert WordThenNumber(t, word);
  }

  /** "Chapter", whitespace and a digit begin a heading ... */
  lemma ChapterHeading()
    ensures IsHeading("Chapter 3")
  {
    assert Strip("Chapter 3") == "Chapter 3";
    WordHeading("Chapter 3", "Chapter", 1);
  }

  /** ... and so do "Section", whitespace and a digit ... */
  lemma SectionHeading()
    ensures IsHeading("Section  10")
  {
    assert Strip("Section  10") == "Section  10";
    WordHeading("Section  10", "Section", 2);
  }

  /** ... but the word must be followed by whitespace, so "Sections 2" is no such heading. */
  lemma WordWithoutSpace(t: string, word: string)
    requires |word| < |t| && !IsPySpace(t[|word|])
    ensures !WordThenNumber(t, word)
  {
    LeadingRunIs(t[|word|..], IsPySpace, 0);
  }

  /** A line that begins with a lower-case letter is not a heading. */
  lemma LowerCaseStart(t: string)
    requires t != [] && IsLowerLetter(t[0])
    ensures !IsHeading(t)
  {
    CasedNotSpace(t[0]);
    LeadingRunIs(t, IsPySpace, 0);
    var r := Strip(t);
    assert r != [] && r[0] == t[0];
    LeadingRunIs(r, IsRomanLetter, 0);
    LeadingRunIs(r, IsDigit, 0);
    assert !("Chapter" <= r) by { assert "Chapter"[0] != r[0]; }
    assert !("Section" <= r) by { assert "Section"[0] != r[0]; }
  }

  /** An empty line is not a heading. */
  lemma EmptyLineIsNotHeading()
    ensures !IsHeading("")
  {
  }

  // ---------------------------------------------------------------------------------------------
  // Consecutive runs

  /** Add `x` to a grouping: it opens a new group when `opens` holds or when there is no group
      yet, and otherwise joins the last group. */
  function Grow<T>(groups: seq<seq<T>>, x: T, opens: bool): seq<seq<T>>
  {
    if groups == [] || opens then groups + [[x]]
    else groups[..|groups| - 1] + [groups[|groups| - 1] + [x]]
  }

  /** `xs` in consecutive runs, each begun by the first element or by an element satisfying
      `opens`. */
  function Runs<T>(xs: seq<T>, opens: T -> bool): seq<seq<T>>
  {
    if xs == [] then [] else Grow(Runs(xs[..|xs| - 1], opens), xs[|xs| - 1], opens(xs[|xs| - 1]))
  }

  /** `groups` splits `xs` into consecutive non-empty runs so that, apart from the first, exactly
      the elements satisfying `opens` begin a run. */
  predicate IsRuns<T(==)>(groups: seq<seq<T>>, xs: seq<T>, opens: T -> bool)
  {
    && Flatten(groups) == xs
    && (forall k :: 0 <= k < |groups| ==> groups[k] != [])
    && (forall k :: 0 < k < |groups| && groups[k] != [] ==> opens(groups[k][0]))
    && (forall k, m :: 0 <= k < |groups| && 0 < m < |groups[k]| ==> !opens(groups[k][m]))
  }

  lemma FlattenSnoc<T>(xss: seq<seq<T>>, xs: seq<T>)
    ensures Flatten(xss + [xs]) == Flatten(xss) + xs
  {
    assert (xss + [xs])[..|xss|] == xss;
  }

  lemma GrowFlatten<T>(groups: seq<seq<T>>, x: T, opens: bool)
    ensures Flatten(Grow(groups, x, opens)) == Flatten(groups) + [x]
  {
    if groups == [] || opens {
      FlattenSnoc(groups, [x]);
    } else {
      var n := |groups| - 1;
      var front, last := groups[..n], groups[n];
      FlattenSnoc(front, last + [x]);
      FlattenSnoc(front, last);
      FrontLast(groups);
      AppendAssoc(Flatten(front), last, [x]);
    }
  }

  lemma GrowRuns<T>(groups: seq<seq<T>>, xs: seq<T>, opens: T -> bool, x: T)
    requires IsRuns(groups, xs, opens)
    ensures IsRuns(Grow(groups, x, opens(x)), xs + [x], opens)
  {
    GrowFlatten(groups, x, opens(x));
    if groups == [] || opens(x) {
      var g := groups + [[x]];
      assert forall k :: 0 <= k < |groups| ==> g[k] == groups[k];
    } else {
      GrowJoins(groups, xs, opens, x);
    }
  }

  /** An element that does not open a run joins the last one. */
  lemma GrowJoins<T>(groups: seq<seq<T>>, xs: seq<T>, opens: T -> bool, x: T)
    requires IsRuns(groups, xs, opens) && groups != [] && !opens(x)
    ensures var n := |groups| - 1;
      IsRuns(groups[..n] + [groups[n] + [x]], xs + [x], opens)
  {
    var n := |groups| - 1;
    GrowFlatten(groups, x, false);
    var g := groups[..n] + [groups[n] + [x]];
    assert forall k :: 0 <= k < n ==> g[k] == groups[k];
    assert forall m :: 0 < m < |groups[n]| ==> g[n][m] == groups[n][m];
  }


  /** `Runs` meets its description. */
  lemma {:induction false} RunsAreRuns<T>(xs: seq<T>, opens: T -> bool)
    ensures IsRuns(Runs(xs, opens), xs, opens)
    decreases |xs|
  {
    if xs != [] {
      var front := xs[..|xs| - 1];
      RunsAreRuns(front, opens);
      GrowRuns(Runs(front, opens), front, opens, xs[|xs| - 1]);
      FrontLast(xs);
    }
  }

  /** ... and is the only grouping that does. */
  lemma {:induction false} RunsUnique<T>(groups: seq<seq<T>>, xs: seq<T>, opens: T -> bool)
    requires IsRuns(groups, xs, opens)
    ensures groups == Runs(xs, opens)
    decreases |xs|
  {
    if groups == [] {
      assert xs == [];
    } else {
      var n := |groups| - 1;
      var last := groups[n];
      assert last != [];
      var x := last[|last| - 1];
      FlattenSnoc(groups[..n], last);
      FrontLast(groups);
      FrontLast(last);
      var front := xs[..|xs| - 1];
      assert xs == Flatten(groups[..n]) + last;
      if |last| == 1 {
        var g := groups[..n];
        assert front == Flatten(g);
        RunsPrefix(groups, xs, opens, n);
        RunsUnique(g, front, opens);
        assert g == [] || opens(x);
      } else {
        var g := groups[..n] + [last[..|last| - 1]];
        FlattenSnoc(groups[..n], last[..|last| - 1]);
        AppendAssoc(Flatten(groups[..n]), last[..|last| - 1], [x]);
        assert front == Flatten(g);
        RunsShorter(groups, xs, opens);
        RunsUnique(g, front, opens);
        assert !opens(x);
        assert g[..|g| - 1] == groups[..n];
      }
    }
  }

  /** Dropping the last group, when it is a single element, leaves runs of the rest. */
  lemma RunsPrefix<T>(groups: seq<seq<T>>, xs: seq<T>, opens: T -> bool, n: nat)
    requires IsRuns(groups, xs, opens) && n + 1 == |groups|
    requires Flatten(groups[..n]) == xs[..|xs| - 1]
    ensures IsRuns(groups[..n], xs[..|xs| - 1], opens)
  {
  }

  function Front<T>(xs: seq<T>): seq<T>
    requires xs != []
  {
    xs[..|xs| - 1]
  }

  /** Dropping the last element of a longer last group leaves runs of the rest. */
  lemma RunsShorter<T>(groups: seq<seq<T>>, xs: seq<T>, opens: T -> bool)
    requires IsRuns(groups, xs, opens) && groups != []
    requires |groups[|groups| - 1]| > 1
    requires Flatten(groups[..|groups| - 1] + [Front(groups[|groups| - 1])]) == xs[..|xs| - 1]
    ensures IsRuns(groups[..|groups| - 1] + [Front(groups[|groups| - 1])], xs[..|xs| - 1], opens)
  {
    var n := |groups| - 1;
    var last := groups[n];
    var g := groups[..n] + [last[..|last| - 1]];
    assert forall k :: 0 <= k < n ==> g[k] == groups[k];
    assert forall m :: 0 <= m < |last| - 1 ==> g[n][m] == last[m];
  }

  // ---------------------------------------------------------------------------------------------
  // _split_by_headings

  /** The sections of a text: its lines, split on "\n", in runs begun by heading lines. */
  function SectionLines(text: string): seq<seq<string>>
  {
    Runs(Split(text, "\n"), IsHeading)
  }

  /** What `_split_by_headings` returns. */
  function Sections(text: string): seq<string>
  {
    JoinEach(SectionLines(text), "\n")
  }

  /** Every line is in exactly one section, in order, and no section is empty; every section
      but the first begins with a heading line, and no heading line is anywhere but first. */
  lemma SectionsPartitionLines(text: string)
    ensures IsRuns(SectionLines(text), Split(text, "\n"), IsHeading)
    ensures |SectionLines(text)| >= 1
  {
    RunsAreRuns(Split(text, "\n"), IsHeading);
  }

  /** Joining the sections with "\n" gives the text back. */
  lemma SectionsJoin(text: string)
    ensures Join(Sections(text), "\n") == text
  {
    var groups := SectionLines(text);
    SectionsPartitionLines(text);
    RunsHaveNoEmptyGroup(groups, Split(text, "\n"), IsHeading);
    JoinFlatten(groups, "\n");
    SplitJoin(text, "\n");
  }

  lemma RunsHaveNoEmptyGroup<T>(groups: seq<seq<T>>, xs: seq<T>, opens: T -> bool)
    requires IsRuns(groups, xs, opens)
    ensures forall g <- groups :: g != []
  {
    forall g <- groups ensures g != [] {
      var k :| 0 <= k < |groups| && groups[k] == g;
    }
  }

  /** The state of the loop of `_split_by_headings` after `i` lines: `groups` are the runs of
      those lines, the last of them is `current_section`, and the others, joined, are
      `sections`. */
  predicate SplitProgress(lines: seq<string>, i: nat, groups: seq<seq<string>>,
                          current: seq<string>, sections: seq<string>)
  {
    && i <= |lines|
    && groups == Runs(lines[..i], IsHeading)
    && (groups == []) == (current == [])
    && current == OpenGroup(groups)
    && sections == JoinEach(ClosedGroups(groups), "\n")
  }

  function ClosedGroups<T>(groups: seq<seq<T>>): seq<seq<T>>
  {
    if groups == [] then [] else groups[..|groups| - 1]
  }

  function OpenGroup<T>(groups: seq<seq<T>>): seq<T>
  {
    if groups == [] then [] else groups[|groups| - 1]
  }

  lemma JoinEachSnoc(groups: seq<seq<string>>, g: seq<string>, sep: string)
    ensures JoinEach(groups + [g], sep) == JoinEach(groups, sep) + [Join(g, sep)]
  {
    assert (groups + [g])[..|groups|] == groups;
  }

  /** The sections after the loop: the closed ones and the open one. */
  lemma CloseLast(groups: seq<seq<string>>, sep: string)
    requires groups != []
    ensures JoinEach(ClosedGroups(groups), sep) + [Join(OpenGroup(groups), sep)] == JoinEach(groups, sep)
  {
    JoinEachSnoc(groups[..|groups| - 1], groups[|groups| - 1], sep);
    FrontLast(groups);
  }

  /** One line through the loop: a heading closes a non-empty `current_section`, and the line
      joins `current_section`. */
  lemma SplitStep(lines: seq<string>, i: nat, groups: seq<seq<string>>,
                  current: seq<string>, sections: seq<string>)
    requires SplitProgress(lines, i, groups, current, sections) && i < |lines|
    ensures var line := lines[i];
      var closes := IsHeading(line) && current != [];
      SplitProgress(lines, i + 1, Grow(groups, line, IsHeading(line)),
                    (if closes then [] else current) + [line],
                    if closes then sections + [Join(current, "\n")] else sections)
  {
    assert lines[..i + 1][..i] == lines[..i];
    var line := lines[i];
    if groups != [] && IsHeading(line) {
      JoinEachSnoc(ClosedGroups(groups), current, "\n");
      CloseLast(groups, "\n");
    }
  }

  /** `_split_by_headings`. */
  method SplitByHeadings(text: string) returns (sections: seq<string>)
    ensures sections == Sections(text)
  {
    var lines := Split(text, "\n");
    sections := [];
    var currentSection: seq<string> := [];
    ghost var groups: seq<seq<string>> := [];
    TakeNone(lines);
    for i := 0 to |lines|
      invariant SplitProgress(lines, i, groups, currentSection, sections)
    {
      var line := lines[i];
      SplitStep(lines, i, groups, currentSection, sections);
      if IsHeading(line) {
        if currentSection != [] {
          sections := sections + [Join(currentSection, "\n")];
          currentSection := [];
        }
      }
      currentSection := currentSection + [line];
      groups := Grow(groups, line, IsHeading(line));
    }
    TakeAll(lines);
    if currentSection != [] {
      CloseLast(groups, "\n");
      sections := sections + [Join(currentSection, "\n")];
    }
  }

  // ---------------------------------------------------------------------------------------------
  // _semantic_segment_section

  /** A sentence of a section with its position among the section's sentences. */
  datatype Sentence = Sentence(index: nat, text: string)

  function Numbering(sentences: seq<string>): (r: seq<Sentence>)
    ensures |r| == |sentences|
  {
    seq(|sentences|, i requires 0 <= i < |sentences| => Sentence(i, sentences[i]))
  }

  function Texts(g: seq<Sentence>): seq<string>
  {
    seq(|g|, i requires 0 <= i < |g| => g[i].text)
  }

  function TextsEach(groups: seq<seq<Sentence>>): seq<seq<string>>
  {
    seq(|groups|, k requires 0 <= k < |groups| => Texts(groups[k]))
  }

  /** `low(i)` is `similarities[i] < boundary_threshold`, the similarity of sentences `i` and
      `i + 1`. A sentence opens a segment when the similarity to the one before it is low. */
  function OpensSegment(low: nat -> bool): Sentence -> bool
  {
    (x: Sentence) => x.index > 0 && low(x.index - 1)
  }

  /** The sentences of a section in segments. */
  function SentenceRuns(sentences: seq<string>, low: nat -> bool): seq<seq<Sentence>>
  {
    Runs(Numbering(sentences), OpensSegment(low))
  }

  /** What `_semantic_segment_section` returns: the section itself when it has at most one
      sentence, and otherwise each segment's sentences joined by a space. */
  function SemanticSegments(section: string, sentences: seq<string>, low: nat -> bool): seq<string>
  {
    if |sentences| <= 1 then [section] else JoinEach(TextsEach(SentenceRuns(sentences, low)), " ")
  }

  /** A new segment begins at sentence `j > 0` exactly when the similarity between sentences
      `j - 1` and `j` is low: the first sentence of every segment but the first follows a low
      similarity, and every other sentence follows one that is not low. */
  lemma SegmentBoundaries(sentences: seq<string>, low: nat -> bool)
    ensures var groups := SentenceRuns(sentences, low);
      && (forall k :: 0 < k < |groups| && groups[k] != [] ==>
            groups[k][0].index > 0 && low(groups[k][0].index - 1))
      && (forall k, m :: 0 <= k < |groups| && 0 < m < |groups[k]| ==>
            !(groups[k][m].index > 0 && low(groups[k][m].index - 1)))
  {
    var groups: seq<seq<Sentence>> := SentenceRuns(sentences, low);
    RunsAreRuns(Numbering(sentences), OpensSegment(low));
    forall k: int | 0 < k < |groups| && groups[k] != []
      ensures groups[k][0].index > 0 && low(groups[k][0].index - 1)
    {
      assert OpensSegment(low)(groups[k][0]);
    }
    forall k: int, m: int | 0 <= k < |groups| && 0 < m < |groups[k]|
      ensures !(groups[k][m].index > 0 && low(groups[k][m].index - 1))
    {
      assert !OpensSegment(low)(groups[k][m]);
    }
  }

  lemma TextsSnoc(g: seq<Sentence>, x: Sentence)
    ensures Texts(g + [x]) == Texts(g) + [x.text]
  {
  }

  lemma TextsEachSnoc(groups: seq<seq<Sentence>>, g: seq<Sentence>)
    ensures TextsEach(groups + [g]) == TextsEach(groups) + [Texts(g)]
  {
  }

  lemma TextsNumbering(sentences: seq<string>)
    ensures Texts(Numbering(sentences)) == sentences
  {
  }

  lemma {:induction false} FlattenTexts(groups: seq<seq<Sentence>>)
    ensures Flatten(TextsEach(groups)) == Texts(Flatten(groups))
  {
    if groups != [] {
      var n := |groups| - 1;
      FlattenTexts(groups[..n]);
      FrontLast(groups);
      TextsEachSnoc(groups[..n], groups[n]);
      FlattenSnoc(TextsEach(groups[..n]), Texts(groups[n]));
      FlattenSnoc(groups[..n], groups[n]);
      TextsAppend(Flatten(groups[..n]), groups[n]);
    }
  }

  lemma TextsAppend(a: seq<Sentence>, b: seq<Sentence>)
    ensures Texts(a + b) == Texts(a) + Texts(b)
  {
  }

  /** The segments hold every sentence once, in order, none of them empty. */
  lemma SentencesKeptInOrder(sentences: seq<string>, low: nat -> bool)
    ensures Flatten(TextsEach(SentenceRuns(sentences, low))) == sentences
    ensures forall g <- TextsEach(SentenceRuns(sentences, low)) :: g != []
  {
    var groups: seq<seq<Sentence>> := SentenceRuns(sentences, low);
    RunsAreRuns(Numbering(sentences), OpensSegment(low));
    FlattenTexts(groups);
    TextsNumbering(sentences);
    forall g <- TextsEach(groups) ensures g != [] {
      var k :| 0 <= k < |groups| && TextsEach(groups)[k] == g;
    }
  }

  /** The state of the loop of `_semantic_segment_section` once the similarity between
      sentences `i - 1` and `i` has been looked at: `groups` are the segments of the first
      `i + 1` sentences, the last of them is `current_segment`, and the others, joined, are
      `segments`. */
  predicate SemanticProgress(sentences: seq<string>, low: nat -> bool, i: nat,
                             groups: seq<seq<Sentence>>, current: seq<string>, segments: seq<string>)
  {
    && i < |sentences|
    && groups == Runs(Numbering(sentences)[..i + 1], OpensSegment(low))
    && groups != []
    && current == Texts(OpenGroup(groups))
    && segments == JoinEach(TextsEach(ClosedGroups(groups)), " ")
  }

  lemma SemanticStart(sentences: seq<string>, low: nat -> bool)
    requires |sentences| > 1
    ensures SemanticProgress(sentences, low, 0, [[Numbering(sentences)[0]]], [sentences[0]], [])
  {
    var xs := Numbering(sentences)[..1];
    assert xs[..0] == [];
  }

  /** One similarity through the loop: a low one closes `current_segment` and starts a new one
      with the next sentence; otherwise the next sentence joins `current_segment`. */
  lemma SemanticStep(sentences: seq<string>, low: nat -> bool, i: nat,
                     groups: seq<seq<Sentence>>, current: seq<string>, segments: seq<string>)
    requires SemanticProgress(sentences, low, i, groups, current, segments) && i + 1 < |sentences|
    ensures var x := Numbering(sentences)[i + 1];
      SemanticProgress(sentences, low, i + 1, Grow(groups, x, low(i)),
                       if low(i) then [sentences[i + 1]] else current + [sentences[i + 1]],
                       if low(i) then segments + [Join(current, " ")] else segments)
  {
    var xs := Numbering(sentences);
    var x := xs[i + 1];
    assert xs[..i + 2][..i + 1] == xs[..i + 1];
    assert OpensSegment(low)(x) == low(i);
    var n := |groups| - 1;
    FrontLast(groups);
    if low(i) {
      TextsEachSnoc(groups[..n], groups[n]);
      JoinEachSnoc(TextsEach(groups[..n]), Texts(groups[n]), " ");
      assert Texts([x]) == [sentences[i + 1]];
    } else {
      TextsSnoc(groups[n], x);
    }
  }

  /** `_semantic_segment_section`, given the sentences `sent_tokenize` finds in the section and
      which adjacent similarities are low. */
  method SemanticSegmentSection(section: string, sentences: seq<string>, low: nat -> bool)
    returns (segments: seq<string>)
    ensures segments == SemanticSegments(section, sentences, low)
  {
    if |sentences| <= 1 {
      return [section];
    }
    segments := [];
    var currentSegment := [sentences[0]];
    ghost var groups := [[Numbering(sentences)[0]]];
    SemanticStart(sentences, low);
    for i := 0 to |sentences| - 1
      invariant SemanticProgress(sentences, low, i, groups, currentSegment, segments)
    {
      SemanticStep(sentences, low, i, groups, currentSegment, segments);
      if low(i) {
        segments := segments + [Join(currentSegment, " ")];
        currentSegment := [sentences[i + 1]];
      } else {
        currentSegment := currentSegment + [sentences[i + 1]];
      }
      groups := Grow(groups, Numbering(sentences)[i + 1], low(i));
    }
    SemanticDone(section, sentences, low, groups, currentSegment, segments);
    if currentSegment != [] {
      segments := segments + [Join(currentSegment, " ")];
    }
  }

  /** After the loop, the last segment is not empty, and closing it completes the segments. */
  lemma SemanticDone(section: string, sentences: seq<string>, low: nat -> bool,
                     groups: seq<seq<Sentence>>, current: seq<string>, segments: seq<string>)
    requires |sentences| > 1
    requires SemanticProgress(sentences, low, |sentences| - 1, groups, current, segments)
    ensures current != []
    ensures segments + [Join(current, " ")] == SemanticSegments(section, sentences, low)
  {
    TakeAll(Numbering(sentences));
    CloseLast(TextsEach(groups), " ");
    assert ClosedGroups(TextsEach(groups)) == TextsEach(ClosedGroups(groups));
    assert OpenGroup(TextsEach(groups)) == Texts(OpenGroup(groups));
    assert OpenGroup(groups) != [] by {
      RunsAreRuns(Numbering(sentences), OpensSegment(low));
    }
  }

  // ---------------------------------------------------------------------------------------------
  // _refine_with_embeddings

  /** Where the run the segment at `i` begins ends, looking from `j`: the first index from `j` on
      whose segment is not similar to segment `i`, or the end. `similar(i, j)` is
      `similarity_matrix[i, j] > similarity_threshold`. */
  function RunEnd(n: nat, similar: (nat, nat) -> bool, i: nat, j: nat): (e: nat)
    requires j <= n
    ensures j <= e <= n
    ensures forall k :: j <= k < e ==> similar(i, k)
    ensures e < n ==> !similar(i, e)
    decreases n - j
  {
    if j == n || !similar(i, j) then j else RunEnd(n, similar, i, j + 1)
  }

  /** The runs from segment `i` on: each begins at the first segment not similar to the head of
      the run before it. */
  function MergeGroups(segments: seq<string>, similar: (nat, nat) -> bool, i: nat): seq<seq<string>>
    requires i <= |segments|
    decreases |segments| - i
  {
    if i == |segments| then []
    else
      var e := RunEnd(|segments|, similar, i, i + 1);
      [segments[i..e]] + MergeGroups(segments, similar, e)
  }

  /** What `_refine_with_embeddings` returns: every run joined by "\n". */
  function Merged(segments: seq<string>, similar: (nat, nat) -> bool): seq<string>
  {
    JoinEach(MergeGroups(segments, similar, 0), "\n")
  }

  /** The runs partition the segments from `i` on, in order, into non-empty runs, at most as
      many as there are segments. */
  lemma {:induction false} MergeGroupsPartition(segments: seq<string>, similar: (nat, nat) -> bool, i: nat)
    requires i <= |segments|
    ensures Flatten(MergeGroups(segments, similar, i)) == segments[i..]
    ensures forall g <- MergeGroups(segments, similar, i) :: g != []
    ensures |MergeGroups(segments, similar, i)| <= |segments| - i
    decreases |segments| - i
  {
    if i < |segments| {
      var e := RunEnd(|segments|, similar, i, i + 1);
      var rest := MergeGroups(segments, similar, e);
      MergeGroupsPartition(segments, similar, e);
      FlattenAppend([segments[i..e]], rest);
      assert Flatten([segments[i..e]]) == segments[i..e] by {
        FlattenSnoc<string>([], segments[i..e]);
      }
      assert segments[i..] == segments[i..e] + segments[e..];
    }
  }

  /** Merging keeps the text: joining the merged segments with "\n" is joining the segments
      with "\n". */
  lemma MergedJoin(segments: seq<string>, similar: (nat, nat) -> bool)
    ensures Join(Merged(segments, similar), "\n") == Join(segments, "\n")
  {
    MergeGroupsPartition(segments, similar, 0);
    JoinFlatten(MergeGroups(segments, similar, 0), "\n");
    assert segments[0..] == segments;
  }

  /** Merging never adds segments, and empty input gives empty output. */
  lemma MergedBound(segments: seq<string>, similar: (nat, nat) -> bool)
    ensures |Merged(segments, similar)| <= |segments|
    ensures segments == [] <==> Merged(segments, similar) == []
  {
    MergeGroupsPartition(segments, similar, 0);
    if segments != [] {
      assert |MergeGroups(segments, similar, 0)| > 0;
    }
  }

  lemma JoinSnoc(a: seq<string>, x: string, sep: string)
    requires a != []
    ensures Join(a + [x], sep) == Join(a, sep) + sep + x
  {
    assert (a + [x])[..|a|] == a;
  }

  lemma JoinEachCons(g: seq<string>, rest: seq<seq<string>>, sep: string)
    ensures JoinEach([g] + rest, sep) == [Join(g, sep)] + JoinEach(rest, sep)
  {
  }

  /** The inner loop: `current_segment` is the run of segment `i` so far, up to `j`. */
  lemma RefineInnerStep(segments: seq<string>, i: nat, j: nat)
    requires i < j < |segments|
    ensures segments[i..j + 1] == segments[i..j] + [segments[j]]
    ensures Join(segments[i..j + 1], "\n") == Join(segments[i..j], "\n") + "\n" + segments[j]
  {
    assert segments[i..j + 1] == segments[i..j] + [segments[j]];
    JoinSnoc(segments[i..j], segments[j], "\n");
  }

  /** The outer loop: closing the run of `i` at `j` moves it from the rest to `merged`. */
  lemma RefineOuterStep(segments: seq<string>, similar: (nat, nat) -> bool, i: nat, j: nat,
                        merged: seq<string>)
    requires i < |segments| && j == RunEnd(|segments|, similar, i, i + 1)
    ensures (merged + [Join(segments[i..j], "\n")]) + JoinEach(MergeGroups(segments, similar, j), "\n")
            == merged + JoinEach(MergeGroups(segments, similar, i), "\n")
  {
    JoinEachCons(segments[i..j], MergeGroups(segments, similar, j), "\n");
    AppendAssoc(merged, [Join(segments[i..j], "\n")], JoinEach(MergeGroups(segments, similar, j), "\n"));
  }

  /** The inner loop of `_refine_with_embeddings`: extend the run of segment `i` while the next
      segment is similar to segment `i`. */
  method ExtendRun(segments: seq<string>, similar: (nat, nat) -> bool, i: nat)
    returns (currentSegment: string, j: nat)
    requires i < |segments|
    ensures j == RunEnd(|segments|, similar, i, i + 1)
    ensures currentSegment == Join(segments[i..j], "\n")
  {
    currentSegment := segments[i];
    j := i + 1;
    assert segments[i..j] == [segments[i]];
    while j < |segments| && similar(i, j)
      invariant i < j <= |segments|
      invariant currentSegment == Join(segments[i..j], "\n")
      invariant RunEnd(|segments|, similar, i, j) == RunEnd(|segments|, similar, i, i + 1)
      decreases |segments| - j
    {
      RefineInnerStep(segments, i, j);
      currentSegment := currentSegment + "\n" + segments[j];
      j := j + 1;
    }
  }

  /** `_refine_with_embeddings`, given which pairs of segments are similar. */
  method RefineWithEmbeddings(segments: seq<string>, similar: (nat, nat) -> bool)
    returns (mergedSegments: seq<string>)
    ensures mergedSegments == Merged(segments, similar)
  {
    if segments == [] {
      return segments;
    }
    mergedSegments := [];
    var i := 0;
    AppendEmpty(JoinEach(MergeGroups(segments, similar, 0), "\n"));
    while i < |segments|
      invariant i <= |segments|
      invariant mergedSegments + JoinEach(MergeGroups(segments, similar, i), "\n") == Merged(segments, similar)
      decreases |segments| - i
    {
      var currentSegment, j := ExtendRun(segments, similar, i);
      RefineOuterStep(segments, similar, i, j, mergedSegments);
      mergedSegments := mergedSegments + [currentSegment];
      i := j;
    }
    AppendEmpty(mergedSegments);
  }

  // ---------------------------------------------------------------------------------------------
  // segment_text

  /** What the service finds in a section: the sentences `sent_tokenize` splits it into, with
      which adjacent similarities are low, or an exception on the way there. */
  datatype SectionAnalysis =
    | SentencesFound(sentences: seq<string>, low: nat -> bool)
    | AnalysisFailed

  /** The segments one section contributes. A section whose semantic step throws contributes
      itself; without embeddings there is no model, so a section of several sentences throws. */
  function SectionSegments(section: string, useEmbeddings: bool, analysis: SectionAnalysis): seq<string>
  {
    match analysis
    case AnalysisFailed => [section]
    case SentencesFound(sentences, low) =>
      if |sentences| > 1 && !useEmbeddings then [section]
      else SemanticSegments(section, sentences, low)
  }

  /** `all_segments` after the loop over the heading sections. */
  function AllSegments(sections: seq<string>, useEmbeddings: bool, analyse: string -> SectionAnalysis)
    : seq<string>
  {
    if sections == [] then []
    else
      var last := sections[|sections| - 1];
      AllSegments(sections[..|sections| - 1], useEmbeddings, analyse)
      + SectionSegments(last, useEmbeddings, analyse(last))
  }

  /** The segments `segment_text` numbers. */
  function PipelineSegments(text: string, useEmbeddings: bool, analyse: string -> SectionAnalysis,
                            similar: (nat, nat) -> bool): seq<string>
  {
    var all := AllSegments(Sections(text), useEmbeddings, analyse);
    if useEmbeddings then Merged(all, similar) else all
  }

  /** `enumerate`. */
  function Enumerate(segments: seq<string>): seq<(nat, string)>
  {
    seq(|segments|, i requires 0 <= i < |segments| => (i, segments[i]))
  }

  /** The text of each numbered segment, in order. */
  function Unnumbered(numbered: seq<(nat, string)>): seq<string>
  {
    if numbered == [] then [] else Unnumbered(numbered[..|numbered| - 1]) + [numbered[|numbered| - 1].1]
  }

  /** The output is numbered 0..n-1 in list order, and dropping the numbers gives the segments
      back. */
  lemma {:induction false} EnumerateNumbers(segments: seq<string>)
    ensures forall i :: 0 <= i < |Enumerate(segments)| ==> Enumerate(segments)[i].0 == i
    ensures Unnumbered(Enumerate(segments)) == segments
    decreases |segments|
  {
    if segments != [] {
      var n := |segments| - 1;
      EnumerateNumbers(segments[..n]);
      assert Enumerate(segments)[..n] == Enumerate(segments[..n]);
      FrontLast(segments);
    }
  }

  /** One section through the loop of `segment_text`. */
  lemma AllSegmentsStep(sections: seq<string>, k: nat, useEmbeddings: bool,
                        analyse: string -> SectionAnalysis)
    requires k < |sections|
    ensures AllSegments(sections[..k + 1], useEmbeddings, analyse)
            == AllSegments(sections[..k], useEmbeddings, analyse)
               + SectionSegments(sections[k], useEmbeddings, analyse(sections[k]))
  {
    assert sections[..k + 1][..k] == sections[..k];
  }

  /** Sections that each contribute themselves are the segments unchanged. */
  lemma {:induction false} WholeSections(sections: seq<string>, useEmbeddings: bool,
                                         analyse: string -> SectionAnalysis)
    requires forall s <- sections :: SectionSegments(s, useEmbeddings, analyse(s)) == [s]
    ensures AllSegments(sections, useEmbeddings, analyse) == sections
    decreases |sections|
  {
    if sections != [] {
      var n := |sections| - 1;
      assert forall s <- sections[..n] :: s in sections;
      WholeSections(sections[..n], useEmbeddings, analyse);
      assert SectionSegments(sections[n], useEmbeddings, analyse(sections[n])) == [sections[n]];
      FrontLast(sections);
    }
  }

  /** Without embeddings, the segments are the heading sections: every section either fails its
      semantic step or has at most one sentence. */
  lemma WithoutEmbeddings(text: string, analyse: string -> SectionAnalysis, similar: (nat, nat) -> bool)
    ensures PipelineSegments(text, false, analyse, similar) == Sections(text)
  {
    forall s <- Sections(text) ensures SectionSegments(s, false, analyse(s)) == [s] {
    }
    WholeSections(Sections(text), false, analyse);
  }

  /** With embeddings, the refinement only regroups: joined by "\n", the segments before and after
      it are the same text, and there are no more of them after. */
  lemma RefinementRegroups(text: string, analyse: string -> SectionAnalysis, similar: (nat, nat) -> bool)
    ensures var all := AllSegments(Sections(text), true, analyse);
      && Join(PipelineSegments(text, true, analyse, similar), "\n") == Join(all, "\n")
      && |PipelineSegments(text, true, analyse, similar)| <= |all|
  {
    var all := AllSegments(Sections(text), true, analyse);
    MergedJoin(all, similar);
    MergedBound(all, similar);
  }

  /** The segments of one section, as the body of the loop in `segment_text` computes them. */
  method SegmentSection(section: string, useEmbeddings: bool, analysis: SectionAnalysis)
    returns (segments: seq<string>)
    ensures segments == SectionSegments(section, useEmbeddings, analysis)
  {
    match analysis {
      case AnalysisFailed =>
        segments := [section];
      case SentencesFound(sentences, low) =>
        if |sentences| > 1 && !useEmbeddings {
          segments := [section];
        } else {
          segments := SemanticSegmentSection(section, sentences, low);
        }
    }
  }

  /** `segment_text`. */
  method SegmentText(text: string, useEmbeddings: bool, analyse: string -> SectionAnalysis,
                     similar: (nat, nat) -> bool)
    returns (result: seq<(nat, string)>)
    ensures result == Enumerate(PipelineSegments(text, useEmbeddings, analyse, similar))
  {
    var headingSections := SplitByHeadings(text);
    var allSegments: seq<string> := [];
    TakeNone(headingSections);
    for k := 0 to |headingSections|
      invariant allSegments == AllSegments(headingSections[..k], useEmbeddings, analyse)
    {
      var semanticSegments := SegmentSection(headingSections[k], useEmbeddings, analyse(headingSections[k]));
      AllSegmentsStep(headingSections, k, useEmbeddings, analyse);
      allSegments := allSegments + semanticSegments;
    }
    TakeAll(headingSections);
    if useEmbeddings {
      allSegments := RefineWithEmbeddings(allSegments, similar);
    }
    result := Enumerate(allSegments);
  }
}
