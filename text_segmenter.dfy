/** `TextSegmenterService`: split a text block into paragraphs, pack the paragraphs greedily
    into segments of bounded length, and cut over-long paragraphs at sentence ends.

    The packing loop is specified by a plan: the sequence of groups it produces, each either a
    run of paragraphs packed into one buffer or a single paragraph handed to the long-paragraph
    splitter. `Segments` renders the plan; `SegmentText` and `SplitLongParagraph` are the loops
    of the service, proved to compute it. */
module TextSegmenter {
  import opened Strings
  import opened JavaText

  const MAX_SEGMENT_LENGTH: nat := 5000
  const PARAGRAPH_SEPARATOR: string := "\n\n"

  // ---------------------------------------------------------------------------------------------
  // Paragraphs

  /** What the packing loop receives: trimmed and not blank (so not empty either). */
  predicate IsParagraph(p: string)
  {
    IsTrimmed(p) && !IsBlank(p)
  }

  /** `split(PARAGRAPH_SEPARATOR)`, then `trim` each piece, then drop the blank ones. */
  function Paragraphs(text: string): (ps: seq<string>)
    ensures forall p <- ps :: IsParagraph(p)
  {
    var trimmed := TrimEach(JavaSplit(text, PARAGRAPH_SEPARATOR));
    NonBlankMembers(trimmed);
    assert forall p <- NonBlank(trimmed) :: p in trimmed;
    NonBlank(trimmed)
  }

  /** The paragraphs are the trimmed, non-blank pieces of the text between its separators, in
      order; the pieces join back to the text, and no paragraph contains a separator. */
  lemma ParagraphsAreSeparatedPieces(text: string)
    ensures Paragraphs(text) == NonBlank(TrimEach(Split(text, PARAGRAPH_SEPARATOR)))
    ensures Join(Split(text, PARAGRAPH_SEPARATOR), PARAGRAPH_SEPARATOR) == text
  {
    JavaSplitFiltered(text, PARAGRAPH_SEPARATOR);
    SplitJoin(text, PARAGRAPH_SEPARATOR);
  }

  lemma ParagraphsSeparatorFree(text: string)
    ensures forall p <- Paragraphs(text) :: Free(p, PARAGRAPH_SEPARATOR)
  {
    var pieces := Split(text, PARAGRAPH_SEPARATOR);
    var trimmed := TrimEach(pieces);
    JavaSplitFiltered(text, PARAGRAPH_SEPARATOR);
    SplitPiecesFree(text, PARAGRAPH_SEPARATOR);
    NonBlankMembers(trimmed);
    forall p <- Paragraphs(text) ensures Free(p, PARAGRAPH_SEPARATOR) {
      assert p in trimmed;
      var i :| 0 <= i < |trimmed| && trimmed[i] == p;
      assert pieces[i] in pieces;
      TrimKeepsFree(pieces[i], PARAGRAPH_SEPARATOR);
    }
  }

  lemma TrimKeepsFree(s: string, sep: string)
    requires Free(s, sep)
    ensures Free(Trim(s), sep)
  {
    var r, lo := Trim(s), LeadingRun(s, AtMostSpace);
    forall i: nat | i <= |r| ensures !OccursAt(r, sep, i) {
      assert !OccursAt(s, sep, lo + i);
      if i + |sep| <= |r| {
        SliceOfSlice(s, lo, lo + |r|, i, i + |sep|);
      }
    }
  }

  // ---------------------------------------------------------------------------------------------
  // The packing plan

  datatype Group =
    | Packed(paras: seq<string>)  // paragraphs joined in one buffer, emitted as one segment
    | Long(para: string)          // a paragraph longer than the maximum, emitted as its chunks

  /** The state of the packing loop between two paragraphs: the groups already emitted and the
      paragraphs in the buffer. */
  datatype Packing = Packing(closed: seq<Group>, open: seq<string>)

  /** The length of the buffer holding `open`. */
  function BufferLength(open: seq<string>): nat
  {
    |Join(open, PARAGRAPH_SEPARATOR)|
  }

  /** The emitted groups once the buffer is flushed: a non-empty buffer becomes a packed group. */
  function Closed(st: Packing): seq<Group>
  {
    if BufferLength(st.open) > 0 then st.closed + [Packed(st.open)] else st.closed
  }

  /** One iteration of the packing loop. The test compares the buffer plus the paragraph with the
      maximum but leaves out the separator that is appended when the buffer is not empty. */
  function PackStep(st: Packing, p: string): Packing
  {
    var len := BufferLength(st.open);
    if len + |p| > MAX_SEGMENT_LENGTH then
      if |p| > MAX_SEGMENT_LENGTH then Packing(Closed(st) + [Long(p)], [])
      else Packing(Closed(st), [p])
    else if len > 0 then Packing(st.closed, st.open + [p])
    else Packing(st.closed, [p])
  }

  function PackAll(paras: seq<string>): Packing
  {
    if paras == [] then Packing([], [])
    else PackStep(PackAll(paras[..|paras| - 1]), paras[|paras| - 1])
  }

  lemma PackAllSnoc(paras: seq<string>, i: nat)
    requires i < |paras|
    ensures PackAll(paras[..i + 1]) == PackStep(PackAll(paras[..i]), paras[i])
  {
    assert paras[..i + 1][..i] == paras[..i];
  }

  /** The groups `segmentText` emits for `paras`: the loop's groups, then the last buffer. */
  function Plan(paras: seq<string>): seq<Group>
  {
    Closed(PackAll(paras))
  }

  function GroupMembers(g: Group): seq<string>
  {
    match g
    case Packed(ps) => ps
    case Long(p) => [p]
  }

  /** The paragraphs of a plan, group after group. */
  function Members(plan: seq<Group>): seq<string>
  {
    if plan == [] then [] else Members(plan[..|plan| - 1]) + GroupMembers(plan[|plan| - 1])
  }

  function FirstMember(g: Group): string
  {
    match g
    case Packed(ps) => if ps == [] then "" else ps[0]
    case Long(p) => p
  }

  /** Every paragraph after the first in a packed group passed the packing test. */
  predicate Fits(ps: seq<string>)
  {
    forall k :: 1 <= k < |ps| ==> BufferLength(ps[..k]) + |ps[k]| <= MAX_SEGMENT_LENGTH
  }

  predicate PackedOk(ps: seq<string>)
  {
    ps != [] && (forall q <- ps :: 0 < |q| <= MAX_SEGMENT_LENGTH) && Fits(ps)
  }

  /** A packed group holds non-empty paragraphs of at most the maximum that passed the test;
      a long group holds a paragraph strictly longer than the maximum. */
  predicate GroupOk(g: Group)
  {
    match g
    case Packed(ps) => PackedOk(ps)
    case Long(p) => |p| > MAX_SEGMENT_LENGTH
  }

  /** If the plan ends with a packed group, a paragraph `q` after it fails the packing test. */
  predicate ClosesBefore(plan: seq<Group>, q: string)
  {
    plan != [] && plan[|plan| - 1].Packed? ==>
      BufferLength(plan[|plan| - 1].paras) + |q| > MAX_SEGMENT_LENGTH
  }

  /** A packed group is closed only because the next paragraph failed the test. */
  predicate Greedy(plan: seq<Group>)
  {
    forall k :: 0 <= k < |plan| - 1 && plan[k].Packed? ==>
      BufferLength(plan[k].paras) + |FirstMember(plan[k + 1])| > MAX_SEGMENT_LENGTH
  }

  predicate PackingOk(st: Packing)
  {
    && (forall g <- st.closed :: GroupOk(g))
    && Greedy(st.closed)
    && (st.open == [] || PackedOk(st.open))
    && (st.closed != [] && st.closed[|st.closed| - 1].Packed? ==> st.open != [])
    && (st.open != [] ==> ClosesBefore(st.closed, st.open[0]))
  }

  lemma MembersSnoc(plan: seq<Group>, g: Group)
    ensures Members(plan + [g]) == Members(plan) + GroupMembers(g)
  {
    assert (plan + [g])[..|plan|] == plan;
  }

  lemma GreedySnoc(plan: seq<Group>, g: Group)
    requires Greedy(plan) && ClosesBefore(plan, FirstMember(g))
    ensures Greedy(plan + [g])
  {
    var p := plan + [g];
    forall k | 0 <= k < |p| - 1 && p[k].Packed?
      ensures BufferLength(p[k].paras) + |FirstMember(p[k + 1])| > MAX_SEGMENT_LENGTH
    {
      if k < |plan| - 1 {
        assert p[k] == plan[k] && p[k + 1] == plan[k + 1];
      }
    }
  }

  lemma JoinSnoc(ps: seq<string>, p: string, sep: string)
    requires ps != []
    ensures Join(ps + [p], sep) == Join(ps, sep) + sep + p
  {
    assert (ps + [p])[..|ps|] == ps;
  }

  /** A buffer is empty exactly when it holds no paragraph. */
  lemma BufferLengthPositive(ps: seq<string>)
    requires forall q <- ps :: q != ""
    ensures BufferLength(ps) > 0 <==> ps != []
  {
    if |ps| > 1 {
      assert ps[|ps| - 1] in ps;
    } else if |ps| == 1 {
      assert ps[0] in ps;
    }
  }

  /** Flushing the buffer keeps the groups well formed and the paragraphs in order. */
  lemma ClosedOk(st: Packing)
    requires PackingOk(st) && forall q <- st.open :: q != ""
    ensures forall g <- Closed(st) :: GroupOk(g)
    ensures Greedy(Closed(st))
    ensures Members(Closed(st)) == Members(st.closed) + st.open
    ensures forall g <- st.closed :: g in Closed(st)
  {
    BufferLengthPositive(st.open);
    if BufferLength(st.open) > 0 {
      GreedySnoc(st.closed, Packed(st.open));
      MembersSnoc(st.closed, Packed(st.open));
      assert forall g <- Closed(st) :: g in st.closed || g == Packed(st.open);
    }
  }

  /** A paragraph that fails the test against the buffer follows the flushed groups greedily. */
  lemma ClosedBefore(st: Packing, p: string)
    requires PackingOk(st) && forall q <- st.open :: q != ""
    requires BufferLength(st.open) + |p| > MAX_SEGMENT_LENGTH
    ensures ClosesBefore(Closed(st), p)
  {
    BufferLengthPositive(st.open);
  }

  lemma ExtendOk(st: Packing, p: string)
    requires PackingOk(st) && st.open != []
    requires 0 < |p| && BufferLength(st.open) + |p| <= MAX_SEGMENT_LENGTH
    ensures PackedOk(st.open + [p])
  {
    var ps := st.open + [p];
    forall k | 1 <= k < |ps| ensures BufferLength(ps[..k]) + |ps[k]| <= MAX_SEGMENT_LENGTH {
      TakeAppend(st.open, [p], k);
      if k == |st.open| {
        TakeAll(st.open);
      }
    }
    assert forall q <- ps :: q in st.open || q == p;
  }

  /** One iteration keeps the packing well formed. */
  lemma PackStepOk(st: Packing, p: string)
    requires PackingOk(st) && forall q <- st.open :: q != ""
    requires p != ""
    ensures PackingOk(PackStep(st, p))
    ensures forall q <- PackStep(st, p).open :: q != ""
  {
    var len := BufferLength(st.open);
    BufferLengthPositive(st.open);
    if len + |p| > MAX_SEGMENT_LENGTH {
      ClosedOk(st);
      ClosedBefore(st, p);
      if |p| > MAX_SEGMENT_LENGTH {
        GreedySnoc(Closed(st), Long(p));
        assert forall g <- Closed(st) + [Long(p)] :: g in Closed(st) || g == Long(p);
      } else {
        assert Fits([p]);
      }
    } else if len > 0 {
      ExtendOk(st, p);
      assert (st.open + [p])[0] == st.open[0];
    } else {
      assert Fits([p]);
    }
  }

  /** One iteration moves the paragraph into the groups or the buffer, in order; a long paragraph
      becomes its own group at once. */
  lemma PackStepKeeps(st: Packing, p: string)
    ensures |p| > MAX_SEGMENT_LENGTH ==> Long(p) in PackStep(st, p).closed
    ensures forall g <- st.closed :: g in PackStep(st, p).closed
  {
  }

  lemma PackStepMembers(st: Packing, p: string)
    requires forall q <- st.open :: q != ""
    ensures Members(PackStep(st, p).closed) + PackStep(st, p).open == Members(st.closed) + st.open + [p]
  {
    var len := BufferLength(st.open);
    BufferLengthPositive(st.open);
    var next := PackStep(st, p);
    if len > 0 {
      MembersSnoc(st.closed, Packed(st.open));
      assert Members(Closed(st)) == Members(st.closed) + st.open;
    } else {
      assert st.open == [];
    }
    if len + |p| > MAX_SEGMENT_LENGTH {
      if |p| > MAX_SEGMENT_LENGTH {
        MembersSnoc(Closed(st), Long(p));
        assert next.closed == Closed(st) + [Long(p)];
      } else {
        assert next == Packing(Closed(st), [p]);
      }
    } else if len > 0 {
      assert next == Packing(st.closed, st.open + [p]);
    } else {
      assert next == Packing(st.closed, [p]);
    }
  }

  /** The loop's state after any prefix: the emitted groups and the buffer are well formed and
      hold exactly the paragraphs seen, in order. */
  lemma {:induction false} PackAllOk(paras: seq<string>)
    requires forall q <- paras :: q != ""
    ensures PackingOk(PackAll(paras))
    ensures Members(PackAll(paras).closed) + PackAll(paras).open == paras
    ensures forall q <- PackAll(paras).open :: q != ""
    decreases |paras|
  {
    if paras != [] {
      var n := |paras| - 1;
      var front, p := paras[..n], paras[n];
      assert forall q <- front :: q in paras;
      assert p in paras;
      PackAllOk(front);
      PackStepOk(PackAll(front), p);
      PackStepMembers(PackAll(front), p);
      FrontLast(paras);
    }
  }

  /** Once seen, a paragraph longer than the maximum stays a group of its own. */
  lemma {:induction false} PackAllLong(paras: seq<string>, i: nat)
    requires forall q <- paras :: q != ""
    requires i < |paras| && |paras[i]| > MAX_SEGMENT_LENGTH
    ensures Long(paras[i]) in PackAll(paras).closed
    decreases |paras|
  {
    var n := |paras| - 1;
    var front, p := paras[..n], paras[n];
    var prev := PackAll(front);
    assert PackAll(paras) == PackStep(prev, p);
    PackStepKeeps(prev, p);
    if i < n {
      assert forall q <- front :: q in paras;
      PackAllLong(front, i);
      assert front[i] == paras[i];
      assert Long(front[i]) in prev.closed;
    }
  }

  lemma {:induction false} GroupOf(plan: seq<Group>, q: string)
    requires q in Members(plan)
    ensures exists g :: g in plan && q in GroupMembers(g)
    decreases |plan|
  {
    var n := |plan| - 1;
    if q !in GroupMembers(plan[n]) {
      GroupOf(plan[..n], q);
      var g :| g in plan[..n] && q in GroupMembers(g);
      assert g in plan;
    }
  }

  /** The plan holds every paragraph once, in input order; every group is well formed; packed
      groups are closed only when the next paragraph failed the test. */
  lemma PlanCorrect(paras: seq<string>)
    requires forall q <- paras :: q != ""
    ensures Members(Plan(paras)) == paras
    ensures forall g <- Plan(paras) :: GroupOk(g)
    ensures Greedy(Plan(paras))
  {
    PackAllOk(paras);
    ClosedOk(PackAll(paras));
  }

  /** A paragraph is handed to the splitter exactly when it is longer than the maximum; one of
      at most the maximum -- exactly the maximum included -- is packed whole. */
  lemma PlanLongExactly(paras: seq<string>, q: string)
    requires forall q <- paras :: q != ""
    requires q in paras
    ensures |q| > MAX_SEGMENT_LENGTH <==> Long(q) in Plan(paras)
    ensures |q| <= MAX_SEGMENT_LENGTH ==> exists g :: g in Plan(paras) && g.Packed? && q in g.paras
  {
    PackAllOk(paras);
    ClosedOk(PackAll(paras));
    var plan := Plan(paras);
    var i :| 0 <= i < |paras| && paras[i] == q;
    if |q| > MAX_SEGMENT_LENGTH {
      PackAllLong(paras, i);
    }
    if Long(q) in plan {
      assert GroupOk(Long(q));
    }
    if |q| <= MAX_SEGMENT_LENGTH {
      GroupOf(plan, q);
      var g :| g in plan && q in GroupMembers(g);
      assert GroupOk(g);
    }
  }

  /** A packed buffer exceeds the maximum by at most the separator length. */
  lemma PackedBound(ps: seq<string>)
    requires PackedOk(ps)
    ensures BufferLength(ps) <= MAX_SEGMENT_LENGTH + |PARAGRAPH_SEPARATOR|
  {
    var k := |ps| - 1;
    if k == 0 {
      assert ps[0] in ps;
    } else {
      assert BufferLength(ps[..k]) + |ps[k]| <= MAX_SEGMENT_LENGTH;
    }
  }

  // ---------------------------------------------------------------------------------------------
  // Splitting a long paragraph

  predicate IsSentenceEnd(c: char)
  {
    c == '.' || c == '?' || c == '!'
  }

  function Min(a: int, b: int): int { if a <= b then a else b }
  function Max(a: int, b: int): int { if a >= b then a else b }

  /** There is a sentence end at an index in (lo, hi]. */
  predicate HasSentenceEnd(p: string, lo: int, hi: int)
  {
    exists k :: lo < k <= hi && 0 <= k < |p| && IsSentenceEnd(p[k])
  }

  /** The largest of `lastIndexOf('.', from)`, `lastIndexOf('?', from)` and
      `lastIndexOf('!', from)`: a sentence end at or before `from`, or -1. */
  function LastSentenceEnd(p: string, from: int): (r: int)
    ensures -1 <= r < |p| && (r == -1 || r <= from)
    ensures 0 <= r ==> IsSentenceEnd(p[r])
  {
    Max(Max(LastIndexOf(p, '.', from), LastIndexOf(p, '?', from)), LastIndexOf(p, '!', from))
  }

  /** It is the last one: no sentence end lies after it up to `from`. */
  lemma LastSentenceEndGreatest(p: string, from: int)
    ensures !HasSentenceEnd(p, LastSentenceEnd(p, from), from)
  {
    LastIndexOfGreatest(p, '.', from);
    LastIndexOfGreatest(p, '?', from);
    LastIndexOfGreatest(p, '!', from);
  }

  /** Where `splitLongParagraph` ends the chunk that begins at `start`; the chunk is never
      empty and at most one character longer than the maximum. */
  function CutPoint(p: string, start: nat): (end: nat)
    requires start < |p|
    ensures start < end <= |p|
    ensures end <= start + MAX_SEGMENT_LENGTH + 1
  {
    var end := Min(start + MAX_SEGMENT_LENGTH, |p|);
    if end < |p| then
      var last := LastSentenceEnd(p, end);
      if last > start then last + 1 else end
    else end
  }

  /** The chunk from `start` is the whole rest when at most the maximum is left; otherwise it
      ends just after the last sentence end in (start, start + MAX_SEGMENT_LENGTH] -- the bound
      itself included -- or, without one, MAX_SEGMENT_LENGTH characters on. */
  lemma CutPointSpec(p: string, start: nat)
    requires start < |p|
    ensures |p| - start <= MAX_SEGMENT_LENGTH ==> CutPoint(p, start) == |p|
    ensures |p| - start > MAX_SEGMENT_LENGTH && HasSentenceEnd(p, start, start + MAX_SEGMENT_LENGTH) ==>
              var end := CutPoint(p, start);
              start + 1 < end && IsSentenceEnd(p[end - 1])
              && !HasSentenceEnd(p, end - 1, start + MAX_SEGMENT_LENGTH)
    ensures |p| - start > MAX_SEGMENT_LENGTH && !HasSentenceEnd(p, start, start + MAX_SEGMENT_LENGTH) ==>
              CutPoint(p, start) == start + MAX_SEGMENT_LENGTH
  {
    if |p| - start > MAX_SEGMENT_LENGTH {
      var last := LastSentenceEnd(p, start + MAX_SEGMENT_LENGTH);
      LastSentenceEndGreatest(p, start + MAX_SEGMENT_LENGTH);
      if HasSentenceEnd(p, start, start + MAX_SEGMENT_LENGTH) {
        var k :| start < k <= start + MAX_SEGMENT_LENGTH && 0 <= k < |p| && IsSentenceEnd(p[k]);
        assert last >= k;
      }
    }
  }

  /** The untrimmed chunks of `p` from `start`: never empty, at most one longer than the
      maximum, and together exactly the rest of `p`. */
  function RawChunks(p: string, start: nat): (chunks: seq<string>)
    requires start <= |p|
    ensures forall c <- chunks :: 0 < |c| <= MAX_SEGMENT_LENGTH + 1
    decreases |p| - start
  {
    if start == |p| then []
    else
      var end := CutPoint(p, start);
      [p[start..end]] + RawChunks(p, end)
  }

  /** The chunks are exactly the rest of the paragraph, cut into pieces: nothing is lost,
      repeated or reordered. */
  lemma {:induction false} RawChunksCover(p: string, start: nat)
    requires start <= |p|
    ensures Flatten(RawChunks(p, start)) == p[start..]
    decreases |p| - start
  {
    if start < |p| {
      var end := CutPoint(p, start);
      var rest := RawChunks(p, end);
      RawChunksCover(p, end);
      FlattenAppend([p[start..end]], rest);
      assert Flatten([p[start..end]]) == p[start..end] by {
        assert [p[start..end]][..0] == [];
      }
      assert p[start..] == p[start..end] + p[end..];
    }
  }

  /** What `splitLongParagraph` returns: the chunks, each trimmed. */
  function SplitChunks(p: string): seq<string>
  {
    TrimEach(RawChunks(p, 0))
  }

  /** Every chunk `splitLongParagraph` returns is at most one character longer than the maximum. */
  lemma SplitChunksBound(p: string)
    ensures forall c <- SplitChunks(p) :: |c| <= MAX_SEGMENT_LENGTH + 1
  {
    var raw := RawChunks(p, 0);
    forall c <- SplitChunks(p) ensures |c| <= MAX_SEGMENT_LENGTH + 1 {
      var i :| 0 <= i < |raw| && c == Trim(raw[i]);
      assert raw[i] in raw;
    }
  }

  /** Without any sentence end, a paragraph is hard-cut into chunks of exactly the maximum,
      the last one holding what is left. */
  lemma {:induction false} HardCuts(p: string, start: nat)
    requires start <= |p|
    requires forall k :: 0 <= k < |p| ==> !IsSentenceEnd(p[k])
    ensures var cs := RawChunks(p, start);
      (forall i :: 0 <= i < |cs| - 1 ==> |cs[i]| == MAX_SEGMENT_LENGTH)
      && (cs != [] ==> |cs[|cs| - 1]| <= MAX_SEGMENT_LENGTH)
    decreases |p| - start
  {
    if start < |p| {
      var end := CutPoint(p, start);
      CutPointSpec(p, start);
      HardCuts(p, end);
      var cs := RawChunks(p, start);
      assert cs == [p[start..end]] + RawChunks(p, end);
      if |p| - start > MAX_SEGMENT_LENGTH {
        assert !HasSentenceEnd(p, start, start + MAX_SEGMENT_LENGTH);
        assert RawChunks(p, end) != [];
      }
    }
  }

  /** The lastIndexOf bound is inclusive: a sentence end exactly MAX_SEGMENT_LENGTH characters
      into the rest yields a chunk one character longer than the maximum. */
  lemma ChunkCanExceedMaximum(p: string)
    requires |p| > MAX_SEGMENT_LENGTH + 1 && p[MAX_SEGMENT_LENGTH] == '.'
    ensures |RawChunks(p, 0)[0]| == MAX_SEGMENT_LENGTH + 1
  {
    assert HasSentenceEnd(p, 0, MAX_SEGMENT_LENGTH);
    CutPointSpec(p, 0);
    var end := CutPoint(p, 0);
    assert !HasSentenceEnd(p, end - 1, MAX_SEGMENT_LENGTH);
    assert end == MAX_SEGMENT_LENGTH + 1;
  }

  // ---------------------------------------------------------------------------------------------
  // Segments

  function RenderGroup(g: Group): seq<string>
  {
    match g
    case Packed(ps) => [Trim(Join(ps, PARAGRAPH_SEPARATOR))]
    case Long(p) => SplitChunks(p)
  }

  /** The segments of a plan, group after group. */
  function Render(plan: seq<Group>): seq<string>
  {
    if plan == [] then [] else Render(plan[..|plan| - 1]) + RenderGroup(plan[|plan| - 1])
  }

  lemma RenderSnoc(plan: seq<Group>, g: Group)
    ensures Render(plan + [g]) == Render(plan) + RenderGroup(g)
  {
    assert (plan + [g])[..|plan|] == plan;
  }

  /** What `segmentText` returns. */
  function Segments(text: string): seq<string>
  {
    if IsBlank(text) then [] else Render(Plan(Paragraphs(text)))
  }

  /** Blank input gives no segment, and so does input the split leaves no paragraph in. */
  lemma BlankGivesNothing(text: string)
    requires IsBlank(text) || Paragraphs(text) == []
    ensures Segments(text) == []
  {
    if !IsBlank(text) {
      assert PackAll([]) == Packing([], []);
    }
  }

  /** A join begins with its first piece. */
  lemma {:induction false} JoinStartsWith(ps: seq<string>, sep: string)
    requires ps != []
    ensures ps[0] <= Join(ps, sep)
    decreases |ps|
  {
    if |ps| > 1 {
      var front := ps[..|ps| - 1];
      JoinStartsWith(front, sep);
      assert front[0] == ps[0];
    }
  }

  /** A join ends with its last piece. */
  lemma JoinEndsWith(ps: seq<string>, sep: string)
    requires ps != []
    ensures var j, last := Join(ps, sep), ps[|ps| - 1];
      |last| <= |j| && j[|j| - |last|..] == last
  {
  }

  /** A packed segment is its paragraphs joined by the separator, unchanged by `trim`, not
      blank, and at most MAX_SEGMENT_LENGTH + 2 long. */
  lemma PackedSegment(ps: seq<string>)
    requires PackedOk(ps) && forall q <- ps :: IsParagraph(q)
    ensures RenderGroup(Packed(ps)) == [Join(ps, PARAGRAPH_SEPARATOR)]
    ensures !IsBlank(Join(ps, PARAGRAPH_SEPARATOR))
    ensures |Join(ps, PARAGRAPH_SEPARATOR)| <= MAX_SEGMENT_LENGTH + 2
  {
    var j := Join(ps, PARAGRAPH_SEPARATOR);
    var first, last := ps[0], ps[|ps| - 1];
    assert first in ps && last in ps;
    JoinStartsWith(ps, PARAGRAPH_SEPARATOR);
    JoinEndsWith(ps, PARAGRAPH_SEPARATOR);
    assert IsTrimmed(j) by {
      assert j[0] == first[0];
      assert j[|j| - 1] == last[|last| - 1] by {
        assert j[|j| - |last|..][|last| - 1] == j[|j| - 1];
      }
    }
    assert !IsBlank(j) by {
      var i :| 0 <= i < |first| && !IsWhitespace(first[i]);
      assert j[i] == first[i];
    }
    PackedBound(ps);
  }

  lemma {:induction false} RenderBound(plan: seq<Group>)
    requires forall g <- plan :: GroupOk(g)
    ensures forall s <- Render(plan) :: |s| <= MAX_SEGMENT_LENGTH + 2
    decreases |plan|
  {
    if plan != [] {
      var n := |plan| - 1;
      assert forall g <- plan[..n] :: g in plan;
      RenderBound(plan[..n]);
      assert plan[n] in plan;
      match plan[n]
      case Packed(ps) => PackedBound(ps);
      case Long(p) => SplitChunksBound(p);
    }
  }

  /** Every segment is at most MAX_SEGMENT_LENGTH + 2 characters: the packing test leaves out
      the separator, and the splitter's window includes its bound. */
  lemma SegmentsBound(text: string)
    ensures forall s <- Segments(text) :: |s| <= MAX_SEGMENT_LENGTH + 2
  {
    if !IsBlank(text) {
      PlanCorrect(Paragraphs(text));
      RenderBound(Plan(Paragraphs(text)));
    }
  }

  /** The packing test ignores the separator: two paragraphs whose lengths add up to exactly the
      maximum are packed into one segment of MAX_SEGMENT_LENGTH + 2 characters. */
  lemma PackedCanExceedMaximum(a: string, b: string)
    requires IsParagraph(a) && IsParagraph(b)
    requires |a| + |b| == MAX_SEGMENT_LENGTH
    ensures Render(Plan([a, b])) == [a + PARAGRAPH_SEPARATOR + b]
    ensures |a + PARAGRAPH_SEPARATOR + b| == MAX_SEGMENT_LENGTH + 2
  {
    NotBlankNotEmpty(a);
    NotBlankNotEmpty(b);
    PackAllSnoc([a, b], 0);
    PackAllSnoc([a, b], 1);
    TakeNone([a, b]);
    TakeAll([a, b]);
    assert [a, b][..1] == [a];
    assert PackAll([a]) == Packing([], [a]);
    assert PackAll([a, b]) == Packing([], [a, b]);
    PackedSegment([a, b]);
    RenderSnoc([], Packed([a, b]));
  }

  lemma NotBlankNotEmpty(s: string)
    requires !IsBlank(s)
    ensures |s| > 0
  {
    var i :| 0 <= i < |s| && !IsWhitespace(s[i]);
  }

  // ---------------------------------------------------------------------------------------------
  // The service's loops

  lemma SplitChunksStep(p: string, start: nat)
    requires start < |p|
    ensures TrimEach(RawChunks(p, start)) ==
              [Trim(p[start..CutPoint(p, start)])] + TrimEach(RawChunks(p, CutPoint(p, start)))
  {
    var end := CutPoint(p, start);
    assert RawChunks(p, start) == [p[start..end]] + RawChunks(p, end);
    TrimEachAppend([p[start..end]], RawChunks(p, end));
    TrimEachSingleton(p[start..end]);
  }

  lemma SplitLoopStep(p: string, start: nat, chunks: seq<string>)
    requires start < |p|
    requires chunks + TrimEach(RawChunks(p, start)) == SplitChunks(p)
    ensures var end := CutPoint(p, start);
      (chunks + [Trim(p[start..end])]) + TrimEach(RawChunks(p, end)) == SplitChunks(p)
  {
    var end := CutPoint(p, start);
    SplitChunksStep(p, start);
    AppendAssoc(chunks, [Trim(p[start..end])], TrimEach(RawChunks(p, end)));
  }

  /** `splitLongParagraph`. */
  method SplitLongParagraph(paragraph: string) returns (chunks: seq<string>)
    ensures chunks == SplitChunks(paragraph)
  {
    chunks := [];
    var startIndex := 0;
    AppendEmpty(SplitChunks(paragraph));
    while startIndex < |paragraph|
      invariant startIndex <= |paragraph|
      invariant chunks + TrimEach(RawChunks(paragraph, startIndex)) == SplitChunks(paragraph)
      decreases |paragraph| - startIndex
    {
      var endIndex := CutPoint(paragraph, startIndex);
      SplitLoopStep(paragraph, startIndex, chunks);
      chunks := chunks + [Trim(paragraph[startIndex..endIndex])];
      startIndex := endIndex;
    }
    TrimEachNone(RawChunks(paragraph, startIndex));
    AppendEmpty(chunks);
  }

  /** Flushing the buffer appends its trimmed text to the segments, if it holds any. */
  lemma RenderClosed(st: Packing)
    ensures Render(Closed(st)) ==
              Render(st.closed)
              + (if BufferLength(st.open) > 0 then [Trim(Join(st.open, PARAGRAPH_SEPARATOR))] else [])
  {
    if BufferLength(st.open) > 0 {
      RenderSnoc(st.closed, Packed(st.open));
    }
  }

  /** The loop's branch for a paragraph that fails the test and is itself too long. */
  lemma LongStep(st: Packing, p: string)
    requires BufferLength(st.open) + |p| > MAX_SEGMENT_LENGTH && |p| > MAX_SEGMENT_LENGTH
    ensures Render(PackStep(st, p).closed) == Render(Closed(st)) + SplitChunks(p)
    ensures Join(PackStep(st, p).open, PARAGRAPH_SEPARATOR) == ""
  {
    RenderSnoc(Closed(st), Long(p));
  }

  /** The loop's branch for a paragraph that fails the test but fits on its own. */
  lemma RestartStep(st: Packing, p: string)
    requires BufferLength(st.open) + |p| > MAX_SEGMENT_LENGTH && |p| <= MAX_SEGMENT_LENGTH
    ensures PackStep(st, p).closed == Closed(st)
    ensures Join(PackStep(st, p).open, PARAGRAPH_SEPARATOR) == p
  {
  }

  /** The loop's branch for a paragraph that passes the test. */
  lemma AppendStep(st: Packing, p: string)
    requires BufferLength(st.open) + |p| <= MAX_SEGMENT_LENGTH
    ensures PackStep(st, p).closed == st.closed
    ensures Join(PackStep(st, p).open, PARAGRAPH_SEPARATOR) ==
              if BufferLength(st.open) > 0 then Join(st.open, PARAGRAPH_SEPARATOR) + PARAGRAPH_SEPARATOR + p
              else p
  {
    if BufferLength(st.open) > 0 {
      JoinSnoc(st.open, p, PARAGRAPH_SEPARATOR);
    }
  }

  /** The body of `segmentText`'s loop: one paragraph joins the buffer, or the buffer is flushed
      and the paragraph starts the next one or is split at once. */
  method AddParagraph(segments: seq<string>, currentSegment: string, paragraph: string, ghost st: Packing)
    returns (segments': seq<string>, currentSegment': string)
    requires currentSegment == Join(st.open, PARAGRAPH_SEPARATOR)
    requires segments == Render(st.closed)
    ensures currentSegment' == Join(PackStep(st, paragraph).open, PARAGRAPH_SEPARATOR)
    ensures segments' == Render(PackStep(st, paragraph).closed)
  {
    segments', currentSegment' := segments, currentSegment;
    if |currentSegment'| + |paragraph| > MAX_SEGMENT_LENGTH {
      RenderClosed(st);
      AppendEmpty(segments');
      if |currentSegment'| > 0 {
        segments' := segments' + [Trim(currentSegment')];
        currentSegment' := "";
      }
      if |paragraph| > MAX_SEGMENT_LENGTH {
        var chunks := SplitLongParagraph(paragraph);
        LongStep(st, paragraph);
        segments' := segments' + chunks;
      } else {
        RestartStep(st, paragraph);
        currentSegment' := currentSegment' + paragraph;
      }
    } else {
      AppendStep(st, paragraph);
      if |currentSegment'| > 0 {
        currentSegment' := currentSegment' + PARAGRAPH_SEPARATOR;
      }
      currentSegment' := currentSegment' + paragraph;
    }
  }

  /** `segmentText`. */
  method SegmentText(textBlock: string) returns (segments: seq<string>)
    ensures segments == Segments(textBlock)
  {
    if IsBlank(textBlock) {
      return [];
    }
    var paragraphs := Paragraphs(textBlock);
    segments := [];
    var currentSegment := "";
    ghost var st := Packing([], []);
    TakeNone(paragraphs);
    for i := 0 to |paragraphs|
      invariant st == PackAll(paragraphs[..i])
      invariant currentSegment == Join(st.open, PARAGRAPH_SEPARATOR)
      invariant segments == Render(st.closed)
    {
      PackAllSnoc(paragraphs, i);
      segments, currentSegment := AddParagraph(segments, currentSegment, paragraphs[i], st);
      st := PackStep(st, paragraphs[i]);
    }
    TakeAll(paragraphs);
    RenderClosed(st);
    AppendEmpty(segments);
    if |currentSegment| > 0 {
      segments := segments + [Trim(currentSegment)];
    }
  }
}
