/** The SAX content handler that segments a document while the parser streams it: it collects
    character data in a buffer and, at a block-level element end, at document end, or once the
    buffer holds 10000 characters, segments the buffer, saves every non-blank segment with the
    next order number, and clears the buffer.

    The handler is the class `StreamingSegmentContentHandler`. What it does over a whole stream of
    callbacks is specified by the fold `Run` over `Event`s: the text blocks it flushes, in order,
    and the text left in the buffer. */
module StreamingHandler {
  import opened Strings
  import opened JavaText
  import opened TextSegmenter
  import opened Documents

  /** The buffer length at which `characters` flushes. */
  const CHARACTER_THRESHOLD_PER_CHUNK: nat := 10000

  /** A parser callback. The handler does nothing on callbacks other than `characters`,
      `endElement` and `endDocument`; `ElementStart` stands for all of those. */
  datatype Event =
    | ElementStart(name: string)
    | Text(chars: string)
    | ElementEnd(localName: string)
    | DocumentEnd

  /** `isBlockLevelElement`: the local name is `p`, `div`, `section` or `article`, ignoring case. */
  predicate IsBlockLevelElement(localName: string)
  {
    EqualsIgnoreCase(localName, "p") || EqualsIgnoreCase(localName, "div")
    || EqualsIgnoreCase(localName, "section") || EqualsIgnoreCase(localName, "article")
  }

  /** Case does not matter, but only those four elements end a block: headings, list items,
      table cells and line breaks do not. */
  lemma BlockLevelElements()
    ensures IsBlockLevelElement("p") && IsBlockLevelElement("P") && IsBlockLevelElement("Div")
    ensures IsBlockLevelElement("SECTION") && IsBlockLevelElement("aRtIcLe")
    ensures !IsBlockLevelElement("h1") && !IsBlockLevelElement("li") && !IsBlockLevelElement("td")
    ensures !IsBlockLevelElement("br") && !IsBlockLevelElement("span") && !IsBlockLevelElement("")
    ensures !IsBlockLevelElement("paragraph") && !IsBlockLevelElement("divs")
  {
    assert !EqualsIgnoreCase("h1", "p");
    assert !CharEqualsIgnoreCase('v', 'p');
  }

  /** The state the callbacks change: the text buffer, and the blocks flushed so far. */
  datatype Extraction = Extraction(buffer: string, blocks: seq<string>)

  /** `processAndClearBuffer`, on the text: a non-empty buffer becomes the next block. */
  function Flush(x: Extraction): Extraction
  {
    if |x.buffer| > 0 then Extraction("", x.blocks + [x.buffer]) else x
  }

  /** The handler's response to one callback. */
  function OnEvent(x: Extraction, e: Event): Extraction
  {
    match e
    case ElementStart(_) => x
    case Text(chars) =>
      var y := x.(buffer := x.buffer + chars);
      if |y.buffer| >= CHARACTER_THRESHOLD_PER_CHUNK then Flush(y) else y
    case ElementEnd(localName) => if IsBlockLevelElement(localName) then Flush(x) else x
    case DocumentEnd => Flush(x)
  }

  /** The state after a stream of callbacks delivered to a new handler. */
  function Run(events: seq<Event>): Extraction
  {
    if events == [] then Extraction("", [])
    else OnEvent(Run(events[..|events| - 1]), events[|events| - 1])
  }

  lemma RunSnoc(events: seq<Event>, i: nat)
    requires i < |events|
    ensures Run(events[..i + 1]) == OnEvent(Run(events[..i]), events[i])
  {
    assert events[..i + 1][..i] == events[..i];
  }

  /** All the character data of a stream of callbacks, in order. */
  function Received(events: seq<Event>): string
  {
    if events == [] then ""
    else
      var last := events[|events| - 1];
      Received(events[..|events| - 1]) + (if last.Text? then last.chars else "")
  }

  function Content(x: Extraction): string
  {
    Flatten(x.blocks) + x.buffer
  }

  lemma FlushContent(x: Extraction)
    ensures Content(Flush(x)) == Content(x)
  {
    if |x.buffer| > 0 {
      assert (x.blocks + [x.buffer])[..|x.blocks|] == x.blocks;
      AppendEmpty(Flatten(x.blocks) + x.buffer);
    }
  }

  /** No character is lost or repeated: the flushed blocks, followed by the buffer, are exactly
      the character data received, in order. */
  lemma {:induction false} RunCovers(events: seq<Event>)
    ensures Flatten(Run(events).blocks) + Run(events).buffer == Received(events)
    decreases |events|
  {
    if events != [] {
      var front, e := events[..|events| - 1], events[|events| - 1];
      var x := Run(front);
      RunCovers(front);
      match e
      case Text(chars) =>
        var y := x.(buffer := x.buffer + chars);
        FlushContent(y);
        AppendAssoc(Flatten(x.blocks), x.buffer, chars);
      case ElementEnd(_) =>
        FlushContent(x);
      case DocumentEnd =>
        FlushContent(x);
      case ElementStart(_) =>
    }
  }

  /** Between callbacks the buffer is below the threshold, and every flushed block is non-empty. */
  lemma {:induction false} RunBounds(events: seq<Event>)
    ensures |Run(events).buffer| < CHARACTER_THRESHOLD_PER_CHUNK
    ensures forall b <- Run(events).blocks :: b != ""
    decreases |events|
  {
    if events != [] {
      RunBounds(events[..|events| - 1]);
    }
  }

  /** `endDocument` flushes whatever is left: afterwards the buffer is empty, and the remaining
      text, if any, is the last block. */
  lemma EndDocumentFlushes(events: seq<Event>)
    ensures Run(events + [DocumentEnd]).buffer == ""
    ensures var x := Run(events);
      Run(events + [DocumentEnd]).blocks == x.blocks + (if x.buffer == "" then [] else [x.buffer])
  {
    assert (events + [DocumentEnd])[..|events|] == events;
  }

  /** Character data that keeps the buffer below the threshold is only collected; reaching the
      threshold flushes the whole buffer, including the new data. */
  lemma CharactersFlushAtThreshold(x: Extraction, chars: string)
    ensures |x.buffer + chars| < CHARACTER_THRESHOLD_PER_CHUNK ==> OnEvent(x, Text(chars)) == Extraction(x.buffer + chars, x.blocks)
    ensures |x.buffer + chars| >= CHARACTER_THRESHOLD_PER_CHUNK ==> OnEvent(x, Text(chars)) == Extraction("", x.blocks + [x.buffer + chars])
  {
  }

  /** The non-blank segments of the flushed blocks, block after block: what a handler whose saves
      all succeed saves. */
  function SegmentsOf(blocks: seq<string>): seq<string>
  {
    if blocks == [] then []
    else SegmentsOf(blocks[..|blocks| - 1]) + NonBlank(Segments(blocks[|blocks| - 1]))
  }

  lemma SegmentsOfSnoc(blocks: seq<string>, b: string)
    ensures SegmentsOf(blocks + [b]) == SegmentsOf(blocks) + NonBlank(Segments(b))
  {
    assert (blocks + [b])[..|blocks|] == blocks;
  }

  /** The segments that save `texts` in order for the document with id `documentId`, numbering
      them from `from`. */
  function Numbered(documentId: string, texts: seq<string>, from: int): (r: seq<DocumentSegment>)
    ensures |r| == |texts|
  {
    seq(|texts|, i requires 0 <= i < |texts| => DocumentSegment(documentId, from + i, texts[i]))
  }

  /** Numbering two lists one after the other continues where the first one stopped. */
  lemma NumberedAppend(documentId: string, a: seq<string>, b: seq<string>, from: int, next: int)
    requires next == from + |a|
    ensures Numbered(documentId, a + b, from) == Numbered(documentId, a, from) + Numbered(documentId, b, next)
  {
    var l, r := Numbered(documentId, a + b, from), Numbered(documentId, a, from) + Numbered(documentId, b, next);
    forall i | 0 <= i < |l| ensures l[i] == r[i] {
      if i < |a| {
        assert (a + b)[i] == a[i];
      } else {
        assert (a + b)[i] == b[i - |a|];
      }
    }
  }

  /** The saved segments carry strictly increasing orders, all below `counter`. */
  predicate OrdersBelow(saved: seq<DocumentSegment>, counter: int)
  {
    forall i :: 0 <= i < |saved| ==>
      0 <= saved[i].segmentOrder < counter && (i > 0 ==> saved[i - 1].segmentOrder < saved[i].segmentOrder)
  }

  /** Every saved segment references the document and has non-blank text. */
  predicate References(saved: seq<DocumentSegment>, documentId: string)
  {
    forall s <- saved :: s.documentId == documentId && !IsBlank(s.segmentText)
  }

  /** What a handler's saves did to the repository: the segment table holds what it held
      before plus the saved segments, which are also the journal's latest entries; the counter is
      the number of saves attempted; every saved segment references the document, has non-blank
      text and a fresh, increasing order. */
  predicate Bookkeeping(segments: seq<DocumentSegment>, journal: seq<Write>,
                        baseSegments: seq<DocumentSegment>, baseJournal: seq<Write>,
                        saved: seq<DocumentSegment>, counter: int, lost: nat, documentId: string)
  {
    && segments == baseSegments + saved
    && journal == baseJournal + SegmentWrites(saved)
    && counter == |saved| + lost
    && OrdersBelow(saved, counter)
    && References(saved, documentId)
  }

  /** The totals a handler's books give: no more saves attempted than there are segments, and
      none lost exactly when all were saved. */
  lemma Totals(saved: seq<DocumentSegment>, counter: int, lost: nat, documentId: string, flushed: seq<string>)
    requires counter == |saved| + lost && counter <= |SegmentsOf(flushed)|
    requires lost == 0 ==> saved == Numbered(documentId, SegmentsOf(flushed), 0)
    ensures |saved| + lost <= |SegmentsOf(flushed)|
    ensures lost == 0 <==> |saved| == |SegmentsOf(flushed)|
  {
  }

  /** A successful save of the next segment keeps the books. */
  lemma SavedOne(segments: seq<DocumentSegment>, journal: seq<Write>,
                 baseSegments: seq<DocumentSegment>, baseJournal: seq<Write>,
                 saved: seq<DocumentSegment>, counter: int, lost: nat, documentId: string, text: string)
    requires Bookkeeping(segments, journal, baseSegments, baseJournal, saved, counter, lost, documentId)
    requires !IsBlank(text)
    ensures var s := DocumentSegment(documentId, counter, text);
      Bookkeeping(segments + [s], journal + [SegmentSaved(s)], baseSegments, baseJournal,
                  saved + [s], counter + 1, lost, documentId)
  {
    var s := DocumentSegment(documentId, counter, text);
    SegmentWritesSnoc(saved, s);
    AppendAssoc(baseJournal, SegmentWrites(saved), [SegmentSaved(s)]);
    AppendAssoc(baseSegments, saved, [s]);
  }

  /** Numbering one more text gives it the next order. */
  lemma NumberedSnoc(documentId: string, texts: seq<string>, text: string, from: int)
    ensures Numbered(documentId, texts + [text], from)
         == Numbered(documentId, texts, from) + [DocumentSegment(documentId, from + |texts|, text)]
  {
  }

  /** The loop of `saveSegments` after saving the non-blank segment `segments[i]`. */
  lemma SavedStep(documentId: string, segments: seq<string>, i: nat, from: int,
                  saved0: seq<DocumentSegment>, saved: seq<DocumentSegment>, counter: int)
    requires i < |segments| && !IsBlank(segments[i])
    requires saved == saved0 + Numbered(documentId, NonBlank(segments[..i]), from)
    requires counter == from + |NonBlank(segments[..i])|
    ensures saved + [DocumentSegment(documentId, counter, segments[i])]
         == saved0 + Numbered(documentId, NonBlank(segments[..i + 1]), from)
    ensures counter + 1 == from + |NonBlank(segments[..i + 1])|
  {
    var texts := NonBlank(segments[..i]);
    NonBlankPrefix(segments, i);
    NumberedSnoc(documentId, texts, segments[i], from);
    AppendAssoc(saved0, Numbered(documentId, texts, from), [DocumentSegment(documentId, counter, segments[i])]);
  }

  /** The loop of `saveSegments` after skipping the blank segment `segments[i]`. */
  lemma SkippedStep(segments: seq<string>, i: nat)
    requires i < |segments| && IsBlank(segments[i])
    ensures NonBlank(segments[..i + 1]) == NonBlank(segments[..i])
  {
    NonBlankPrefix(segments, i);
    AppendEmpty(NonBlank(segments[..i]));
  }

  /** The non-blank segments of one more segment. */
  lemma NonBlankPrefix(segments: seq<string>, i: nat)
    requires i < |segments|
    ensures NonBlank(segments[..i + 1]) == NonBlank(segments[..i]) + (if IsBlank(segments[i]) then [] else [segments[i]])
  {
    assert segments[..i + 1] == segments[..i] + [segments[i]];
    NonBlankSnoc(segments[..i], segments[i]);
  }

  /** After a flush whose saves all succeeded, the saved segments are still those of the
      flushed blocks, numbered from 0. */
  lemma FlushedNumbering(documentId: string, blocks: seq<string>, block: string,
                         saved0: seq<DocumentSegment>, saved: seq<DocumentSegment>)
    requires saved0 == Numbered(documentId, SegmentsOf(blocks), 0)
    requires saved == saved0 + Numbered(documentId, NonBlank(Segments(block)), |saved0|)
    ensures saved == Numbered(documentId, SegmentsOf(blocks + [block]), 0)
  {
    var before, more := SegmentsOf(blocks), NonBlank(Segments(block));
    assert |saved0| == |before|;
    calc {
      saved;
      Numbered(documentId, before, 0) + Numbered(documentId, more, |before|);
      { NumberedAppend(documentId, before, more, 0, |before|); }
      Numbered(documentId, before + more, 0);
      { SegmentsOfSnoc(blocks, block); }
      Numbered(documentId, SegmentsOf(blocks + [block]), 0);
    }
  }

  /** What saving `texts` one after the other, numbered from `from`, leaves behind: either all
      of them were saved, or the first few were and the save of the next one failed, which ends
      the stream. */
  predicate SavesOutcome(documentId: string, texts: seq<string>, from: int,
                         saved0: seq<DocumentSegment>, lost0: nat, saved: seq<DocumentSegment>, lost: nat)
  {
    || (lost == lost0 && saved == saved0 + Numbered(documentId, texts, from))
    || (&& lost == lost0 + 1
        && |saved0| <= |saved| < |saved0| + |texts|
        && saved == saved0 + Numbered(documentId, texts[..|saved| - |saved0|], from))
  }

  /** Either outcome adds at most one attempted save per text. */
  lemma SavesOutcomeBound(documentId: string, texts: seq<string>, from: int,
                          saved0: seq<DocumentSegment>, lost0: nat, saved: seq<DocumentSegment>, lost: nat)
    requires SavesOutcome(documentId, texts, from, saved0, lost0, saved, lost)
    ensures |saved| + lost <= |saved0| + lost0 + |texts|
    ensures lost == lost0 <==> |saved| == |saved0| + |texts|
  {
  }

  /** The non-blank segments before a non-blank `segments[i]` are a proper prefix of all the
      non-blank segments. */
  lemma NonBlankProperPrefix(segments: seq<string>, i: nat)
    requires i < |segments| && !IsBlank(segments[i])
    ensures |NonBlank(segments[..i])| < |NonBlank(segments)|
    ensures NonBlank(segments)[..|NonBlank(segments[..i])|] == NonBlank(segments[..i])
  {
    assert segments == segments[..i + 1] + segments[i + 1..];
    NonBlankAppend(segments[..i + 1], segments[i + 1..]);
    NonBlankPrefix(segments, i);
    AppendAssoc(NonBlank(segments[..i]), [segments[i]], NonBlank(segments[i + 1..]));
  }

  /** The loop of `saveSegments` when the save of `segments[i]` fails: what was saved is the
      numbered proper prefix of the non-blank segments that came before it. */
  lemma FailedStep(documentId: string, segments: seq<string>, i: nat, from: int,
                   saved0: seq<DocumentSegment>, saved: seq<DocumentSegment>)
    requires i < |segments| && !IsBlank(segments[i])
    requires saved == saved0 + Numbered(documentId, NonBlank(segments[..i]), from)
    ensures |saved0| <= |saved| < |saved0| + |NonBlank(segments)|
    ensures saved == saved0 + Numbered(documentId, NonBlank(segments)[..|saved| - |saved0|], from)
  {
    NonBlankProperPrefix(segments, i);
  }

  /** Where the loop of `saveSegments` stands after looking at `segments[..i]`: as long as no
      save failed, the non-blank ones among them are saved, numbered from `from`, and the counter
      has moved past them; once one failed, a proper numbered prefix of all the non-blank
      segments is saved and one save is lost. */
  predicate SaveProgress(documentId: string, segments: seq<string>, i: nat, failed: bool, from: int,
                         saved0: seq<DocumentSegment>, lost0: nat,
                         saved: seq<DocumentSegment>, lost: nat, counter: int)
  {
    && i <= |segments|
    && (!failed ==>
          && lost == lost0
          && saved == saved0 + Numbered(documentId, NonBlank(segments[..i]), from)
          && counter == from + |NonBlank(segments[..i])|)
    && (failed ==>
          && lost == lost0 + 1
          && |saved0| <= |saved| < |saved0| + |NonBlank(segments)|
          && saved == saved0 + Numbered(documentId, NonBlank(segments)[..|saved| - |saved0|], from))
  }

  lemma ProgressStart(documentId: string, segments: seq<string>, from: int,
                      saved0: seq<DocumentSegment>, lost0: nat)
    ensures SaveProgress(documentId, segments, 0, false, from, saved0, lost0, saved0, lost0, from)
  {
    TakeNone(segments);
    AppendEmpty(saved0);
  }

  lemma ProgressSkipped(documentId: string, segments: seq<string>, i: nat, from: int,
                        saved0: seq<DocumentSegment>, lost0: nat,
                        saved: seq<DocumentSegment>, lost: nat, counter: int)
    requires SaveProgress(documentId, segments, i, false, from, saved0, lost0, saved, lost, counter)
    requires i < |segments| && IsBlank(segments[i])
    ensures SaveProgress(documentId, segments, i + 1, false, from, saved0, lost0, saved, lost, counter)
  {
    SkippedStep(segments, i);
  }

  lemma ProgressSaved(documentId: string, segments: seq<string>, i: nat, from: int,
                      saved0: seq<DocumentSegment>, lost0: nat,
                      before: seq<DocumentSegment>, lost: nat, counter: int, saved: seq<DocumentSegment>)
    requires SaveProgress(documentId, segments, i, false, from, saved0, lost0, before, lost, counter)
    requires i < |segments| && !IsBlank(segments[i])
    requires saved == before + [DocumentSegment(documentId, counter, segments[i])]
    ensures SaveProgress(documentId, segments, i + 1, false, from, saved0, lost0, saved, lost, counter + 1)
  {
    SavedStep(documentId, segments, i, from, saved0, before, counter);
  }

  lemma ProgressFailed(documentId: string, segments: seq<string>, i: nat, from: int,
                       saved0: seq<DocumentSegment>, lost0: nat,
                       saved: seq<DocumentSegment>, lost: nat, counter: int)
    requires SaveProgress(documentId, segments, i, false, from, saved0, lost0, saved, lost, counter)
    requires i < |segments| && !IsBlank(segments[i])
    ensures SaveProgress(documentId, segments, i + 1, true, from, saved0, lost0, saved, lost + 1, counter + 1)
  {
    FailedStep(documentId, segments, i, from, saved0, saved);
  }

  lemma ProgressDone(documentId: string, segments: seq<string>, i: nat, failed: bool, from: int,
                     saved0: seq<DocumentSegment>, lost0: nat,
                     saved: seq<DocumentSegment>, lost: nat, counter: int)
    requires SaveProgress(documentId, segments, i, failed, from, saved0, lost0, saved, lost, counter)
    requires failed || i == |segments|
    ensures SavesOutcome(documentId, NonBlank(segments), from, saved0, lost0, saved, lost)
  {
    if !failed {
      TakeAll(segments);
    }
  }

  /** A flush keeps the books of `Valid`: the attempted saves stay within the segments of the
      blocks, and as long as no save failed the saved segments are those segments numbered
      from 0. */
  lemma FlushKeepsBooks(documentId: string, blocks: seq<string>, block: string,
                        saved0: seq<DocumentSegment>, lost0: nat, counter0: int,
                        saved: seq<DocumentSegment>, lost: nat, counter: int)
    requires counter0 == |saved0| + lost0 && counter0 <= |SegmentsOf(blocks)|
    requires lost0 == 0 ==> saved0 == Numbered(documentId, SegmentsOf(blocks), 0)
    requires counter == |saved| + lost
    requires SavesOutcome(documentId, NonBlank(Segments(block)), counter0, saved0, lost0, saved, lost)
    ensures counter <= |SegmentsOf(blocks + [block])|
    ensures lost == 0 ==> saved == Numbered(documentId, SegmentsOf(blocks + [block]), 0)
  {
    SavesOutcomeBound(documentId, NonBlank(Segments(block)), counter0, saved0, lost0, saved, lost);
    SegmentsOfSnoc(blocks, block);
    if lost == 0 {
      FlushedNumbering(documentId, blocks, block, saved0, saved);
    }
  }

  /** An empty buffer has nothing to save. */
  lemma NothingToSave(documentId: string, saved: seq<DocumentSegment>, from: int)
    ensures saved + Numbered(documentId, NonBlank(Segments("")), from) == saved
  {
    assert Segments("") == [];
    assert NonBlank([]) == [];
    AppendEmpty(saved);
  }

  class StreamingSegmentContentHandler {
    const document: Document
    const repository: Database
    var currentTextBuffer: string
    var segmentOrderCounter: int

    /** The blocks flushed so far. */
    ghost var flushed: seq<string>
    /** The segments this handler saved, in order. */
    ghost var saved: seq<DocumentSegment>
    /** The number of segment saves that failed. */
    ghost var lost: nat
    /** The repository's contents when the handler was created. */
    ghost const baseJournal: seq<Write>
    ghost const baseDocuments: map<string, Document>
    ghost const baseSegments: seq<DocumentSegment>

    /** The repository is consistent, its documents are untouched, and it keeps the books on
        this handler's saves. */
    ghost predicate Saving()
      reads this, repository
    {
      && repository.Valid()
      && repository.documents == baseDocuments
      && Bookkeeping(repository.segments, repository.journal, baseSegments, baseJournal,
                     saved, segmentOrderCounter, lost, document.id)
    }

    /** Between callbacks, moreover: no more saves were attempted than the flushed blocks have
        non-blank segments, and as long as no save failed, the saved segments are those
        segments, numbered from 0. */
    ghost predicate Valid()
      reads this, repository
    {
      && Saving()
      && segmentOrderCounter <= |SegmentsOf(flushed)|
      && (lost == 0 ==> saved == Numbered(document.id, SegmentsOf(flushed), 0))
    }

    /** The text state, as the fold `Run` describes it. */
    ghost function State(): Extraction
      reads this
    {
      Extraction(currentTextBuffer, flushed)
    }

    constructor (document: Document, repository: Database)
      requires repository.Valid()
      ensures Valid()
      ensures this.document == document && this.repository == repository
      ensures State() == Extraction("", []) && segmentOrderCounter == 0
      ensures saved == [] && lost == 0
      ensures baseJournal == repository.journal && baseDocuments == repository.documents
      ensures baseSegments == repository.segments
    {
      this.document := document;
      this.repository := repository;
      currentTextBuffer := "";
      segmentOrderCounter := 0;
      flushed := [];
      saved := [];
      lost := 0;
      baseJournal := repository.journal;
      baseDocuments := repository.documents;
      baseSegments := repository.segments;
      new;
      AppendEmpty(repository.segments);
      AppendEmpty(repository.journal);
    }

    /** `characters`: append `ch[start..start+length)` to the buffer, and flush once it holds
        at least `CHARACTER_THRESHOLD_PER_CHUNK` characters. */
    method Characters(ch: array<char>, start: nat, length: nat)
      requires Valid()
      requires start + length <= ch.Length
      modifies this, repository
      ensures Valid()
      ensures State() == OnEvent(old(State()), Text(ch[start..start + length]))
      ensures |currentTextBuffer| < CHARACTER_THRESHOLD_PER_CHUNK
      ensures |old(currentTextBuffer)| + length < CHARACTER_THRESHOLD_PER_CHUNK ==>
        && segmentOrderCounter == old(segmentOrderCounter) && saved == old(saved) && lost == old(lost)
        && repository.segments == old(repository.segments) && repository.journal == old(repository.journal)
      ensures |old(currentTextBuffer)| + length >= CHARACTER_THRESHOLD_PER_CHUNK ==>
        SavesOutcome(document.id, NonBlank(Segments(old(currentTextBuffer) + ch[start..start + length])),
                     old(segmentOrderCounter), old(saved), old(lost), saved, lost)
    {
      currentTextBuffer := currentTextBuffer + ch[start..start + length];
      if |currentTextBuffer| >= CHARACTER_THRESHOLD_PER_CHUNK {
        ProcessAndClearBuffer();
      }
    }

    /** `endElement`: flush at the end of a block-level element; any other element changes
        nothing. */
    method EndElement(localName: string)
      requires Valid()
      modifies this, repository
      ensures Valid()
      ensures State() == OnEvent(old(State()), ElementEnd(localName))
      ensures !IsBlockLevelElement(localName) ==>
        && currentTextBuffer == old(currentTextBuffer) && segmentOrderCounter == old(segmentOrderCounter)
        && saved == old(saved) && lost == old(lost)
        && repository.segments == old(repository.segments) && repository.journal == old(repository.journal)
      ensures IsBlockLevelElement(localName) ==>
        SavesOutcome(document.id, NonBlank(Segments(old(currentTextBuffer))),
                     old(segmentOrderCounter), old(saved), old(lost), saved, lost)
    {
      if IsBlockLevelElement(localName) {
        ProcessAndClearBuffer();
      }
    }

    /** `endDocument`: flush whatever is left, leaving the buffer empty. */
    method EndDocument()
      requires Valid()
      modifies this, repository
      ensures Valid()
      ensures State() == OnEvent(old(State()), DocumentEnd)
      ensures currentTextBuffer == ""
      ensures old(currentTextBuffer) == "" ==>
        && segmentOrderCounter == old(segmentOrderCounter) && saved == old(saved) && lost == old(lost)
        && repository.segments == old(repository.segments) && repository.journal == old(repository.journal)
      ensures SavesOutcome(document.id, NonBlank(Segments(old(currentTextBuffer))),
                           old(segmentOrderCounter), old(saved), old(lost), saved, lost)
    {
      ProcessAndClearBuffer();
    }

    /** `processAndClearBuffer`: segment a non-empty buffer, save its non-blank segments with
        the next order numbers until a save fails, and clear the buffer in any case. An empty
        buffer saves nothing. */
    method ProcessAndClearBuffer()
      requires Valid()
      modifies this, repository
      ensures Valid()
      ensures State() == Flush(old(State()))
      ensures old(currentTextBuffer) == "" ==>
        && segmentOrderCounter == old(segmentOrderCounter) && saved == old(saved) && lost == old(lost)
        && repository.segments == old(repository.segments) && repository.journal == old(repository.journal)
      ensures SavesOutcome(document.id, NonBlank(Segments(old(currentTextBuffer))),
                           old(segmentOrderCounter), old(saved), old(lost), saved, lost)
    {
      if |currentTextBuffer| > 0 {
        var textBlock := currentTextBuffer;
        var segments := SegmentText(textBlock);
        ghost var saved0, lost0, flushed0 := saved, lost, flushed;
        SaveSegments(segments);
        currentTextBuffer := "";
        flushed := flushed + [textBlock];
        FlushKeepsBooks(document.id, flushed0, textBlock, saved0, lost0, old(segmentOrderCounter),
                        saved, lost, segmentOrderCounter);
      } else {
        NothingToSave(document.id, saved, segmentOrderCounter);
      }
    }

    /** The stream in `processAndClearBuffer`: save every non-blank segment, numbering it with
        the counter's next value; a failed save ends the stream. */
    method SaveSegments(segments: seq<string>)
      requires Saving()
      modifies this, repository
      ensures Saving()
      ensures currentTextBuffer == old(currentTextBuffer) && flushed == old(flushed)
      ensures SavesOutcome(document.id, NonBlank(segments), old(segmentOrderCounter), old(saved), old(lost), saved, lost)
    {
      var i := 0;
      var failed := false;
      ProgressStart(document.id, segments, segmentOrderCounter, saved, lost);
      while i < |segments| && !failed
        invariant Saving()
        invariant currentTextBuffer == old(currentTextBuffer) && flushed == old(flushed)
        invariant SaveProgress(document.id, segments, i, failed, old(segmentOrderCounter),
                               old(saved), old(lost), saved, lost, segmentOrderCounter)
      {
        if IsBlank(segments[i]) {
          ProgressSkipped(document.id, segments, i, old(segmentOrderCounter), old(saved), old(lost),
                          saved, lost, segmentOrderCounter);
        } else {
          ghost var before, lostBefore, counter := saved, lost, segmentOrderCounter;
          var ok := SaveOne(segments[i]);
          if ok {
            ProgressSaved(document.id, segments, i, old(segmentOrderCounter), old(saved), old(lost),
                          before, lost, counter, saved);
          } else {
            ProgressFailed(document.id, segments, i, old(segmentOrderCounter), old(saved), old(lost),
                           before, lostBefore, counter);
            failed := true;
          }
        }
        i := i + 1;
      }
      ProgressDone(document.id, segments, i, failed, old(segmentOrderCounter), old(saved), old(lost),
                   saved, lost, segmentOrderCounter);
    }

    /** Build the next segment with the counter's value, advance the counter and save it. */
    method SaveOne(text: string) returns (ok: bool)
      requires Saving() && !IsBlank(text)
      modifies this, repository
      ensures Saving()
      ensures currentTextBuffer == old(currentTextBuffer) && flushed == old(flushed)
      ensures segmentOrderCounter == old(segmentOrderCounter) + 1
      ensures ok ==> lost == old(lost) && saved == old(saved) + [DocumentSegment(document.id, old(segmentOrderCounter), text)]
      ensures !ok ==> lost == old(lost) + 1 && saved == old(saved)
    {
      var ds := DocumentSegment(document.id, segmentOrderCounter, text);
      ghost var segments, journal := repository.segments, repository.journal;
      SavedOne(segments, journal, baseSegments, baseJournal, saved, segmentOrderCounter, lost, document.id, text);
      segmentOrderCounter := segmentOrderCounter + 1;
      ok := repository.SaveSegment(ds);
      if ok {
        saved := saved + [ds];
      } else {
        lost := lost + 1;
      }
    }
  }
}
