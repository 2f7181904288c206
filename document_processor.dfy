/** `processUploadedDocument`: load the document, mark it in progress, stream the stored file
    through the parser into a `StreamingSegmentContentHandler`, and record the outcome in the
    document's status and status message.

    The parser is abstract: a `ParseOutcome` is the list of callbacks it makes on the handler,
    followed either by a normal return or by the exception it throws. */
module DocumentProcessor {
  import opened Strings
  import opened Documents
  import opened StreamingHandler

  /** The checked exceptions the inner `catch` names. */
  datatype CheckedKind = IOException | SAXException | TikaException

  /** An exception out of opening or parsing the file, with its (nullable) message. `Unchecked`
      is any other exception; the outer `catch` handles it. */
  datatype ParseFailure =
    | Checked(kind: CheckedKind, message: Option<string>)
    | Unchecked(message: Option<string>)

  /** How parsing the stored file goes: the callbacks the parser makes, how the parse ends, and
      whether closing the file afterwards throws an `IOException` (with its nullable message).
      A failure to open the file is a `Checked(IOException, _)` failure with no callbacks. */
  datatype ParseOutcome = ParseOutcome(events: seq<Event>, failure: Option<ParseFailure>,
                                       closeFailure: Option<Option<string>>)

  /** The exception the inner `catch` sees, if any. A failure to close the file after a
      successful parse is thrown after the completed document was saved; after a failed parse it
      is suppressed in favour of the parse's exception. */
  function Outcome(parse: ParseOutcome): Option<ParseFailure>
  {
    if parse.failure.None? && parse.closeFailure.Some? then Some(Checked(IOException, parse.closeFailure.value))
    else parse.failure
  }

  /** Only a close failure after a successful parse saves the document twice after parsing. */
  predicate CompletedThenClosed(parse: ParseOutcome)
  {
    parse.failure.None? && parse.closeFailure.Some?
  }

  /** What the method does with its caller: return its completed future, or throw. */
  datatype ProcessResult = Returned | Threw(message: string)

  const COMPLETED_MESSAGE: string := "Text extraction and segmentation " + "completed successfully"
  const PARSE_FAILED_PREFIX: string := "Tika parsing/segmentation failed: "
  const UNEXPECTED_ERROR_PREFIX: string := "Unexpected error during processing: "
  const NOT_FOUND_PREFIX: string := "Document not found: "

  /** Java's string concatenation writes a null message as "null". */
  function MessageText(message: Option<string>): string
  {
    match message
    case None => "null"
    case Some(text) => text
  }

  /** The status the document ends with. */
  function FinalStatus(failure: Option<ParseFailure>): DocumentStatus
  {
    if failure.None? then TextExtractionCompleted else TextExtractionFailed
  }

  /** The status message the document ends with. */
  function FinalMessage(failure: Option<ParseFailure>): string
  {
    match failure
    case None => COMPLETED_MESSAGE
    case Some(Checked(_, message)) => PARSE_FAILED_PREFIX + MessageText(message)
    case Some(Unchecked(message)) => UNEXPECTED_ERROR_PREFIX + MessageText(message)
  }

  /** The document as saved before parsing. */
  function Started(d: Document): Document
  {
    d.(status := TextExtractionInProgress)
  }

  /** The document as saved after parsing. */
  function Finished(d: Document, failure: Option<ParseFailure>): Document
  {
    Started(d).(status := FinalStatus(failure), statusMessage := Some(FinalMessage(failure)))
  }

  /** The stored status and message tell the three outcomes apart: the status says whether the
      parse failed, and the message's prefix says which `catch` handled the failure. */
  lemma OutcomeIsRecorded(failure: Option<ParseFailure>)
    ensures FinalStatus(failure) == TextExtractionCompleted <==> failure.None?
    ensures FinalStatus(failure) == TextExtractionFailed <==> failure.Some?
    ensures FinalMessage(failure) == COMPLETED_MESSAGE <==> failure.None?
    ensures PARSE_FAILED_PREFIX <= FinalMessage(failure) <==> failure.Some? && failure.value.Checked?
    ensures UNEXPECTED_ERROR_PREFIX <= FinalMessage(failure) <==> failure.Some? && failure.value.Unchecked?
  {
    assert COMPLETED_MESSAGE[0] == 'T' && COMPLETED_MESSAGE[1] == 'e';
    assert PARSE_FAILED_PREFIX[0] == 'T' && PARSE_FAILED_PREFIX[1] == 'i';
    assert UNEXPECTED_ERROR_PREFIX[0] == 'U';
    match failure
    case None =>
    case Some(Checked(_, message)) =>
      var m := FinalMessage(failure);
      assert m[0] == 'T' && m[1] == 'i';
    case Some(Unchecked(message)) =>
      var m := FinalMessage(failure);
      assert m[0] == 'U';
  }

  /** Counting the file's close: the document ends completed exactly when the parse and the
      close both succeed, and a close failure after a successful parse is reported as a parsing
      failure whose message is the close's. */
  lemma CloseFailureIsRecorded(parse: ParseOutcome)
    ensures FinalStatus(Outcome(parse)) == TextExtractionCompleted <==>
              parse.failure.None? && parse.closeFailure.None?
    ensures CompletedThenClosed(parse) ==>
              FinalMessage(Outcome(parse)) == PARSE_FAILED_PREFIX + MessageText(parse.closeFailure.value)
    ensures !CompletedThenClosed(parse) ==> FinalMessage(Outcome(parse)) == FinalMessage(parse.failure)
  {
    OutcomeIsRecorded(Outcome(parse));
  }

  /** What the message does not record: which of the three checked exceptions was thrown, and
      whether its message was null or the text "null". */
  lemma MessageLosesDetail(kind: CheckedKind, other: CheckedKind)
    ensures FinalMessage(Some(Checked(kind, None))) == FinalMessage(Some(Checked(other, Some("null"))))
  {
  }

  /** A fresh `char[]` holding `chars`. */
  method CharArray(chars: string) returns (ch: array<char>)
    ensures fresh(ch) && ch.Length == |chars| && ch[0..|chars|] == chars
  {
    ch := new char[|chars|](k requires 0 <= k < |chars| => chars[k]);
    assert ch[0..|chars|] == chars;
  }

  /** Character data, delivered as the parser does: in a `char[]` with its start and length. */
  method DeliverText(handler: StreamingSegmentContentHandler, chars: string)
    requires handler.Valid()
    modifies handler, handler.repository
    ensures handler.Valid() && handler.State() == OnEvent(old(handler.State()), Text(chars))
  {
    var ch := CharArray(chars);
    handler.Characters(ch, 0, |chars|);
  }

  /** One callback of the parser, delivered to the handler. */
  method DeliverOne(handler: StreamingSegmentContentHandler, e: Event)
    requires handler.Valid()
    modifies handler, handler.repository
    ensures handler.Valid() && handler.State() == OnEvent(old(handler.State()), e)
  {
    match e
    case ElementStart(_) =>
    case Text(chars) =>
      DeliverText(handler, chars);
    case ElementEnd(localName) =>
      handler.EndElement(localName);
    case DocumentEnd =>
      handler.EndDocument();
  }

  /** The parse: deliver the callbacks to the handler in order. */
  method Deliver(handler: StreamingSegmentContentHandler, events: seq<Event>)
    requires handler.Valid() && handler.State() == Extraction("", [])
    modifies handler, handler.repository
    ensures handler.Valid() && handler.State() == Run(events)
  {
    TakeNone(events);
    for i := 0 to |events|
      invariant handler.Valid()
      invariant handler.State() == Run(events[..i])
    {
      RunSnoc(events, i);
      DeliverOne(handler, events[i]);
    }
    TakeAll(events);
  }

  /** The handler of `processUploadedDocument` and the parse: a fresh handler receives the
      parser's callbacks and saves the segments of the text. `saved` and `lost` are the
      segments it saved and the saves that failed. */
  method ExtractSegments(db: Database, document: Document, events: seq<Event>)
    returns (ghost saved: seq<DocumentSegment>, ghost lost: nat)
    requires db.Valid()
    modifies db
    ensures db.Valid()
    ensures db.documents == old(db.documents)
    ensures db.segments == old(db.segments) + saved
    ensures db.journal == old(db.journal) + SegmentWrites(saved)
    ensures References(saved, document.id)
    ensures |saved| + lost <= |SegmentsOf(Run(events).blocks)|
    ensures lost == 0 <==> |saved| == |SegmentsOf(Run(events).blocks)|
    ensures lost == 0 ==> saved == Numbered(document.id, SegmentsOf(Run(events).blocks), 0)
  {
    var handler := new StreamingSegmentContentHandler(document, db);
    Deliver(handler, events);
    saved, lost := handler.saved, handler.lost;
    Totals(saved, handler.segmentOrderCounter, lost, document.id, handler.flushed);
  }

  /** The document saves after parsing: the completed document first when closing the file
      fails after a successful parse, then the document with the outcome. */
  function OutcomeWrites(d: Document, parse: ParseOutcome): seq<Write>
  {
    (if CompletedThenClosed(parse) then [DocumentSaved(Finished(d, None))] else [])
    + [DocumentSaved(Finished(d, Outcome(parse)))]
  }

  /** The end of the `try` blocks: set the status and message the parse (and the close of the
      file) call for, and save the document. */
  method RecordOutcome(db: Database, d: Document, parse: ParseOutcome)
    requires db.Valid()
    modifies db
    ensures db.Valid()
    ensures db.journal == old(db.journal) + OutcomeWrites(d, parse)
    ensures db.documents == old(db.documents)[d.id := Finished(d, Outcome(parse))]
    ensures db.segments == old(db.segments)
  {
    var document := Started(d);
    match parse.failure {
      case None =>
        document := document.(status := TextExtractionCompleted, statusMessage := Some(COMPLETED_MESSAGE));
        if parse.closeFailure.Some? {
          db.SaveDocument(document);
          document := document.(status := TextExtractionFailed,
                                statusMessage := Some(PARSE_FAILED_PREFIX + MessageText(parse.closeFailure.value)));
        }
      case Some(Checked(_, message)) =>
        document := document.(status := TextExtractionFailed,
                              statusMessage := Some(PARSE_FAILED_PREFIX + MessageText(message)));
      case Some(Unchecked(message)) =>
        document := document.(status := TextExtractionFailed,
                              statusMessage := Some(UNEXPECTED_ERROR_PREFIX + MessageText(message)));
    }
    db.SaveDocument(document);
  }

  /** What `processUploadedDocument` does to the store for the found document `d`: it saves
      `d` in progress, then the segments the handler saved, then `d` with its outcome, and the
      handler saved the blocks' non-blank segments, numbered from 0, unless a save failed. */
  ghost predicate Processed(d: Document, parse: ParseOutcome,
                           documents0: map<string, Document>, segments0: seq<DocumentSegment>, journal0: seq<Write>,
                           documents: map<string, Document>, segments: seq<DocumentSegment>, journal: seq<Write>,
                           saved: seq<DocumentSegment>, lost: nat)
  {
    && journal == journal0 + [DocumentSaved(Started(d))] + SegmentWrites(saved) + OutcomeWrites(d, parse)
    && documents == documents0[d.id := Finished(d, Outcome(parse))]
    && segments == segments0 + saved
    && References(saved, d.id)
    && |saved| + lost <= |SegmentsOf(Run(parse.events).blocks)|
    && (lost == 0 <==> |saved| == |SegmentsOf(Run(parse.events).blocks)|)
    && (lost == 0 ==> saved == Numbered(d.id, SegmentsOf(Run(parse.events).blocks), 0))
  }

  /** `processUploadedDocument`. An unknown id throws before anything is written. Otherwise the
      method saves the document in progress, lets the handler save segments while the file is
      parsed, and saves the document once more with the outcome (twice when the parse succeeds
      and closing the file fails: completed, then failed); it then returns normally, whatever
      the parse did. The segments saved before a failure stay saved. `saved` and
      `lost` are the handler's saved segments and failed segment saves. */
  method ProcessUploadedDocument(db: Database, documentId: string, parse: ParseOutcome)
    returns (r: ProcessResult, ghost saved: seq<DocumentSegment>, ghost lost: nat)
    requires db.Valid()
    modifies db
    ensures db.Valid()
    ensures documentId !in old(db.documents) ==>
      r == Threw(NOT_FOUND_PREFIX + documentId) && unchanged(db)
    ensures documentId in old(db.documents) ==>
      && r == Returned
      && Processed(old(db.documents)[documentId], parse,
                   old(db.documents), old(db.segments), old(db.journal),
                   db.documents, db.segments, db.journal, saved, lost)
  {
    if documentId !in db.documents {
      return Threw(NOT_FOUND_PREFIX + documentId), [], 0;
    }
    var document := db.documents[documentId];
    var d := document;
    document := document.(status := TextExtractionInProgress);
    db.SaveDocument(document);
    saved, lost := ExtractSegments(db, document, parse.events);
    RecordOutcome(db, d, parse);
    r := Returned;
  }
}
