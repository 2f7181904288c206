/** The backend's persistent entities and its two JPA repositories, modelled as one in-memory
    database: the documents by id, and the segments in the order they were saved. Timestamps and
    generated segment ids are not modelled. */
module Documents {
  import opened Strings

  /** `DocumentStatus`: the stages of a document in the processing pipeline. */
  datatype DocumentStatus =
    | Uploaded
    | TextExtractionPending
    | TextExtractionInProgress
    | TextExtractionCompleted
    | TextExtractionFailed
    | EmbeddingPending
    | EmbeddingCompleted
    | EmbeddingFailed

  /** The `documents` row. `statusMessage` is nullable. */
  datatype Document = Document(
    id: string,
    originalFileName: string,
    storedFilePath: string,
    fileContentType: string,
    fileSize: int,
    status: DocumentStatus,
    statusMessage: Option<string>)

  /** The `document_segments` row; the reference to the document is its id. */
  datatype DocumentSegment = DocumentSegment(documentId: string, segmentOrder: int, segmentText: string)

  /** A document as the upload endpoint builds it before saving: status `Uploaded` and no status
      message, every other field as given. */
  function NewUpload(id: string, originalFileName: string, storedFilePath: string,
                     fileContentType: string, fileSize: int): (d: Document)
    ensures d.status == Uploaded && d.statusMessage == None
    ensures d.id == id && d.storedFilePath == storedFilePath && d.fileSize == fileSize
  {
    Document(id, originalFileName, storedFilePath, fileContentType, fileSize, Uploaded, None)
  }

  /** One write to the database, as the journal records it. */
  datatype Write = DocumentSaved(document: Document) | SegmentSaved(segment: DocumentSegment)

  /** The segments a journal saved, in order. */
  function SegmentsIn(journal: seq<Write>): seq<DocumentSegment>
  {
    if journal == [] then []
    else
      var last := journal[|journal| - 1];
      SegmentsIn(journal[..|journal| - 1]) + (if last.SegmentSaved? then [last.segment] else [])
  }

  /** The journal entries of saving `segments` one after the other. */
  function SegmentWrites(segments: seq<DocumentSegment>): (w: seq<Write>)
    ensures |w| == |segments|
  {
    seq(|segments|, i requires 0 <= i < |segments| => SegmentSaved(segments[i]))
  }

  lemma SegmentsInSnoc(journal: seq<Write>, w: Write)
    ensures SegmentsIn(journal + [w]) == SegmentsIn(journal) + (if w.SegmentSaved? then [w.segment] else [])
  {
    assert (journal + [w])[..|journal|] == journal;
  }

  lemma SegmentWritesSnoc(segments: seq<DocumentSegment>, s: DocumentSegment)
    ensures SegmentWrites(segments + [s]) == SegmentWrites(segments) + [SegmentSaved(s)]
  {
  }

  /** The document and segment repositories. `journal` records every successful write in order. */
  class Database {
    var documents: map<string, Document>
    var segments: seq<DocumentSegment>
    ghost var journal: seq<Write>

    /** Every document is stored under its own id, and the segment table holds exactly the
        segments the journal saved. */
    ghost predicate Valid()
      reads this
    {
      && (forall id <- documents :: documents[id].id == id)
      && segments == SegmentsIn(journal)
    }

    constructor (documents: map<string, Document>)
      requires forall id <- documents :: documents[id].id == id
      ensures Valid()
      ensures this.documents == documents && segments == [] && journal == []
    {
      this.documents := documents;
      segments := [];
      journal := [];
    }

    /** `documentRepository.save`: insert or replace the document under its id. */
    method SaveDocument(d: Document)
      requires Valid()
      modifies this
      ensures Valid()
      ensures documents == old(documents)[d.id := d]
      ensures segments == old(segments)
      ensures journal == old(journal) + [DocumentSaved(d)]
    {
      documents := documents[d.id := d];
      SegmentsInSnoc(journal, DocumentSaved(d));
      journal := journal + [DocumentSaved(d)];
    }

    /** `documentSegmentRepository.save`, which may throw: `ok` is false when the save failed,
        and then nothing was written. */
    method SaveSegment(s: DocumentSegment) returns (ok: bool)
      requires Valid()
      modifies this
      ensures Valid()
      ensures documents == old(documents)
      ensures ok ==> segments == old(segments) + [s] && journal == old(journal) + [SegmentSaved(s)]
      ensures !ok ==> segments == old(segments) && journal == old(journal)
    {
      ok :| true;
      if ok {
        segments := segments + [s];
        SegmentsInSnoc(journal, SegmentSaved(s));
        journal := journal + [SegmentSaved(s)];
      }
    }
  }
}
