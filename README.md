# InsightLens document processing core, in Dafny

InsightLens takes an uploaded document and processes it in the background. A streaming parser
extracts its text. The backend cuts the text into length-bounded segments and stores them, numbered
in order, next to the document. It records the outcome in the document's status and status
message. A separate Python service offers a second, heading- and sentence-based segmentation of
plain text.

This project models and verifies that core:

- `strings.dfy` (module `Strings`): generic sequence and string operations. These are `Split` and
  `Join` on a separator, `Flatten`, `JoinEach`, a character-run prefix, and stripping a character
  class. It also proves `Split`/`Join` round trips and the other helper lemmas for them.
- `java_text.dfy` (module `JavaText`): the Java `String` behaviour that the backend relies on.
  - `trim` removes characters `<= ' '`.
  - `isBlank` uses `Character.isWhitespace`.
  - `split` drops trailing empty strings.
  - `lastIndexOf(c, from)`.
  - `equalsIgnoreCase` against ASCII words.
- `text_segmenter.dfy` (module `TextSegmenter`): `TextSegmenterService`.
  - `Paragraphs` is the paragraph split.
  - `PackStep`/`Plan` is the greedy packing, a fold whose invariant is proved.
  - `CutPoint`/`RawChunks` is the long-paragraph split.
  - `Segments` is the whole result.
  - The imperative `SegmentText`, `AddParagraph` and `SplitLongParagraph` are proved equal to these
    functions.
- `documents.dfy` (module `Documents`): the entities and storage.
  - `DocumentStatus`, `Document` and `DocumentSegment`.
  - The document as the upload endpoint builds it.
  - The two repositories, as one `Database` class: a map of documents by id and the sequence of
    saved segments. A ghost journal records every write.
- `streaming_handler.dfy` (module `StreamingHandler`): the class
  `StreamingSegmentContentHandler`.
  - It has the source's `currentTextBuffer` and `segmentOrderCounter` fields, and ghost
    bookkeeping of what it saved.
  - Its callbacks are methods proved against `Run`, a pure fold over parser events. `Run` yields the
    flushed text blocks and the text still buffered.
- `document_processor.dfy` (module `DocumentProcessor`):
  `AsyncDocumentProcessorService.processUploadedDocument`. Parsing is a parameter: the callbacks
  the parser makes, then a normal return or one of the exceptions the two `catch` blocks handle.
- `py_text.dfy` (module `PyText`): Python's `str.strip`, `str.isspace`, `str.isupper` and `\d`.
- `segmentation.dfy` (module `Segmentation`): `TextSegmenter` of the Python service.
  - Heading detection.
  - The split into heading sections.
  - The semantic split of a section into sentence runs.
  - The embedding-based merge of similar neighbouring segments.
  - The numbering in `segment_text`.
  - The similarity computations are inputs:
    - `low(i)`: sentence `i` and sentence `i + 1` are less similar than the boundary threshold.
    - `similar(i, j)`: segments `i` and `j` are more similar than the merge threshold.
    - `sent_tokenize` is an input too, as the per-section `SectionAnalysis`.

Each loop of the source is a `method` with a loop, proved equal to a function. The properties the
source promises are lemmas about those functions. Where the code does more, or less, than its own
comments say, the model follows the code, and a lemma shows the input that does it (see below).

### Where the code exceeds its own stated limits

- Segment length. `MAX_SEGMENT_LENGTH` is commented "Maximum characters per segment"
  (`TextSegmenterService.java:15`). The code compares only the buffer length plus the paragraph
  length with 5000. It does not count the two-character separator it then inserts. So a packed
  segment can reach 5002 characters (`PackedCanExceedMaximum`). The bound proved is 5002
  (`SegmentsBound`).
- Chunk length. A long paragraph is cut just after the last `.`, `?` or `!` at or before
  `start + 5000` (`TextSegmenterService.java:83-91`). So a chunk can have 5001 characters
  (`ChunkCanExceedMaximum`, `SplitChunksBound`). After trimming, a chunk can be empty. The handler
  filters such chunks out before saving.
- Segment count. `endDocument` logs the counter as the number of segments created
  (`StreamingSegmentContentHandler.java:55`). The counter is incremented before `save` is called
  (line 76). When a save throws, the counter still counts that segment, and the rest of that
  flushed block is skipped (lines 69-81). So the counter counts the saved segments plus the failed
  saves, and the order numbers of the saved segments skip the number of a failed save.
- Status handling. The comments in `DocumentStatus.java:7-14` describe a pipeline from `UPLOADED`
  through extraction to the embedding states. The code never reads the status before setting it
  to in progress. It never sets `TEXT_EXTRACTION_PENDING` or any embedding status. When the parse
  succeeds but closing the file throws, it saves the document twice: first completed, then failed
  (`CloseFailureIsRecorded`).

## Model

| member | source | states |
|---|---|---|
| TextSegmenter.Paragraphs | insightlens-backend-java/src/main/java/com/insightlens/core/service/TextSegmenterService.java:31-34 | every paragraph is trimmed and not blank |
| TextSegmenter.ParagraphsAreSeparatedPieces | insightlens-backend-java/src/main/java/com/insightlens/core/service/TextSegmenterService.java:31-34 | the paragraphs are the trimmed, non-blank pieces of the text cut at every "\n\n", and joining the pieces with "\n\n" gives the text back |
| TextSegmenter.ParagraphsSeparatorFree | insightlens-backend-java/src/main/java/com/insightlens/core/service/TextSegmenterService.java:31-34 | no paragraph contains "\n\n" |
| TextSegmenter.PlanCorrect | insightlens-backend-java/src/main/java/com/insightlens/core/service/TextSegmenterService.java:39-64 | the packing keeps every paragraph once, in order; each packed group fits the limit; each group is closed only when the next paragraph would not fit (greedy) |
| TextSegmenter.PlanLongExactly | insightlens-backend-java/src/main/java/com/insightlens/core/service/TextSegmenterService.java:41-52 | a paragraph is split on its own exactly when it is longer than 5000; otherwise it lies in a packed group |
| TextSegmenter.PackedBound | insightlens-backend-java/src/main/java/com/insightlens/core/service/TextSegmenterService.java:41-58 | the buffer of a packed group is at most 5000 plus the separator length |
| TextSegmenter.PackedSegment | insightlens-backend-java/src/main/java/com/insightlens/core/service/TextSegmenterService.java:53-63 | a packed group becomes one segment, its paragraphs joined by "\n\n", which is not blank and has at most 5002 characters |
| TextSegmenter.SegmentsBound | insightlens-backend-java/src/main/java/com/insightlens/core/service/TextSegmenterService.java:25-68 | every segment of any text has at most 5002 characters |
| TextSegmenter.PackedCanExceedMaximum | insightlens-backend-java/src/main/java/com/insightlens/core/service/TextSegmenterService.java:53-58 | two paragraphs whose lengths add up to 5000 become one segment of 5002 characters |
| TextSegmenter.BlankGivesNothing | insightlens-backend-java/src/main/java/com/insightlens/core/service/TextSegmenterService.java:26-28 | a blank text, or one without paragraphs, gives no segments |
| TextSegmenter.AddParagraph | insightlens-backend-java/src/main/java/com/insightlens/core/service/TextSegmenterService.java:40-58 | one loop iteration moves the segment list and the current buffer exactly as one packing step of the specification does |
| TextSegmenter.SegmentText | insightlens-backend-java/src/main/java/com/insightlens/core/service/TextSegmenterService.java:25-68 | `segmentText` returns the specified segments of the text |
| TextSegmenter.LastSentenceEnd | insightlens-backend-java/src/main/java/com/insightlens/core/service/TextSegmenterService.java:83-87 | the result is -1 or a position at or before the bound that holds '.', '?' or '!' |
| TextSegmenter.LastSentenceEndGreatest | insightlens-backend-java/src/main/java/com/insightlens/core/service/TextSegmenterService.java:83-87 | no sentence end lies after the result and at or before the bound |
| TextSegmenter.CutPoint | insightlens-backend-java/src/main/java/com/insightlens/core/service/TextSegmenterService.java:79-91 | the cut moves forward and lies at most 5001 characters after the start |
| TextSegmenter.CutPointSpec | insightlens-backend-java/src/main/java/com/insightlens/core/service/TextSegmenterService.java:79-91 | a short rest is taken whole; otherwise the cut is just after the last sentence end in the window, or exactly 5000 characters on when the window has none |
| TextSegmenter.RawChunks | insightlens-backend-java/src/main/java/com/insightlens/core/service/TextSegmenterService.java:78-96 | every untrimmed chunk is non-empty and has at most 5001 characters |
| TextSegmenter.RawChunksCover | insightlens-backend-java/src/main/java/com/insightlens/core/service/TextSegmenterService.java:78-96 | the untrimmed chunks, concatenated, are exactly the rest of the paragraph |
| TextSegmenter.SplitChunksBound | insightlens-backend-java/src/main/java/com/insightlens/core/service/TextSegmenterService.java:74-99 | every chunk of a long paragraph has at most 5001 characters |
| TextSegmenter.HardCuts | insightlens-backend-java/src/main/java/com/insightlens/core/service/TextSegmenterService.java:79-95 | a paragraph without sentence ends is cut into 5000-character chunks and a shorter last one |
| TextSegmenter.ChunkCanExceedMaximum | insightlens-backend-java/src/main/java/com/insightlens/core/service/TextSegmenterService.java:89-91 | a '.' at position 5000 makes a first chunk of 5001 characters |
| TextSegmenter.SplitLongParagraph | insightlens-backend-java/src/main/java/com/insightlens/core/service/TextSegmenterService.java:74-99 | `splitLongParagraph` returns the trimmed chunks of the specification |
| JavaText.Trim | insightlens-backend-java/src/main/java/com/insightlens/core/service/TextSegmenterService.java:32 | the result is the contiguous part of the input after its leading characters <= ' ', and every character after it is <= ' '; it is trimmed, and a trimmed input is unchanged |
| JavaText.NonBlankMembers | insightlens-backend-java/src/main/java/com/insightlens/core/service/TextSegmenterService.java:33 | the filter keeps only non-blank strings of its input |
| JavaText.DropTrailingEmpty | insightlens-backend-java/src/main/java/com/insightlens/core/service/TextSegmenterService.java:31 | Java's `split` result is a prefix of the full split, ends in a non-empty piece (or is empty), and only empty pieces were dropped |
| JavaText.DropTrailingEmptyFiltered | insightlens-backend-java/src/main/java/com/insightlens/core/service/TextSegmenterService.java:31-33 | after trimming and dropping blanks, dropping the trailing empty pieces makes no difference |
| JavaText.JavaSplitFiltered | insightlens-backend-java/src/main/java/com/insightlens/core/service/TextSegmenterService.java:31-33 | the paragraph pipeline over Java's `split` equals the one over the full split |
| JavaText.LastIndexOf | insightlens-backend-java/src/main/java/com/insightlens/core/service/TextSegmenterService.java:83-85 | the result is -1 or a position at or before `from` holding the character |
| JavaText.LastIndexOfGreatest | insightlens-backend-java/src/main/java/com/insightlens/core/service/TextSegmenterService.java:83-85 | the character does not occur after the result and at or before `from` |
| StreamingHandler.BlockLevelElements | insightlens-backend-java/src/main/java/com/insightlens/core/service/StreamingSegmentContentHandler.java:58-63 | examples: `p`, `P`, `Div`, `SECTION` and `aRtIcLe` are block-level; `h1`, `li`, `td`, `br`, `span`, the empty name, `paragraph` and `divs` are not |
| StreamingHandler.CharactersFlushAtThreshold | insightlens-backend-java/src/main/java/com/insightlens/core/service/StreamingSegmentContentHandler.java:34-41 | text is appended to the buffer, and the buffer is flushed as one block as soon as it reaches 10000 characters |
| StreamingHandler.EndDocumentFlushes | insightlens-backend-java/src/main/java/com/insightlens/core/service/StreamingSegmentContentHandler.java:51-56 | document end flushes a non-empty buffer as a last block and leaves the buffer empty |
| StreamingHandler.RunCovers | insightlens-backend-java/src/main/java/com/insightlens/core/service/StreamingSegmentContentHandler.java:34-56 | the flushed blocks followed by the buffer are exactly the characters received, in order |
| StreamingHandler.RunBounds | insightlens-backend-java/src/main/java/com/insightlens/core/service/StreamingSegmentContentHandler.java:34-41 | between callbacks the buffer is shorter than 10000 characters, and no flushed block is empty |
| StreamingHandler.FlushContent | insightlens-backend-java/src/main/java/com/insightlens/core/service/StreamingSegmentContentHandler.java:65-86 | a flush loses no text: blocks plus buffer are the same before and after |
| StreamingHandler.NumberedAppend | insightlens-backend-java/src/main/java/com/insightlens/core/service/StreamingSegmentContentHandler.java:72-77 | numbering two lists one after the other, continuing the counter, is numbering their concatenation |
| StreamingHandler.FlushedNumbering | insightlens-backend-java/src/main/java/com/insightlens/core/service/StreamingSegmentContentHandler.java:65-79 | saving one more block's non-blank segments, numbered on from the segments saved so far, gives the non-blank segments of all blocks numbered from 0 |
| StreamingHandler.SavedOne | insightlens-backend-java/src/main/java/com/insightlens/core/service/StreamingSegmentContentHandler.java:72-78 | one successful save adds exactly that segment, with the counter as its order, to the table, the journal and the handler's record, and increments the counter |
| StreamingHandler.StreamingSegmentContentHandler.constructor | insightlens-backend-java/src/main/java/com/insightlens/core/service/StreamingSegmentContentHandler.java:22-32 | a new handler has an empty buffer, counter 0 and nothing saved |
| StreamingHandler.StreamingSegmentContentHandler.Characters | insightlens-backend-java/src/main/java/com/insightlens/core/service/StreamingSegmentContentHandler.java:34-41 | the state moves as the fold does on the text, and the buffer stays below 10000 characters; when buffer plus text stay below 10000, the counter, the saved segments, the repository and the journal are unchanged; otherwise the buffer plus text is flushed: its non-blank segments are saved in order, numbered from the counter, or, when a save fails, a numbered prefix of them is saved and one save is counted as lost |
| StreamingHandler.StreamingSegmentContentHandler.EndElement | insightlens-backend-java/src/main/java/com/insightlens/core/service/StreamingSegmentContentHandler.java:43-49 | the state moves as the fold does on the end tag; a tag that is not block-level changes nothing; a block-level one flushes the buffer: its non-blank segments are saved in order, numbered from the counter, or, when a save fails, a numbered prefix of them is saved and one save is counted as lost |
| StreamingHandler.StreamingSegmentContentHandler.EndDocument | insightlens-backend-java/src/main/java/com/insightlens/core/service/StreamingSegmentContentHandler.java:51-56 | the state moves as the fold does on document end, and the buffer is empty afterwards; an empty buffer changes nothing; otherwise its non-blank segments are saved in order, numbered from the counter, or, when a save fails, a numbered prefix of them is saved and one save is counted as lost |
| StreamingHandler.StreamingSegmentContentHandler.ProcessAndClearBuffer | insightlens-backend-java/src/main/java/com/insightlens/core/service/StreamingSegmentContentHandler.java:65-86 | the buffer is flushed into the blocks; an empty buffer writes nothing and leaves the counter alone; otherwise its non-blank segments are saved in order, numbered from the counter, or, when a save fails, a numbered prefix of them is saved and one save is counted as lost |
| StreamingHandler.StreamingSegmentContentHandler.SaveSegments | insightlens-backend-java/src/main/java/com/insightlens/core/service/StreamingSegmentContentHandler.java:69-81 | the buffer and the blocks are unchanged; either all non-blank segments are saved in order, numbered from the counter, or one save fails and exactly the numbered segments before it are saved |
| StreamingHandler.SavesOutcomeBound | insightlens-backend-java/src/main/java/com/insightlens/core/service/StreamingSegmentContentHandler.java:69-81 | after one flush, the saved segments plus the failed saves are at most the block's non-blank segments, and no save failed exactly when all of them were saved |
| StreamingHandler.FailedStep | insightlens-backend-java/src/main/java/com/insightlens/core/service/StreamingSegmentContentHandler.java:71-81 | when the save of a non-blank segment fails, what was saved is a proper numbered prefix of the block's non-blank segments |
| StreamingHandler.StreamingSegmentContentHandler.SaveOne | insightlens-backend-java/src/main/java/com/insightlens/core/service/StreamingSegmentContentHandler.java:72-78 | the counter is incremented whether or not the save succeeds; on success the segment with the old counter is saved |
| Documents.NewUpload | insightlens-backend-java/src/main/java/com/insightlens/core/controller/DocumentController.java:63-70 | an uploaded document has status `Uploaded`, no status message, and the given id, path and size |
| Documents.Database.constructor | insightlens-backend-java/src/main/java/com/insightlens/core/repository/DocumentRepository.java:7-9 | a database with the given documents, no segments and an empty journal |
| Documents.Database.SaveDocument | insightlens-backend-java/src/main/java/com/insightlens/core/repository/DocumentRepository.java:7-9 | the document is stored under its id, replacing any earlier one, and nothing else changes |
| Documents.Database.SaveSegment | insightlens-backend-java/src/main/java/com/insightlens/core/repository/DocumentSegmentRepository.java:7-9 | a successful save appends the segment; a failed one writes nothing |
| DocumentProcessor.OutcomeIsRecorded | insightlens-backend-java/src/main/java/com/insightlens/core/service/AsyncDocumentProcessorService.java:71-86 | the final status is completed exactly when the parse succeeded and failed exactly when it threw; the message prefix says which `catch` handled the failure |
| DocumentProcessor.CloseFailureIsRecorded | insightlens-backend-java/src/main/java/com/insightlens/core/service/AsyncDocumentProcessorService.java:66-80 | the final status is completed exactly when neither the parse nor the closing of the file failed; a close failure after a successful parse yields the checked-exception message with the close failure's text; otherwise the message is the parse's |
| DocumentProcessor.MessageLosesDetail | insightlens-backend-java/src/main/java/com/insightlens/core/service/AsyncDocumentProcessorService.java:75-79 | example: a checked exception with a null message and another kind of checked exception with the message "null" give the same status message |
| DocumentProcessor.Deliver | insightlens-backend-java/src/main/java/com/insightlens/core/service/AsyncDocumentProcessorService.java:68 | delivering the parser's callbacks to a fresh handler leaves it in the state the fold gives for them |
| DocumentProcessor.ExtractSegments | insightlens-backend-java/src/main/java/com/insightlens/core/service/AsyncDocumentProcessorService.java:59-68 | a fresh handler fed the parser's callbacks adds only segment writes, of segments of the document; saved segments plus failed saves are at most the non-blank segments of the blocks, none failed exactly when all were saved, and then they are those segments numbered from 0 |
| DocumentProcessor.RecordOutcome | insightlens-backend-java/src/main/java/com/insightlens/core/service/AsyncDocumentProcessorService.java:71-79 | the document is saved with the outcome's status and message (preceded by a completed save when only closing the file failed); the segments are unchanged |
| DocumentProcessor.ProcessUploadedDocument | insightlens-backend-java/src/main/java/com/insightlens/core/service/AsyncDocumentProcessorService.java:42-90 | an unknown id throws "Document not found: " + id and writes nothing; otherwise it returns normally and `Processed` holds: the document is saved in progress, then the segments, then the document with its outcome (completed first, then failed, when only closing the file fails); the saved segments belong to the document; saved segments plus failed saves are at most the extracted blocks' non-blank segments, none failed exactly when all were saved, and then they are those segments numbered from 0 in order |
| PyText.Strip | insightlens-segmentation-service-python/app/segmentation.py:39 | the result is the contiguous part of the input after its leading Python whitespace, every character after it is whitespace, and it has no leading or trailing whitespace |
| PyText.StripIdempotent | insightlens-segmentation-service-python/app/segmentation.py:39 | stripping twice is stripping once |
| PyText.IsUpperStrip | insightlens-segmentation-service-python/app/segmentation.py:27 | `isupper` of a line and of the stripped line agree |
| Segmentation.LeadingRunThen | insightlens-segmentation-service-python/app/segmentation.py:31-37 | a maximal run followed by a character of a disjoint class is matched exactly by the anchored pattern "run then character" |
| Segmentation.HeadingPatternsAreRegexes | insightlens-segmentation-service-python/app/segmentation.py:31-39 | the run-based definitions of `^[IVX]+\.`, `^\d+\.` and `^word\s+\d+` match exactly the strings the regular expressions match |
| Segmentation.HeadingIgnoresSurroundingSpace | insightlens-segmentation-service-python/app/segmentation.py:24-39 | a line and the stripped line are headings alike |
| Segmentation.UpperCaseHeading | insightlens-segmentation-service-python/app/segmentation.py:27-28 | example: the all-caps line "NOTES", of more than three characters after stripping, is a heading |
| Segmentation.ShortUpperCaseLine | insightlens-segmentation-service-python/app/segmentation.py:27 | example: the all-caps line "ABC", of three characters after stripping, is not a heading |
| Segmentation.ShortLineWithoutDot | insightlens-segmentation-service-python/app/segmentation.py:24-39 | a line of at most three characters after stripping, with no '.', is not a heading |
| Segmentation.UpperCaseLineWithoutDot | insightlens-segmentation-service-python/app/segmentation.py:24-39 | an upper-case line without a '.' is a heading exactly when it has more than three characters after stripping |
| Segmentation.RunThenDotHeading | insightlens-segmentation-service-python/app/segmentation.py:32-33 | a stripped line that starts with Roman numeral letters or digits followed by '.' is a heading |
| Segmentation.RomanNumeralHeading | insightlens-segmentation-service-python/app/segmentation.py:32 | example: "IV. Aim" is a heading |
| Segmentation.NumberHeading | insightlens-segmentation-service-python/app/segmentation.py:33 | example: "12. Aim" is a heading |
| Segmentation.NumberWithoutDot | insightlens-segmentation-service-python/app/segmentation.py:33 | example: "12 Aim" is not a heading |
| Segmentation.LetterHeading | insightlens-segmentation-service-python/app/segmentation.py:34 | example: "A. Aim" is a heading |
| Segmentation.WordHeading | insightlens-segmentation-service-python/app/segmentation.py:35-36 | "Chapter" or "Section", then whitespace, then a digit makes a heading |
| Segmentation.ChapterHeading | insightlens-segmentation-service-python/app/segmentation.py:35 | example: "Chapter 3" is a heading |
| Segmentation.SectionHeading | insightlens-segmentation-service-python/app/segmentation.py:36 | example: "Section  10" is a heading |
| Segmentation.WordWithoutSpace | insightlens-segmentation-service-python/app/segmentation.py:35-36 | the word followed directly by a non-space does not match `word\s+\d+` |
| Segmentation.LowerCaseStart | insightlens-segmentation-service-python/app/segmentation.py:24-39 | a line that starts with a lower-case letter is not a heading |
| Segmentation.EmptyLineIsNotHeading | insightlens-segmentation-service-python/app/segmentation.py:24-39 | example: the empty line is not a heading |
| Segmentation.RunsAreRuns | insightlens-segmentation-service-python/app/segmentation.py:47-55 | the grouping partitions the items in order into non-empty groups; every group after the first starts with an opening item, and no other item of a group opens one |
| Segmentation.RunsUnique | insightlens-segmentation-service-python/app/segmentation.py:47-55 | any grouping with those properties is the grouping computed |
| Segmentation.SectionsPartitionLines | insightlens-segmentation-service-python/app/segmentation.py:41-57 | the sections partition the lines: a new section starts at each heading line that follows some line, and only there; there is at least one section |
| Segmentation.SectionsJoin | insightlens-segmentation-service-python/app/segmentation.py:41-57 | joining the sections with "\n" gives the text back |
| Segmentation.SplitStep | insightlens-segmentation-service-python/app/segmentation.py:47-52 | one iteration of the line loop extends the grouping by that line |
| Segmentation.SplitByHeadings | insightlens-segmentation-service-python/app/segmentation.py:41-57 | `_split_by_headings` returns the specified sections |
| Segmentation.SegmentBoundaries | insightlens-segmentation-service-python/app/segmentation.py:79-86 | a sentence group starts exactly at each sentence whose predecessor has low similarity to it |
| Segmentation.SentencesKeptInOrder | insightlens-segmentation-service-python/app/segmentation.py:76-90 | the sentence groups hold every sentence once, in order, and none is empty |
| Segmentation.SemanticStep | insightlens-segmentation-service-python/app/segmentation.py:79-86 | one iteration either closes the current segment and starts a new one, or extends it, as the grouping does |
| Segmentation.SemanticDone | insightlens-segmentation-service-python/app/segmentation.py:88-90 | after the loop the current segment is not empty, and appending it completes the specified segments |
| Segmentation.SemanticSegmentSection | insightlens-segmentation-service-python/app/segmentation.py:59-92 | `_semantic_segment_section` returns the section itself for at most one sentence, and otherwise the sentence groups joined by " " |
| Segmentation.RunEnd | insightlens-segmentation-service-python/app/segmentation.py:110-114 | the merge run from `i` covers exactly the next segments similar to segment `i`, stopping at the first one that is not similar |
| Segmentation.MergeGroupsPartition | insightlens-segmentation-service-python/app/segmentation.py:106-117 | the merge groups partition the segments in order into non-empty groups, no more groups than segments |
| Segmentation.MergedJoin | insightlens-segmentation-service-python/app/segmentation.py:106-117 | joined by "\n", the merged segments are the same text as the original ones |
| Segmentation.MergedBound | insightlens-segmentation-service-python/app/segmentation.py:94-119 | merging never adds segments, and gives none exactly when it is given none |
| Segmentation.ExtendRun | insightlens-segmentation-service-python/app/segmentation.py:109-114 | the inner loop stops at the end of the merge run and has joined that run's segments with "\n" |
| Segmentation.RefineWithEmbeddings | insightlens-segmentation-service-python/app/segmentation.py:94-119 | `_refine_with_embeddings` returns the specified merged segments |
| Segmentation.EnumerateNumbers | insightlens-segmentation-service-python/app/segmentation.py:147 | the output pairs are numbered 0, 1, ... in order, and dropping the numbers gives the segments back |
| Segmentation.AllSegmentsStep | insightlens-segmentation-service-python/app/segmentation.py:130-136 | one section through the loop appends that section's segments |
| Segmentation.WholeSections | insightlens-segmentation-service-python/app/segmentation.py:129-136 | when every section contributes only itself, the segments are the sections |
| Segmentation.WithoutEmbeddings | insightlens-segmentation-service-python/app/segmentation.py:121-147 | without embeddings the result is exactly the heading sections, since a section of several sentences fails for want of a model and falls back to itself |
| Segmentation.RefinementRegroups | insightlens-segmentation-service-python/app/segmentation.py:140-144 | the refinement changes neither the text joined by "\n" nor increases the number of segments |
| Segmentation.SegmentSection | insightlens-segmentation-service-python/app/segmentation.py:131-136 | one section's segments: itself when analysis fails or there is no model for several sentences, its semantic segments otherwise |
| Segmentation.SegmentText | insightlens-segmentation-service-python/app/segmentation.py:121-151 | `segment_text` returns the specified segments, numbered in order |

## Left out

- HTTP: the upload and query endpoints, file storage and the dispatch of the asynchronous run are not modelled. Only the document the upload endpoint builds (`NewUpload`) is.
- The client of the Python service, its FastAPI application with its schemas, the module `semantic_segmenter.py` and the orchestration service are not part of this model.
- The document parser is abstract. A `ParseOutcome` lists the callbacks it makes, how the parse ends, and whether closing the stored file throws. A file that cannot be opened is a parse that throws an `IOException` before any callback.
- `segmentText` with a `null` text block (`TextSegmenterService.java:26`) is not modelled: strings in the model are never null, and the handler never passes one.
- Callbacks other than `characters`, `endElement` and `endDocument` have no effect in the handler. They are one event kind.
- Saving a document is assumed never to fail. Saving a segment may fail at any time; the model chooses nondeterministically.
- Asynchrony, the `Future` result, transactions, creation and update timestamps, logging and the random segment ids are not modelled.
- The `statusMessage` column length (1024) is not modelled.
- `segmentOrderCounter` and `fileSize` are unbounded integers. Java's 32-bit and 64-bit wrap-around is not modelled, because it needs more than two thousand million segments.
- Java strings are sequences of Unicode scalar values, not UTF-16 code units. Lengths and positions differ for characters outside the Basic Multilingual Plane.
- Python's `isupper` and `\d` are modelled on ASCII letters and digits only.
- The sentence embeddings, cosine similarity and the two floating-point thresholds are left out. In their place are the results of the comparisons, given as the predicates `low` and `similar`.
- `sent_tokenize` is an input: the sentences of each section, or a failure.
- An exception out of the whole of `segment_text` is re-raised unchanged. The model has no such exception, because every step it models is total.
- DocumentProcessor.ProcessUploadedDocument: across the whole parse, the order numbers of the saved segments are stated only for runs in which no segment save failed. Each flush states them on its own (`SavesOutcome` in the handler callbacks), because after a failed save the numbers skip that save's number, and the rest of its block is not saved.
