# OCR result normalisation, modelled in Dafny

This project models the result-normalisation core of `ocr.py` in the
pdf-ocr-extractor repository. That is the code that turns the layout
regions produced by an OCR engine into the JSON document written for
each PDF:

- `clean_latex_formula` collapses every run of whitespace to one space
  and strips the ends. It is modelled in `Whitespace` and
  `ContentClassifier`.
- `process_text_content` cleans text the same way. It then looks for
  list markers (`1. `, `(a) `, `- `, `• `). If it finds any, it returns
  a `list` record of the stripped item bodies; otherwise it returns the
  cleaned text under its own label. It is modelled in `ListDetector`
  and `ContentClassifier`.
- `process_table` takes the parsed table. If parsing fails, it returns
  a `table_error` record. If the frame is empty, it returns an empty
  table. Otherwise the first row becomes the column header and every
  later row becomes a header-to-cell map. It is modelled in
  `TableNormalizer`.
- `process_single_pdf` has a missing-file path, and a failure path taken
  when any step raises. Its region loop dispatches on the region label.
  Images are saved and recorded only when they have a path. A page
  enters the document only when it produced content. Every record
  carries `page_index + 1`. The document starts with the file metadata.
  It is modelled in `DocumentPipeline`.
- `main` keeps only the directory entries whose lower-cased name ends
  in `.pdf`, and processes each one. It is modelled in `BatchRunner`.

Several things become parameters of the model:
- the OCR engine's pages;
- the HTML table parser, as a function returning a rectangular grid or
  nothing;
- the file metadata;
- whether the file exists.

Image saving is modelled as the sequence of image paths written. The
two loops of `process_single_pdf` are imperative methods,
`DocumentPipeline.AssembleDocument` and `DocumentPipeline.CollectPage`.
They are proved equal to the recursive definitions `DocPages`,
`DocWrites`, `PageRecords` and `PageWrites`, and all the properties are
proved about those definitions. The folds are generic in the per-region
dispatch. `DocumentPipeline.ProcessSinglePdf` instantiates them with
the real dispatch, `Classify`.

Two behaviours of the source are modelled exactly as written:
- An `image` region whose `res.image` is `None` aborts the whole
  document. `save_image` catches its own error. But the second
  `res.image.get('path')` call (ocr.py:148) is outside `save_image`'s
  handler (ocr.py:76-86), so the outer `except` (ocr.py:105-164)
  abandons the file. Nothing is written for it, and
  images saved before that point stay on disk.
- With duplicate column headers, `to_dict('records')` keeps the last
  column of that name. `TableNormalizer.RowMap` does the same.

## Model

| member | source | states |
|---|---|---|
| ContentClassifier.CleanLatexFormula | ocr.py:44-46 | the result is whitespace-normalised (no leading or trailing whitespace, only single spaces between words, a fixpoint of cleaning) and has exactly the words of the input |
| Whitespace.CleanIsJoinedWords | ocr.py:46 | cleaning equals joining the input's maximal non-whitespace words with single spaces |
| Whitespace.WordsOfJoin | ocr.py:46 | splitting a single-space join of words gives back those words (the round trip of cleaning) |
| Whitespace.NormalizedIsJoinedWords | ocr.py:46 | a normalised string is the single-space join of its own words (the reverse round trip) |
| Whitespace.CleanIdempotent | ocr.py:46 | cleaning twice is the same as cleaning once |
| Whitespace.CleanNormalized | ocr.py:46 | every cleaned string is normalised |
| Whitespace.CleanFixpoints | ocr.py:46 | a string is left unchanged by cleaning if and only if it is normalised |
| Whitespace.CleanAfterStrip | ocr.py:136 | stripping a region's content before cleaning it changes nothing |
| Whitespace.WordsTrimLeft | ocr.py:46 | leading whitespace does not change the words of a string |
| Whitespace.WordsAppendSpaces | ocr.py:46 | trailing whitespace does not change the words of a string |
| Whitespace.StripUnchanged | ocr.py:46 | strip leaves a string alone when neither end is whitespace |
| Whitespace.CollapseShape | ocr.py:46 | for text that does not start with whitespace, collapsing whitespace runs gives the joined words followed by at most one space |
| Whitespace.JoinEnds | ocr.py:46 | a join of words is empty only for no words, and never starts or ends with whitespace |
| ListDetector.DigitRunDigits | ocr.py:66 | the `\d+` prefix consists of digits and stops at the first non-digit |
| ListDetector.MarkerLenIsToken | ocr.py:66 | the marker length found at a position is a marker there, and it is the only marker length there |
| ListDetector.NextStopIsFirstStop | ocr.py:66 | the lazy item body ends at the first later position where a marker or the end of text follows |
| ListDetector.ScanMatchAt | ocr.py:66-67 | every match found has a marker at its start and a body ending at a marker or the end of text |
| ListDetector.ScanEmptyIff | ocr.py:67-69 | the scan finds no match if and only if no position from the start on holds a marker |
| ListDetector.ScanFirst | ocr.py:67 | the first match starts at the first marker position |
| ListDetector.ScanChained | ocr.py:67 | consecutive matches are adjacent: each body ends where the next marker starts, and the last one ends at the end of text |
| ListDetector.ScanCoversMarkers | ocr.py:66-67 | every marker position from the start on lies within the marker of some match, so no marker is swallowed by an item body (together with `ScanChained`: one match per marker, in order of appearance) |
| ListDetector.ListItemsEmptyIff | ocr.py:69 | there are no items if and only if the text holds no marker |
| ListDetector.AdjacentMarkersGiveEmptyItem | ocr.py:66-70 | a marker directly followed by another marker yields an empty item |
| ListDetector.ExampleNumbered | ocr.py:66-70 | "1. Apple 2. Banana 3. Cherry" gives the items Apple, Banana and Cherry |
| ListDetector.ExampleLettered | ocr.py:66-70 | "(a) First (b) Second" gives the items First and Second |
| ContentClassifier.ProcessTextListIff | ocr.py:63-70 | the result is a list if and only if the cleaned text holds a marker, and then its items are the non-empty item list of the cleaned text |
| ContentClassifier.ProcessTextPlain | ocr.py:71-72 | text without a marker keeps its label and becomes its cleaned, normalised text |
| ContentClassifier.ProcessTextShape | ocr.py:69-72 | the result is a list or a text record, and a text record keeps the label and has normalised text |
| ContentClassifier.ExampleNumberedRecord | ocr.py:63-70 | text labelled "text" reading "1. Apple 2. Banana 3. Cherry" becomes the list Apple, Banana, Cherry |
| TableNormalizer.RowMapKeys | ocr.py:55-56 | the keys of a row map are exactly the header cells |
| TableNormalizer.RowMapLookup | ocr.py:55-56 | a header cell maps to the cell of its last column with that name |
| TableNormalizer.RowMapDistinct | ocr.py:55-56 | with distinct headers, every header maps to the cell in its own column |
| TableNormalizer.TableErrorIff | ocr.py:50-60 | the result is a table error if and only if parsing failed, and then it carries the original text |
| TableNormalizer.EmptyFrameNoData | ocr.py:52-61 | an empty parsed frame gives a table with no data |
| TableNormalizer.TableShape | ocr.py:52-57 | a non-empty frame gives one record per row after the header, each keyed by exactly the header cells |
| TableNormalizer.TableCells | ocr.py:53-56 | with distinct headers, record k maps column j's header to the cell at row k+1, column j |
| TableNormalizer.OneRowNoData | ocr.py:53-56 | a frame holding only the header row gives a table with no data |
| TableNormalizer.ExampleTable | ocr.py:52-57 | the grid Name/Age, Ann/30, Bob/41 gives the records {Name: Ann, Age: 30} and {Name: Bob, Age: 41} |
| DocumentPipeline.ClassifyCrashIff | ocr.py:146-164 | a region aborts the document if and only if it is an image region without an image dictionary |
| DocumentPipeline.ClassifyDropIff | ocr.py:134-153 | a region yields no record if and only if its label is not handled, or it is an image without a path |
| DocumentPipeline.ClassifyImage | ocr.py:146-150 | an image region yields a record exactly when it has a non-empty path, and then the path is the one recorded and the one saved |
| DocumentPipeline.RegionWritesOnlyImages | ocr.py:74-86 | only image regions write a file, one non-empty path each |
| DocumentPipeline.ClassifyFreeText | ocr.py:138-141 | a free-text label yields the text-processing result of the content, a list or a cleaned text record under the same label |
| DocumentPipeline.ClassifyFormula | ocr.py:151-153 | a formula region yields a formula record with the cleaned, normalised LaTeX |
| DocumentPipeline.ClassifyTable | ocr.py:142-145 | a table region always yields a record, a table error exactly when parsing the stripped content fails |
| DocumentPipeline.PageRecordsCrashIff | ocr.py:134-153 | a page's records are undefined if and only if one of its regions aborts |
| DocumentPipeline.PageRecordsOfOne | ocr.py:134-153 | one region gives its record, no record, or an abort |
| DocumentPipeline.PageRecordsAppend | ocr.py:134-153 | the records of a page are the records of its parts, concatenated in order |
| DocumentPipeline.PageRecordsDropped | ocr.py:134-153 | a region that yields nothing can be removed without changing the page's records |
| DocumentPipeline.PageRecordsBound | ocr.py:125-153 | a page has at most one record per region, and every record carries the page's number |
| DocumentPipeline.PageWritesAreImageRecords | ocr.py:146-150 | on a page that completes, the image files written are exactly the paths of its image records, in order |
| DocumentPipeline.UnrecognisedPage | ocr.py:134-153 | a page whose labels are all unhandled gives no records |
| DocumentPipeline.PageWritesFrozen | ocr.py:147-164 | no image is written after the first aborting region of a page |
| DocumentPipeline.DocPagesCrashIff | ocr.py:124-164 | the page entries are undefined if and only if some page has an aborting region |
| DocumentPipeline.DocPagesShape | ocr.py:124-160 | there is at most one entry per page; every entry is non-empty and its records carry its page index plus one |
| DocumentPipeline.DocPagesOfOne | ocr.py:156-160 | a page gives an entry exactly when it has records |
| DocumentPipeline.PageWithoutIndex | ocr.py:125-129 | a page without an index gets page index -1 and page number 0 |
| DocumentPipeline.DocPagesAppend | ocr.py:124-160 | the entries of a document are the entries of its parts, concatenated in order |
| DocumentPipeline.DocWritesFrozen | ocr.py:147-164 | no image is written after the page that aborts the document |
| DocumentPipeline.ProcessDocumentOutcome | ocr.py:94-164 | a missing file gives not-found; a metadata failure or an aborting region gives a failure; otherwise the document is the metadata followed by at most one non-empty entry per page, with page numbers equal to index plus one |
| DocumentPipeline.CollectPage | ocr.py:134-153 | the region loop aborts exactly when a region aborts, otherwise collects the page's records, and writes the page's image files up to the abort |
| DocumentPipeline.AssembleDocument | ocr.py:121-164 | the page loop fails exactly when the page entries are undefined, otherwise writes the metadata followed by the page entries, and writes the document's image files up to the abort |
| DocumentPipeline.ProcessSinglePdf | ocr.py:90-164 | the outcome and the image files written are those of the document definition |
| BatchRunner.PdfFilesMembership | ocr.py:181-182 | a name is processed if and only if it is listed and its lower-cased form ends in ".pdf" |
| BatchRunner.PdfFilesAppend | ocr.py:181-182 | the filter keeps the listing order |
| BatchRunner.PdfFilesBound | ocr.py:181-182 | the filter never adds names |
| BatchRunner.PdfNameIgnoresCase | ocr.py:182 | lower-casing a name first does not change whether it is a PDF name |
| BatchRunner.ExampleNames | ocr.py:182 | "a.pdf" and "b.PDF" are PDF names and "c.txt" is not |
| BatchRunner.ExampleBatch | ocr.py:181-182 | the listing a.pdf, b.PDF, c.txt processes a.pdf and then b.PDF |
| BatchRunner.RunBatch | ocr.py:173-185 | a missing source directory processes nothing; otherwise exactly the PDF names are processed, in listing order, each with its document outcome |

## Left out

- The OCR engine (`PPStructureV3` and `predict_iter`) is a parameter: its pages are the input `pages`. An engine that raises part-way through the pages is not modelled.
- `pd.read_html` is a parameter returning a rectangular string grid or nothing. Pandas' coercion of cells to numbers, NaN for missing cells, and non-string headers are not modelled: every cell is a string.
- `pdfplumber` and `os.stat` become the input metadata, `None` when they raise. The rounding of the size to KB and MB is not modelled.
- The `FileMetadata` datatype holds the size in bytes and integer creation and modification times. The source stores the size rounded to KB and to MB, and the float `st_ctime` and `st_mtime` (ocr.py:111-118). The metadata only passes into the first entry unchanged, so no property depends on these fields.
- The JSON file itself, logging, `tqdm`, `os.makedirs`, path joining and `splitext` are I/O or formatting and are left out. `Written(docs)` is the list that would be dumped.
- `BatchRunner.RunBatch`: in the source, `os.makedirs` (ocr.py:100) and the JSON write (ocr.py:167-169) are outside `process_single_pdf`'s `try`, and `main`'s loop (ocr.py:181-185) catches nothing. A failure there stops the whole batch at that file. That abort is not modelled: `RunBatch` gives an outcome for every PDF name.
- `save_image` failures are caught and logged in the source. The model records each save it attempts, successful or not.
- A `page_index` key that is present with the value `None`, and a `res.content` that is `None`, both raise in the source. The model has no such values.
- `ListDetector.IsDigit`: `\d` is modelled as the ASCII digits. Python's `\d` on `str` also matches other Unicode decimal digits.
- `BatchRunner.LowerChar`: `str.lower` is modelled on ASCII only. This is exact for deciding whether a name ends in `.pdf`, but not for other characters.
- `Whitespace.IsSpace` is CPython's whitespace table, which `\s` and `str.strip` share.
- `config.py` is not part of this model. Its `SUPPORTED_EXTENSIONS` is not used by `ocr.py`.
- The examples are stated on strings written as concatenations of constants. `NumberedExample` is "1. Apple 2. Banana 3. Cherry" and `LetteredExample` is "(a) First (b) Second".
