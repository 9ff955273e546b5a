/**
 * The shapes of ocr.py's data: the regions the OCR engine reports for a
 * page, and the JSON-shaped records the extractor writes for them.
 */
module Records {
  import opened Common

  /** A table cell, and a header key, as its text. */
  type Cell = string

  /** One row of `df.to_dict('records')`: header value to cell. */
  type TableRow = map<Cell, Cell>

  /** The record built for one region; each variant is one `label` of the
      JSON output with the fields that label carries. */
  datatype Content =
    | Text(tag: string, text: string)            // {'label': <label>, 'text': str}
    | List(items: seq<string>)                   // {'label': 'list', 'text': [str]}
    | Table(data: seq<TableRow>)                 // {'label': 'table', 'data': [...]}
    | TableError(source: string)                 // {'label': 'table_error', 'text': str}
    | Image(imgPath: string)                     // {'label': 'image', 'img_path': str}
    | Formula(latex: string)                     // {'label': 'formula', 'formula_latex': str}

  /** A content record together with its `metadata.page_number`. */
  datatype Record = Record(content: Content, pageNumber: int)

  /** What `res.image` holds: nothing (`None`), or a dictionary whose
      `'path'` entry may be missing. */
  datatype ImageInfo = NoImage | ImageDict(path: Option<string>)

  /** One entry of `parsing_res_list`: `res.label` (here `tag`, since
      `label` is a Dafny keyword), `res.content` and `res.image`. */
  datatype Region = Region(tag: string, content: string, image: ImageInfo)

  /** One item of `predict_iter`: the optional `page_index` and the
      `parsing_res_list` (an absent list is the empty one). */
  datatype PageOutput = PageOutput(pageIndex: Option<int>, regions: seq<Region>)

  /** The `metadata_file` payload, read from pdfplumber and `os.stat`. */
  datatype FileMetadata = FileMetadata(name: string, totalPages: nat, sizeBytes: nat, created: int, modified: int)

  /** One element of the output document. */
  datatype DocEntry =
    | MetadataFile(meta: FileMetadata)           // {'label': 'metadata_file', 'data': ...}
    | PageEntry(pageIdx: int, content: seq<Record>)

  /** How `process_single_pdf` ends: the file is missing, an exception
      stopped it before the JSON was written, or the document was written. */
  datatype Outcome = NotFound | Failed | Written(docs: seq<DocEntry>)
}
