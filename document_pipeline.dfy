/**
 * `process_single_pdf` (ocr.py): the per-region dispatch, the per-page
 * aggregation, and the assembly of the output document. The OCR engine,
 * the table parser and the file metadata are inputs; image saving is
 * reported as the sequence of image paths written.
 */
module DocumentPipeline {
  import opened Common
  import opened Whitespace
  import opened Records
  import opened TableNormalizer
  import opened ContentClassifier

  /** `ambil_label`: the labels handled as free text. */
  const FreeTextLabels: seq<string> := ["text", "paragraph_title", "doc_title", "header", "figure_title", "caption"]

  /** The labels that can produce a record. */
  predicate Recognised(tag: string)
  {
    tag in FreeTextLabels || tag == "table" || tag == "image" || tag == "formula"
  }

  /** Everything `process_single_pdf` needs from the outside world for one
      file: whether it exists, the metadata pdfplumber and `os.stat`
      produce (`None` when either raises), and the engine's pages. */
  datatype PdfInput = PdfInput(present: bool, meta: Option<FileMetadata>, pages: seq<PageOutput>)

  /** What one region amounts to: a record, nothing, or an exception that
      abandons the document. */
  datatype Dispatch = Emit(content: Content) | Drop | Crash

  /** `res.image.get('path')` when it is truthy. */
  function ImagePath(info: ImageInfo): Option<string>
  {
    if info.ImageDict? && info.path.Some? && info.path.value != "" then info.path else None
  }

  /** The branch of the region loop taken for `r` (after `res.content.strip()`). */
  function Classify(r: Region, parse: string -> Option<Frame>): Dispatch
  {
    var text := Strip(r.content);
    if r.tag in FreeTextLabels then Emit(ProcessText(r.tag, text))
    else if r.tag == "table" then Emit(ProcessTable(text, parse(text)))
    else if r.tag == "image" then
      if r.image.NoImage? then Crash
      else if ImagePath(r.image).Some? then Emit(Image(ImagePath(r.image).value))
      else Drop
    else if r.tag == "formula" then Emit(Formula(CleanLatexFormula(text)))
    else Drop
  }

  /** An image region whose `res.image` is `None`: `save_image` swallows
      the error, but the second `res.image.get` raises. */
  predicate IsCrash(r: Region)
  {
    r.tag == "image" && r.image.NoImage?
  }

  /** The image file `save_image` writes for `r`. */
  function RegionWrites(r: Region): seq<string>
  {
    if r.tag == "image" && ImagePath(r.image).Some? then [ImagePath(r.image).value] else []
  }

  /** `Classify` with the parser fixed. The folds below take the dispatch
      as a parameter, so that what they promise holds for any dispatch. */
  function Dispatcher(parse: string -> Option<Frame>): Region -> Dispatch
  {
    r => Classify(r, parse)
  }

  /** `page_index`, or -1 when the engine reports none. */
  function PageIndex(p: PageOutput): int
  {
    if p.pageIndex.Some? then p.pageIndex.value else -1
  }

  /** Some region of `rs` raises. */
  predicate CrashesIn(rs: seq<Region>, dispatch: Region -> Dispatch)
  {
    exists j :: 0 <= j < |rs| && dispatch(rs[j]).Crash?
  }

  /** The `content` list built for a page's regions, or `None` when a
      region raises. */
  function PageRecords(rs: seq<Region>, pageNumber: int, dispatch: Region -> Dispatch): Option<seq<Record>>
    decreases |rs|
  {
    if rs == [] then Some([])
    else
      match PageRecords(rs[..|rs| - 1], pageNumber, dispatch)
      case None => None
      case Some(recs) =>
        match dispatch(rs[|rs| - 1])
        case Emit(c) => Some(recs + [Record(c, pageNumber)])
        case Drop => Some(recs)
        case Crash => None
  }

  /** The image files written while a page's regions are processed: those
      of the regions before the first one that raises. */
  function PageWrites(rs: seq<Region>, dispatch: Region -> Dispatch): seq<string>
    decreases |rs|
  {
    if rs == [] then []
    else
      var before := rs[..|rs| - 1];
      if CrashesIn(rs, dispatch) then PageWrites(before, dispatch)
      else PageWrites(before, dispatch) + RegionWrites(rs[|rs| - 1])
  }

  /** The page entries `docs` receives, or `None` when a region raises. */
  function DocPages(ps: seq<PageOutput>, dispatch: Region -> Dispatch): Option<seq<DocEntry>>
    decreases |ps|
  {
    if ps == [] then Some([])
    else
      var p := ps[|ps| - 1];
      match DocPages(ps[..|ps| - 1], dispatch)
      case None => None
      case Some(es) =>
        match PageRecords(p.regions, PageIndex(p) + 1, dispatch)
        case None => None
        case Some(recs) => if recs == [] then Some(es) else Some(es + [PageEntry(PageIndex(p), recs)])
  }

  /** Some region of some page raises. */
  predicate DocCrashes(ps: seq<PageOutput>, dispatch: Region -> Dispatch)
  {
    exists i :: 0 <= i < |ps| && CrashesIn(ps[i].regions, dispatch)
  }

  /** The image files written over all pages, up to the first region that
      raises. */
  function DocWrites(ps: seq<PageOutput>, dispatch: Region -> Dispatch): seq<string>
    decreases |ps|
  {
    if ps == [] then []
    else
      var before := ps[..|ps| - 1];
      if DocCrashes(before, dispatch) then DocWrites(before, dispatch)
      else DocWrites(before, dispatch) + PageWrites(ps[|ps| - 1].regions, dispatch)
  }

  /** `process_single_pdf(pdf_path)`: what it leaves behind. */
  function ProcessDocument(input: PdfInput, parse: string -> Option<Frame>): Outcome
  {
    if !input.present then NotFound
    else if input.meta.None? then Failed
    else
      match DocPages(input.pages, Dispatcher(parse))
      case None => Failed
      case Some(es) => Written([MetadataFile(input.meta.value)] + es)
  }

  /** The image files `process_single_pdf` writes. */
  function DocumentWrites(input: PdfInput, parse: string -> Option<Frame>): seq<string>
  {
    if !input.present || input.meta.None? then [] else DocWrites(input.pages, Dispatcher(parse))
  }

  // ---------------------------------------------------------------------
  // One region.

  /** A region raises exactly when it is an image region without an image. */
  lemma ClassifyCrashIff(r: Region, parse: string -> Option<Frame>)
    ensures Classify(r, parse).Crash? <==> IsCrash(r)
  {
  }

  /** A region contributes nothing exactly when its label is none of the
      nine handled ones, or it is an image region with no usable path. */
  lemma ClassifyDropIff(r: Region, parse: string -> Option<Frame>)
    ensures Classify(r, parse).Drop? <==>
      !Recognised(r.tag) || (r.tag == "image" && r.image.ImageDict? && ImagePath(r.image).None?)
  {
  }

  /** An image region yields an image record exactly when its path is
      non-empty, and that is also exactly when its file is written, to the
      same path; whether the write succeeds does not matter. */
  lemma ClassifyImage(r: Region, parse: string -> Option<Frame>)
    requires r.tag == "image"
    ensures Classify(r, parse).Emit? <==> ImagePath(r.image).Some?
    ensures Classify(r, parse).Emit? <==> RegionWrites(r) != []
    ensures Classify(r, parse).Emit? ==>
      && Classify(r, parse).content == Image(r.image.path.value)
      && RegionWrites(r) == [r.image.path.value] && r.image.path.value != ""
  {
  }

  /** Only image regions write files. */
  lemma RegionWritesOnlyImages(r: Region)
    ensures RegionWrites(r) != [] ==> r.tag == "image" && |RegionWrites(r)| == 1 && RegionWrites(r)[0] != ""
  {
  }

  /** A free-text region becomes the list or text record of its cleaned
      content, under its own label; stripping it first changes nothing. */
  lemma ClassifyFreeText(r: Region, parse: string -> Option<Frame>)
    requires r.tag in FreeTextLabels
    ensures Classify(r, parse) == Emit(ProcessText(r.tag, r.content))
    ensures var c := Classify(r, parse).content;
      c.List? || (c.Text? && c.tag == r.tag && c.text == Clean(r.content) && Normalized(c.text))
  {
    CleanAfterStrip(r.content);
    ProcessTextShape(r.tag, r.content);
  }

  /** A formula region holds its normalised LaTeX. */
  lemma ClassifyFormula(r: Region, parse: string -> Option<Frame>)
    requires r.tag == "formula"
    ensures Classify(r, parse) == Emit(Formula(CleanLatexFormula(r.content)))
    ensures Normalized(Classify(r, parse).content.latex)
  {
    CleanAfterStrip(r.content);
  }

  /** A table region becomes a table record, or a `table_error` record that
      carries the stripped region text when the parser fails on it. */
  lemma ClassifyTable(r: Region, parse: string -> Option<Frame>)
    requires r.tag == "table"
    ensures var c := Classify(r, parse).content;
      && Classify(r, parse).Emit?
      && (c.Table? || c.TableError?)
      && (c.TableError? <==> parse(Strip(r.content)).None?)
      && (c.TableError? ==> c.source == Strip(r.content))
  {
    TableErrorIff(Strip(r.content), parse(Strip(r.content)));
  }

  // ---------------------------------------------------------------------
  // One page, for any dispatch.

  lemma CrashesInLast(rs: seq<Region>, dispatch: Region -> Dispatch)
    requires rs != []
    ensures CrashesIn(rs, dispatch) <==> CrashesIn(rs[..|rs| - 1], dispatch) || dispatch(rs[|rs| - 1]).Crash?
  {
    var before := rs[..|rs| - 1];
    if CrashesIn(before, dispatch) {
      var j :| 0 <= j < |before| && dispatch(before[j]).Crash?;
      assert rs[j] == before[j];
    }
    if CrashesIn(rs, dispatch) {
      var j :| 0 <= j < |rs| && dispatch(rs[j]).Crash?;
      if j < |before| {
        assert before[j] == rs[j];
      }
    }
  }

  lemma CrashesInAppend(a: seq<Region>, b: seq<Region>, dispatch: Region -> Dispatch)
    ensures CrashesIn(a + b, dispatch) <==> CrashesIn(a, dispatch) || CrashesIn(b, dispatch)
  {
    if CrashesIn(a, dispatch) {
      var j :| 0 <= j < |a| && dispatch(a[j]).Crash?;
      assert (a + b)[j] == a[j];
    }
    if CrashesIn(b, dispatch) {
      var j :| 0 <= j < |b| && dispatch(b[j]).Crash?;
      assert (a + b)[|a| + j] == b[j];
    }
    if CrashesIn(a + b, dispatch) {
      var j :| 0 <= j < |a + b| && dispatch((a + b)[j]).Crash?;
      if j < |a| {
        assert (a + b)[j] == a[j];
      } else {
        assert (a + b)[j] == b[j - |a|];
      }
    }
  }

  /** A page's regions raise exactly when one of them does. */
  lemma {:induction false} PageRecordsCrashIff(rs: seq<Region>, pageNumber: int, dispatch: Region -> Dispatch)
    ensures PageRecords(rs, pageNumber, dispatch).None? <==> CrashesIn(rs, dispatch)
    decreases |rs|
  {
    if rs != [] {
      PageRecordsCrashIff(rs[..|rs| - 1], pageNumber, dispatch);
      CrashesInLast(rs, dispatch);
    }
  }

  /** A single region gives at most one record, tagged with the page number. */
  lemma PageRecordsOfOne(r: Region, pageNumber: int, dispatch: Region -> Dispatch)
    ensures dispatch(r).Emit? ==> PageRecords([r], pageNumber, dispatch) == Some([Record(dispatch(r).content, pageNumber)])
    ensures dispatch(r).Drop? ==> PageRecords([r], pageNumber, dispatch) == Some([])
    ensures dispatch(r).Crash? ==> PageRecords([r], pageNumber, dispatch) == None
  {
    assert [r][..0] == [];
    if dispatch(r).Emit? {
      var rec := Record(dispatch(r).content, pageNumber);
      assert [] + [rec] == [rec];
    }
  }

  /** Records keep region order: the records of two runs of regions are
      the records of the first followed by those of the second. */
  lemma {:induction false} PageRecordsAppend(a: seq<Region>, b: seq<Region>, pageNumber: int, dispatch: Region -> Dispatch)
    requires PageRecords(a, pageNumber, dispatch).Some? && PageRecords(b, pageNumber, dispatch).Some?
    ensures PageRecords(a + b, pageNumber, dispatch)
      == Some(PageRecords(a, pageNumber, dispatch).value + PageRecords(b, pageNumber, dispatch).value)
    decreases |b|
  {
    if b == [] {
      assert a + b == a;
      assert PageRecords(a, pageNumber, dispatch).value + [] == PageRecords(a, pageNumber, dispatch).value;
    } else {
      var b' := b[..|b| - 1];
      var last := b[|b| - 1];
      assert (a + b)[..|a + b| - 1] == a + b';
      assert (a + b)[|a + b| - 1] == last;
      PageRecordsAppend(a, b', pageNumber, dispatch);
      var ra := PageRecords(a, pageNumber, dispatch).value;
      var rb' := PageRecords(b', pageNumber, dispatch).value;
      if dispatch(last).Emit? {
        var rec := Record(dispatch(last).content, pageNumber);
        assert ra + rb' + [rec] == ra + (rb' + [rec]);
      }
    }
  }

  /** A region that contributes nothing can be removed without changing
      the page. */
  lemma PageRecordsDropped(a: seq<Region>, r: Region, b: seq<Region>, pageNumber: int, dispatch: Region -> Dispatch)
    requires dispatch(r).Drop?
    ensures PageRecords(a + [r] + b, pageNumber, dispatch) == PageRecords(a + b, pageNumber, dispatch)
  {
    PageRecordsCrashIff(a, pageNumber, dispatch);
    PageRecordsCrashIff(b, pageNumber, dispatch);
    PageRecordsCrashIff(a + b, pageNumber, dispatch);
    PageRecordsCrashIff(a + [r] + b, pageNumber, dispatch);
    PageRecordsCrashIff([r], pageNumber, dispatch);
    CrashesInAppend(a, b, dispatch);
    CrashesInAppend(a + [r], b, dispatch);
    CrashesInAppend(a, [r], dispatch);
    if !CrashesIn(a, dispatch) && !CrashesIn(b, dispatch) {
      PageRecordsOfOne(r, pageNumber, dispatch);
      PageRecordsAppend(a, [r], pageNumber, dispatch);
      PageRecordsAppend(a + [r], b, pageNumber, dispatch);
      PageRecordsAppend(a, b, pageNumber, dispatch);
    }
  }

  /** Each region gives at most one record, and every record of the page
      carries its page number. */
  lemma {:induction false} PageRecordsBound(rs: seq<Region>, pageNumber: int, dispatch: Region -> Dispatch)
    requires PageRecords(rs, pageNumber, dispatch).Some?
    ensures var recs := PageRecords(rs, pageNumber, dispatch).value;
      && |recs| <= |rs|
      && forall k :: 0 <= k < |recs| ==> recs[k].pageNumber == pageNumber
    decreases |rs|
  {
    if rs != [] {
      PageRecordsBound(rs[..|rs| - 1], pageNumber, dispatch);
    }
  }

  /** The paths of the image records, in order. */
  function ImagePaths(recs: seq<Record>): seq<string>
    decreases |recs|
  {
    if recs == [] then []
    else
      var c := recs[|recs| - 1].content;
      ImagePaths(recs[..|recs| - 1]) + (if c.Image? then [c.imgPath] else [])
  }

  // ---------------------------------------------------------------------
  // One page, with the dispatch of `process_single_pdf`.

  /** A file is written for a region exactly when the region yields an
      image record, and it is written to that record's path. */
  lemma RegionWritesImageRecord(r: Region, parse: string -> Option<Frame>)
    ensures var d := Dispatcher(parse)(r);
      RegionWrites(r) == (if d.Emit? && d.content.Image? then [d.content.imgPath] else [])
  {
    var text := Strip(r.content);
    if r.tag in FreeTextLabels {
      ProcessTextShape(r.tag, text);
    } else if r.tag == "table" {
      TableErrorIff(text, parse(text));
    }
  }

  /** On a page where nothing raises, the image files written are the
      paths of the page's image records, in record order. */
  lemma {:induction false} PageWritesAreImageRecords(rs: seq<Region>, pageNumber: int, parse: string -> Option<Frame>)
    requires !CrashesIn(rs, Dispatcher(parse))
    ensures PageRecords(rs, pageNumber, Dispatcher(parse)).Some?
    ensures PageWrites(rs, Dispatcher(parse)) == ImagePaths(PageRecords(rs, pageNumber, Dispatcher(parse)).value)
    decreases |rs|
  {
    var dispatch := Dispatcher(parse);
    PageRecordsCrashIff(rs, pageNumber, dispatch);
    if rs != [] {
      var before := rs[..|rs| - 1];
      var r := rs[|rs| - 1];
      CrashesInLast(rs, dispatch);
      PageWritesAreImageRecords(before, pageNumber, parse);
      RegionWritesImageRecord(r, parse);
      var recs := PageRecords(before, pageNumber, dispatch).value;
      if dispatch(r).Emit? {
        var all := recs + [Record(dispatch(r).content, pageNumber)];
        assert all[..|all| - 1] == recs;
      }
    }
  }

  /** A page whose labels are all unhandled yields no records. */
  lemma {:induction false} UnrecognisedPage(rs: seq<Region>, pageNumber: int, parse: string -> Option<Frame>)
    requires forall j :: 0 <= j < |rs| ==> !Recognised(rs[j].tag)
    ensures PageRecords(rs, pageNumber, Dispatcher(parse)) == Some([])
    decreases |rs|
  {
    if rs != [] {
      UnrecognisedPage(rs[..|rs| - 1], pageNumber, parse);
      ClassifyDropIff(rs[|rs| - 1], parse);
    }
  }

  /** Once a region has raised, later regions write nothing. */
  lemma {:induction false} PageWritesFrozen(rs: seq<Region>, m: nat, dispatch: Region -> Dispatch)
    requires m <= |rs| && CrashesIn(rs[..m], dispatch)
    ensures PageWrites(rs, dispatch) == PageWrites(rs[..m], dispatch)
    decreases |rs|
  {
    if m < |rs| {
      var before := rs[..|rs| - 1];
      assert before[..m] == rs[..m];
      CrashesInAppend(rs[..m], rs[m..], dispatch);
      assert rs == rs[..m] + rs[m..];
      PageWritesFrozen(before, m, dispatch);
    } else {
      assert rs[..m] == rs;
    }
  }

  // ---------------------------------------------------------------------
  // The document, for any dispatch.

  lemma DocCrashesLast(ps: seq<PageOutput>, dispatch: Region -> Dispatch)
    requires ps != []
    ensures DocCrashes(ps, dispatch) <==> DocCrashes(ps[..|ps| - 1], dispatch) || CrashesIn(ps[|ps| - 1].regions, dispatch)
  {
    var before := ps[..|ps| - 1];
    if DocCrashes(before, dispatch) {
      var i :| 0 <= i < |before| && CrashesIn(before[i].regions, dispatch);
      assert ps[i] == before[i];
    }
    if DocCrashes(ps, dispatch) {
      var i :| 0 <= i < |ps| && CrashesIn(ps[i].regions, dispatch);
      if i < |before| {
        assert before[i] == ps[i];
      }
    }
  }

  /** The document is abandoned exactly when some region of some page raises. */
  lemma {:induction false} DocPagesCrashIff(ps: seq<PageOutput>, dispatch: Region -> Dispatch)
    ensures DocPages(ps, dispatch).None? <==> DocCrashes(ps, dispatch)
    decreases |ps|
  {
    if ps != [] {
      var p := ps[|ps| - 1];
      DocPagesCrashIff(ps[..|ps| - 1], dispatch);
      DocCrashesLast(ps, dispatch);
      PageRecordsCrashIff(p.regions, PageIndex(p) + 1, dispatch);
    }
  }

  /** Every page entry has at least one record, and every record of it
      carries `page_number == page_idx + 1`; there is at most one entry
      per page. */
  lemma {:induction false} DocPagesShape(ps: seq<PageOutput>, dispatch: Region -> Dispatch)
    requires DocPages(ps, dispatch).Some?
    ensures var es := DocPages(ps, dispatch).value;
      && |es| <= |ps|
      && forall k :: 0 <= k < |es| ==>
           && es[k].PageEntry? && es[k].content != []
           && forall m :: 0 <= m < |es[k].content| ==> es[k].content[m].pageNumber == es[k].pageIdx + 1
    decreases |ps|
  {
    if ps != [] {
      var p := ps[|ps| - 1];
      DocPagesShape(ps[..|ps| - 1], dispatch);
      PageRecordsBound(p.regions, PageIndex(p) + 1, dispatch);
    }
  }

  /** A single page: an entry when it has records, nothing otherwise. */
  lemma DocPagesOfOne(p: PageOutput, dispatch: Region -> Dispatch)
    requires PageRecords(p.regions, PageIndex(p) + 1, dispatch).Some?
    ensures var recs := PageRecords(p.regions, PageIndex(p) + 1, dispatch).value;
      DocPages([p], dispatch) == if recs == [] then Some([]) else Some([PageEntry(PageIndex(p), recs)])
  {
    assert [p][..0] == [];
    var recs := PageRecords(p.regions, PageIndex(p) + 1, dispatch).value;
    assert [] + [PageEntry(PageIndex(p), recs)] == [PageEntry(PageIndex(p), recs)];
  }

  /** A page without `page_index` is entered under -1, with page number 0. */
  lemma PageWithoutIndex(p: PageOutput, dispatch: Region -> Dispatch)
    requires p.pageIndex.None?
    requires PageRecords(p.regions, 0, dispatch).Some? && PageRecords(p.regions, 0, dispatch).value != []
    ensures DocPages([p], dispatch) == Some([PageEntry(-1, PageRecords(p.regions, 0, dispatch).value)])
  {
    DocPagesOfOne(p, dispatch);
  }

  /** Pages keep stream order: the entries of two runs of pages are the
      entries of the first followed by those of the second. */
  lemma {:induction false} DocPagesAppend(a: seq<PageOutput>, b: seq<PageOutput>, dispatch: Region -> Dispatch)
    requires DocPages(a, dispatch).Some? && DocPages(b, dispatch).Some?
    ensures DocPages(a + b, dispatch) == Some(DocPages(a, dispatch).value + DocPages(b, dispatch).value)
    decreases |b|
  {
    var ea := DocPages(a, dispatch).value;
    if b == [] {
      assert a + b == a;
      assert ea + [] == ea;
    } else {
      var b' := b[..|b| - 1];
      var p := b[|b| - 1];
      assert (a + b)[..|a + b| - 1] == a + b';
      assert (a + b)[|a + b| - 1] == p;
      DocPagesAppend(a, b', dispatch);
      var eb' := DocPages(b', dispatch).value;
      var recs := PageRecords(p.regions, PageIndex(p) + 1, dispatch).value;
      if recs != [] {
        var e := PageEntry(PageIndex(p), recs);
        assert ea + eb' + [e] == ea + (eb' + [e]);
      }
    }
  }

  /** Once a region has raised, later pages write nothing. */
  lemma {:induction false} DocWritesFrozen(ps: seq<PageOutput>, m: nat, dispatch: Region -> Dispatch)
    requires m <= |ps| && DocCrashes(ps[..m], dispatch)
    ensures DocWrites(ps, dispatch) == DocWrites(ps[..m], dispatch)
    decreases |ps|
  {
    if m < |ps| {
      var before := ps[..|ps| - 1];
      assert before[..m] == ps[..m];
      var i :| 0 <= i < m && CrashesIn(ps[..m][i].regions, dispatch);
      assert before[i] == ps[..m][i];
      DocWritesFrozen(before, m, dispatch);
    } else {
      assert ps[..m] == ps;
    }
  }

  // ---------------------------------------------------------------------
  // The document of `process_single_pdf`.

  /** A missing file is reported as such; the document is abandoned
      exactly when the metadata cannot be read or some region raises;
      otherwise the document is the `metadata_file` record followed by one
      entry per page that produced records, each record tagged with its
      page's number. */
  lemma ProcessDocumentOutcome(input: PdfInput, parse: string -> Option<Frame>)
    ensures ProcessDocument(input, parse).NotFound? <==> !input.present
    ensures ProcessDocument(input, parse).Failed? <==>
      input.present && (input.meta.None? || DocCrashes(input.pages, Dispatcher(parse)))
    ensures ProcessDocument(input, parse).Written? ==>
      var docs := ProcessDocument(input, parse).docs;
      && |docs| >= 1 && docs[0] == MetadataFile(input.meta.value)
      && |docs| <= |input.pages| + 1
      && forall k :: 1 <= k < |docs| ==>
           && docs[k].PageEntry? && docs[k].content != []
           && forall m :: 0 <= m < |docs[k].content| ==> docs[k].content[m].pageNumber == docs[k].pageIdx + 1
  {
    var dispatch := Dispatcher(parse);
    DocPagesCrashIff(input.pages, dispatch);
    if input.present && input.meta.Some? && DocPages(input.pages, dispatch).Some? {
      var es := DocPages(input.pages, dispatch).value;
      DocPagesShape(input.pages, dispatch);
      MetadataFirst(input.meta.value, es, |input.pages|);
    }
  }

  /** Putting the metadata entry in front of well-formed page entries. */
  lemma MetadataFirst(meta: FileMetadata, es: seq<DocEntry>, n: nat)
    requires |es| <= n
    requires forall k :: 0 <= k < |es| ==>
      && es[k].PageEntry? && es[k].content != []
      && forall m :: 0 <= m < |es[k].content| ==> es[k].content[m].pageNumber == es[k].pageIdx + 1
    ensures var docs := [MetadataFile(meta)] + es;
      && |docs| >= 1 && docs[0] == MetadataFile(meta)
      && |docs| <= n + 1
      && forall k :: 1 <= k < |docs| ==>
           && docs[k].PageEntry? && docs[k].content != []
           && forall m :: 0 <= m < |docs[k].content| ==> docs[k].content[m].pageNumber == docs[k].pageIdx + 1
  {
    var docs := [MetadataFile(meta)] + es;
    forall k | 1 <= k < |docs|
      ensures docs[k] == es[k - 1]
    {
    }
  }

  /** `process_single_pdf`: the existence check and the metadata, then the
      page loop of `AssembleDocument` with the region dispatch of the
      source. The result is the document (or how the run ended) and the
      image files written on the way. */
  method ProcessSinglePdf(input: PdfInput, parse: string -> Option<Frame>) returns (outcome: Outcome, writes: seq<string>)
    ensures outcome == ProcessDocument(input, parse)
    ensures writes == DocumentWrites(input, parse)
  {
    if !input.present {
      return NotFound, [];
    }
    if input.meta.None? {
      return Failed, [];
    }
    outcome, writes := AssembleDocument(input.meta.value, input.pages, Dispatcher(parse));
  }

  /** The page loop of `process_single_pdf`: `docs` starts with the
      metadata record, then each page's records, gathered by `CollectPage`,
      are appended as one entry when there are any. */
  method AssembleDocument(meta: FileMetadata, pages: seq<PageOutput>, dispatch: Region -> Dispatch)
    returns (outcome: Outcome, writes: seq<string>)
    ensures DocPages(pages, dispatch).None? ==> outcome == Failed
    ensures DocPages(pages, dispatch).Some? ==> outcome == Written([MetadataFile(meta)] + DocPages(pages, dispatch).value)
    ensures writes == DocWrites(pages, dispatch)
  {
    writes := [];
    var docs := [MetadataFile(meta)];
    var i := 0;
    while i < |pages|
      invariant 0 <= i <= |pages|
      invariant DocPages(pages[..i], dispatch).Some?
      invariant docs == [MetadataFile(meta)] + DocPages(pages[..i], dispatch).value
      invariant writes == DocWrites(pages[..i], dispatch)
    {
      var page := pages[i];
      var pageIndex := PageIndex(page);
      var content, written, crashed := CollectPage(page.regions, pageIndex + 1, dispatch);
      writes := writes + written;
      if crashed {
        DocPagesCrashIff(pages[..i], dispatch);
        CrashInDoc(pages, i, dispatch);
        return Failed, writes;
      }
      DocStep(pages, i, content, dispatch);
      if content != [] {
        docs := docs + [PageEntry(pageIndex, content)];
      }
      i := i + 1;
    }
    assert pages[..i] == pages;
    return Written(docs), writes;
  }

  /** The inner loop of `process_single_pdf` over one page's regions: the
      records gathered in `content`, the image files written, and whether
      a region raised (which ends the loop at once). */
  method CollectPage(rs: seq<Region>, pageNumber: int, dispatch: Region -> Dispatch)
    returns (content: seq<Record>, written: seq<string>, crashed: bool)
    ensures crashed <==> CrashesIn(rs, dispatch)
    ensures !crashed ==> PageRecords(rs, pageNumber, dispatch) == Some(content)
    ensures written == PageWrites(rs, dispatch)
  {
    content, written, crashed := [], [], false;
    var j := 0;
    while j < |rs|
      invariant 0 <= j <= |rs|
      invariant PageRecords(rs[..j], pageNumber, dispatch) == Some(content)
      invariant !CrashesIn(rs[..j], dispatch)
      invariant written == PageWrites(rs[..j], dispatch)
    {
      var r := rs[j];
      var d := dispatch(r);
      PageStep(rs, j, dispatch);
      if d.Crash? {
        CrashOnPage(rs, j, dispatch);
        return content, written, true;
      }
      written := written + RegionWrites(r);
      if d.Emit? {
        content := content + [Record(d.content, pageNumber)];
      }
      j := j + 1;
    }
    assert rs[..j] == rs;
  }

  /** One more page that does not raise, after pages that did not: the
      document grows by its entry, if it has records, and the writes by
      its writes. */
  lemma DocStep(ps: seq<PageOutput>, i: nat, recs: seq<Record>, dispatch: Region -> Dispatch)
    requires i < |ps| && DocPages(ps[..i], dispatch).Some?
    requires PageRecords(ps[i].regions, PageIndex(ps[i]) + 1, dispatch) == Some(recs)
    ensures DocWrites(ps[..i + 1], dispatch) == DocWrites(ps[..i], dispatch) + PageWrites(ps[i].regions, dispatch)
    ensures DocPages(ps[..i + 1], dispatch) ==
      if recs == [] then DocPages(ps[..i], dispatch)
      else Some(DocPages(ps[..i], dispatch).value + [PageEntry(PageIndex(ps[i]), recs)])
  {
    DocPagesCrashIff(ps[..i], dispatch);
    assert ps[..i + 1][..i] == ps[..i];
    assert ps[..i + 1][i] == ps[i];
  }

  /** One more region on a page: its prefix grows by one, and when nothing
      raises the region's file, if any, is added to the writes. */
  lemma PageStep(rs: seq<Region>, j: nat, dispatch: Region -> Dispatch)
    requires j < |rs| && !CrashesIn(rs[..j], dispatch)
    ensures rs[..j + 1][..j] == rs[..j] && rs[..j + 1][j] == rs[j]
    ensures CrashesIn(rs[..j + 1], dispatch) <==> dispatch(rs[j]).Crash?
    ensures !dispatch(rs[j]).Crash? ==>
      PageWrites(rs[..j + 1], dispatch) == PageWrites(rs[..j], dispatch) + RegionWrites(rs[j])
  {
    assert rs[..j + 1][..j] == rs[..j];
    CrashesInLast(rs[..j + 1], dispatch);
  }

  /** A page whose region `j` is the first to raise writes what the
      regions before `j` write. */
  lemma CrashOnPage(rs: seq<Region>, j: nat, dispatch: Region -> Dispatch)
    requires j < |rs| && dispatch(rs[j]).Crash? && !CrashesIn(rs[..j], dispatch)
    ensures CrashesIn(rs, dispatch)
    ensures PageWrites(rs, dispatch) == PageWrites(rs[..j], dispatch)
  {
    PageStep(rs, j, dispatch);
    var p := rs[..j + 1];
    assert p[j] == rs[j];
    assert CrashesIn(p, dispatch);
    PageWritesFrozen(rs, j + 1, dispatch);
    assert p[..|p| - 1] == rs[..j];
  }

  /** A document whose page `i` raises, after pages that do not, is
      abandoned, and writes what the earlier pages and page `i` write. */
  lemma CrashInDoc(ps: seq<PageOutput>, i: nat, dispatch: Region -> Dispatch)
    requires i < |ps| && CrashesIn(ps[i].regions, dispatch) && !DocCrashes(ps[..i], dispatch)
    ensures DocPages(ps, dispatch) == None
    ensures DocWrites(ps, dispatch) == DocWrites(ps[..i], dispatch) + PageWrites(ps[i].regions, dispatch)
  {
    assert DocCrashes(ps, dispatch);
    DocPagesCrashIff(ps, dispatch);
    var p := ps[..i + 1];
    assert p[..i] == ps[..i] && p[i] == ps[i];
    assert DocCrashes(p, dispatch);
    DocWritesFrozen(ps, i + 1, dispatch);
  }
}
