/**
 * `main` (ocr.py): every name in the source directory listing whose
 * lower-cased form ends in `.pdf` is handed to `process_single_pdf`, in
 * listing order.
 */
module BatchRunner {
  import opened Common
  import opened Records
  import opened TableNormalizer
  import opened DocumentPipeline

  /** `str.lower` on one character, for the ASCII letters. */
  function LowerChar(c: char): char
  {
    if 'A' <= c <= 'Z' then (c as int + 32) as char else c
  }

  /** `str.lower`, character by character. */
  function Lower(s: string): string
  {
    seq(|s|, i requires 0 <= i < |s| => LowerChar(s[i]))
  }

  predicate EndsWith(s: string, suffix: string)
  {
    |suffix| <= |s| && s[|s| - |suffix|..] == suffix
  }

  /** `filename.lower().endswith('.pdf')`. */
  predicate IsPdfName(name: string)
  {
    EndsWith(Lower(name), ".pdf")
  }

  /** The names `main` processes, in listing order. */
  function PdfFiles(names: seq<string>): seq<string>
    decreases |names|
  {
    if names == [] then []
    else
      var last := names[|names| - 1];
      PdfFiles(names[..|names| - 1]) + (if IsPdfName(last) then [last] else [])
  }

  /** `main`: nothing when the source directory is missing; otherwise
      one run of `process_single_pdf` per PDF name, in listing order.
      `inputs` gives what the file system and the engine hold for a name. */
  method RunBatch(sourcePresent: bool, names: seq<string>, inputs: string -> PdfInput, parse: string -> Option<Frame>)
    returns (processed: seq<string>, outcomes: seq<Outcome>)
    ensures processed == if sourcePresent then PdfFiles(names) else []
    ensures |outcomes| == |processed|
    ensures forall k :: 0 <= k < |processed| ==> outcomes[k] == ProcessDocument(inputs(processed[k]), parse)
  {
    processed, outcomes := [], [];
    if !sourcePresent {
      return;
    }
    var i := 0;
    while i < |names|
      invariant 0 <= i <= |names|
      invariant processed == PdfFiles(names[..i])
      invariant |outcomes| == |processed|
      invariant forall k :: 0 <= k < |processed| ==> outcomes[k] == ProcessDocument(inputs(processed[k]), parse)
    {
      var filename := names[i];
      assert names[..i + 1][..i] == names[..i];
      if IsPdfName(filename) {
        var outcome, _ := ProcessSinglePdf(inputs(filename), parse);
        processed := processed + [filename];
        outcomes := outcomes + [outcome];
      }
      i := i + 1;
    }
    assert names[..i] == names;
  }

  // ---------------------------------------------------------------------
  // What the filter keeps.

  /** A name is processed exactly when it is listed and its lower-cased
      form ends in `.pdf`. */
  lemma {:induction false} PdfFilesMembership(names: seq<string>, x: string)
    ensures x in PdfFiles(names) <==> x in names && IsPdfName(x)
    decreases |names|
  {
    if names != [] {
      var before := names[..|names| - 1];
      PdfFilesMembership(before, x);
      assert names == before + [names[|names| - 1]];
    }
  }

  /** Listing order is kept: the names processed from two listings, one
      after the other, are those of the first then those of the second. */
  lemma {:induction false} PdfFilesAppend(a: seq<string>, b: seq<string>)
    ensures PdfFiles(a + b) == PdfFiles(a) + PdfFiles(b)
    decreases |b|
  {
    if b == [] {
      assert a + b == a;
    } else {
      var b' := b[..|b| - 1];
      assert (a + b)[..|a + b| - 1] == a + b';
      PdfFilesAppend(a, b');
    }
  }

  /** At most every name is processed, and only names of the listing. */
  lemma {:induction false} PdfFilesBound(names: seq<string>)
    ensures |PdfFiles(names)| <= |names|
    decreases |names|
  {
    if names != [] {
      PdfFilesBound(names[..|names| - 1]);
    }
  }

  /** The test depends on the letters only up to case. */
  lemma PdfNameIgnoresCase(s: string)
    ensures IsPdfName(Lower(s)) <==> IsPdfName(s)
  {
  }

  lemma ExampleNames()
    ensures IsPdfName("a.pdf") && IsPdfName("b.PDF") && !IsPdfName("c.txt")
  {
    assert Lower("b.PDF") == "b.pdf";
    assert Lower("a.pdf") == "a.pdf";
    assert Lower("c.txt")[1..] == ".txt";
  }

  /** `b.PDF` is kept and `c.txt` skipped. */
  lemma ExampleBatch()
    ensures PdfFiles(["a.pdf", "b.PDF", "c.txt"]) == ["a.pdf", "b.PDF"]
  {
    ExampleNames();
    var names := ["a.pdf", "b.PDF", "c.txt"];
    assert names[..2] == ["a.pdf", "b.PDF"];
    assert names[..2][..1] == ["a.pdf"];
    assert ["a.pdf"][..0] == [];
    assert PdfFiles(["a.pdf"]) == ["a.pdf"];
    assert PdfFiles(["a.pdf", "b.PDF"]) == ["a.pdf", "b.PDF"];
  }
}
