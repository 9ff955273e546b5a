/**
 * `clean_latex_formula` and `process_text_content` (ocr.py): whitespace
 * normalisation, then a list record when the list scanner finds items,
 * otherwise a text record under the region's own label.
 */
module ContentClassifier {
  import opened Whitespace
  import opened ListDetector
  import opened Records

  /** `clean_latex_formula`: the normalisation of free text, applied to a
      formula. It keeps the words of its input, in order, and its result
      is a normal form that a second pass leaves alone. */
  function CleanLatexFormula(raw: string): (r: string)
    ensures Normalized(r) && Clean(r) == r
    ensures Words(r) == Words(raw)
  {
    CleanNormalized(raw);
    CleanIdempotent(raw);
    CleanIsJoinedWords(raw);
    WordsAreWords(raw);
    WordsOfJoin(Words(raw));
    Clean(raw)
  }

  /** `process_text_content(label, text)`. */
  function ProcessText(tag: string, text: string): Content
  {
    var cleaned := Clean(text);
    var items := ListItems(cleaned);
    if items != [] then List(items) else Text(tag, cleaned)
  }

  /** A list record comes out exactly when a marker occurs in the cleaned
      text, and it holds the items the scanner finds there. */
  lemma ProcessTextListIff(tag: string, text: string)
    ensures ProcessText(tag, text).List? <==> !NoMarker(Clean(text))
    ensures ProcessText(tag, text).List? ==>
      ProcessText(tag, text).items == ListItems(Clean(text)) && |ProcessText(tag, text).items| > 0
  {
    ListItemsEmptyIff(Clean(text));
  }

  /** Without a marker, the record keeps the region's label and holds the
      cleaned text, which is the formula normalisation of the same input
      and a normal form. */
  lemma ProcessTextPlain(tag: string, text: string)
    requires NoMarker(Clean(text))
    ensures ProcessText(tag, text) == Text(tag, CleanLatexFormula(text))
    ensures Normalized(ProcessText(tag, text).text)
  {
    ListItemsEmptyIff(Clean(text));
  }

  /** Every record `process_text_content` returns is a list or a text
      record under the given label; a text record is normalised. */
  lemma ProcessTextShape(tag: string, text: string)
    ensures var c := ProcessText(tag, text);
      && (c.List? || c.Text?)
      && (c.Text? ==> c.tag == tag && Normalized(c.text))
  {
    CleanNormalized(text);
  }

  /** `"1. Apple 2. Banana 3. Cherry"` is already normalised. */
  lemma NumberedExampleNormalized()
    ensures Clean(NumberedExample) == NumberedExample
  {
    NumberedExampleWords();
    NumberedExampleJoined();
    JoinNormalized(NumberedExampleWordList);
    CleanFixpoints(NumberedExample);
  }

  const NumberedExampleWordList: seq<string> := ["1.", "Apple", "2.", "Banana", "3.", "Cherry"]

  lemma NumberedExampleWords()
    ensures AllWords(NumberedExampleWordList)
  {
  }

  lemma NumberedExampleJoined()
    ensures Join(NumberedExampleWordList) == NumberedExample
  {
  }

  /** The numbered example becomes a list record of its three items. */
  lemma ExampleNumberedRecord()
    ensures ProcessText("text", NumberedExample) == List(["Apple", "Banana", "Cherry"])
  {
    NumberedExampleNormalized();
    ExampleNumbered();
  }
}
