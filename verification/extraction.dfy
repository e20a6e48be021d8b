/** `extract_and_clean_text_from_pdf`: gather the text of the pages, join it, clean it,
    and turn every failure into one generic error. The PDF reader is not modelled; its
    outcome is the input document value. */
module PdfExtraction {
  import opened Wrappers
  import opened CharClasses
  import opened Sequences
  import opened Lines
  import opened Stripping
  import opened Cleaning

  /** What `page.extract_text()` did for one page: returned a string or `None`, or raised. */
  datatype PageText = Extracted(text: Option<string>) | ExtractionRaised

  /** What opening the file with the PDF reader gave: an error, or the list of pages. */
  datatype PdfDocument = Unreadable | Readable(pages: seq<PageText>)

  /** The exceptions raised inside the `try` block; the caller never sees them. */
  datatype ExtractionFault = ReaderFailed | NoPages | PageFailed | NoReadableText

  /** The one message every failure is reported with. */
  const GenericErrorMessage: string :=
    "Unable to extract text from the PDF. Please upload a readable document."

  /** The page's text is truthy: present and not empty. */
  predicate HasText(p: PageText) {
    p.Extracted? && p.text.Some? && p.text.value != ""
  }

  predicate SomePageRaises(pages: seq<PageText>) {
    exists i :: 0 <= i < |pages| && pages[i].ExtractionRaised?
  }

  predicate NoPageHasText(pages: seq<PageText>) {
    forall i :: 0 <= i < |pages| ==> !HasText(pages[i])
  }

  /** The texts of the pages that have text, in page order. */
  function ReadableTexts(pages: seq<PageText>): (texts: seq<string>)
    ensures |texts| <= |pages|
    ensures forall i :: 0 <= i < |texts| ==> texts[i] != ""
    ensures forall t :: t in texts <==>
      exists i :: 0 <= i < |pages| && HasText(pages[i]) && pages[i].text.value == t
    ensures |texts| == 0 <==> NoPageHasText(pages)
    decreases |pages|
  {
    if |pages| == 0 then []
    else
      var rest := ReadableTexts(pages[1..]);
      assert forall i :: 0 < i < |pages| ==> pages[i] == pages[1..][i - 1];
      if HasText(pages[0]) then [pages[0].text.value] + rest else rest
  }

  /** Page order is kept: the texts of a concatenation are the texts of the parts. */
  lemma {:induction false} ReadableTextsAppend(a: seq<PageText>, b: seq<PageText>)
    ensures ReadableTexts(a + b) == ReadableTexts(a) + ReadableTexts(b)
    decreases |a|
  {
    if |a| == 0 {
      assert a + b == b;
    } else {
      assert (a + b)[0] == a[0] && (a + b)[1..] == a[1..] + b;
      ReadableTextsAppend(a[1..], b);
    }
  }

  /** The loop over the pages: the first page whose extraction raises aborts it. */
  function CollectPageTexts(pages: seq<PageText>): (r: Result<seq<string>, ExtractionFault>)
    ensures r.Failure? <==> SomePageRaises(pages)
    ensures r.Failure? ==> r.error == PageFailed
    ensures r.Success? ==> r.value == ReadableTexts(pages)
    decreases |pages|
  {
    if |pages| == 0 then Success([])
    else if pages[0].ExtractionRaised? then Failure(PageFailed)
    else
      assert forall i :: 0 < i < |pages| ==> pages[i] == pages[1..][i - 1];
      match CollectPageTexts(pages[1..])
      case Failure(e) => Failure(e)
      case Success(texts) =>
        Success(if HasText(pages[0]) then [pages[0].text.value] + texts else texts)
  }

  /** The body of the `try` block, with the exception it raises as the error. */
  function ExtractRaw(doc: PdfDocument): (r: Result<string, ExtractionFault>)
    ensures r == Failure(ReaderFailed) <==> doc.Unreadable?
    ensures r == Failure(NoPages) <==> doc.Readable? && |doc.pages| == 0
    ensures r == Failure(PageFailed) <==> doc.Readable? && SomePageRaises(doc.pages)
    ensures r == Failure(NoReadableText) <==>
      doc.Readable? && |doc.pages| > 0 && !SomePageRaises(doc.pages) && NoPageHasText(doc.pages)
    ensures r.Failure? <==>
      doc.Unreadable? || |doc.pages| == 0 || SomePageRaises(doc.pages) || NoPageHasText(doc.pages)
    ensures r.Success? ==> r.value == CleanText(JoinLines(ReadableTexts(doc.pages)))
  {
    match doc
    case Unreadable => Failure(ReaderFailed)
    case Readable(pages) =>
      if |pages| == 0 then Failure(NoPages)
      else
        match CollectPageTexts(pages)
        case Failure(e) => Failure(e)
        case Success(texts) =>
          if |texts| == 0 then Failure(NoReadableText)
          else Success(CleanText(JoinLines(texts)))
  }

  /** `extract_and_clean_text_from_pdf`: fails, always with the generic message, exactly
      when the file cannot be read, has no pages, has a page whose extraction raises, or
      has no page with text; otherwise returns cleaned text. */
  function ExtractAndCleanText(doc: PdfDocument): (r: Result<string, string>)
    ensures r.Failure? ==> r.error == GenericErrorMessage
    ensures r.Failure? <==>
      doc.Unreadable? || |doc.pages| == 0 || SomePageRaises(doc.pages) || NoPageHasText(doc.pages)
    ensures r.Success? ==> forall i :: 0 <= i < |r.value| ==> r.value[i] != '\n' && !IsDigit(r.value[i])
    ensures r.Success? ==> IsStripped(r.value)
  {
    var raw := ExtractRaw(doc);
    assert raw.Success? ==> CleanText(JoinLines(ReadableTexts(doc.pages))) == raw.value;
    raw.WithError(GenericErrorMessage)
  }

  /** On success the result holds the text of the readable pages, in page order, with
      exactly the whitespace, digits and hyphens removed or changed. */
  lemma {:induction false} ExtractKeepsPageContent(doc: PdfDocument)
    requires ExtractAndCleanText(doc).Success?
    ensures Filter(IsContent, ExtractAndCleanText(doc).value)
         == FilterEach(IsContent, ReadableTexts(doc.pages))
  {
    var joined := JoinLines(ReadableTexts(doc.pages));
    CleanKeepsContent(joined);
    FilterJoinLines(IsContent, ReadableTexts(doc.pages));
  }

  /** A document whose readable pages hold nothing but digits and whitespace, such as
      bare page numbers, succeeds with the empty text rather than failing: the readable
      text check runs before cleaning, not after. */
  lemma {:induction false} NumbersOnlyGivesEmptyText(doc: PdfDocument)
    requires doc.Readable? && !SomePageRaises(doc.pages) && !NoPageHasText(doc.pages)
    requires forall p :: p in doc.pages && HasText(p) ==>
      forall j :: 0 <= j < |p.text.value| ==> IsDigit(p.text.value[j]) || IsSpace(p.text.value[j])
    ensures ExtractAndCleanText(doc) == Success("")
  {
    var texts := ReadableTexts(doc.pages);
    var joined := JoinLines(texts);
    JoinLinesMembers(texts);
    forall c | c in joined ensures IsDigit(c) || IsSpace(c) {
      if c != '\n' {
        var i :| 0 <= i < |texts| && c in texts[i];
        assert texts[i] in texts;
        var k :| 0 <= k < |doc.pages| && HasText(doc.pages[k]) && doc.pages[k].text.value == texts[i];
        assert doc.pages[k] in doc.pages;
      }
    }
    CleanDigitsAndSpace(joined);
  }
}
