/**
 * The text extractor, `input_pdf_text`: direct extraction of the pages' text
 * layers, accepted when it holds a non-whitespace character, and otherwise
 * optical character recognition of the rendered pages.
 *
 * The PDF library, the renderer and the OCR engine are oracles: their
 * answers for the uploaded document are given as data.
 */
module Extraction {
  import opened Wrappers
  import opened PyText

  /** The prefix of the string returned when the OCR stage raises. */
  const OcrErrorPrefix := "\U{274C} Error reading PDF (OCR failed): "

  /** What `page.extract_text()` does for one page: return text, return `None`, or raise. */
  datatype Page = PageText(text: string) | NoText | PageFailed

  /** What opening the document with the PDF reader gives: its pages, or an exception. */
  datatype Reading = ReaderFailed | Pages(pages: seq<Page>)

  /** What recognising one page image does: return text, or raise with a message. */
  datatype Recognition = Recognized(text: string) | RecognitionFailed(message: string)

  /** What rendering the document's pages to images gives: one recognition per image, or an exception. */
  datatype Rendering = RenderFailed(message: string) | Images(images: seq<Recognition>)

  /** The contribution of a page: its text, `""` when it has none (`extract_text() or ""`). */
  function PageString(p: Page): string {
    if p.PageText? then p.text else ""
  }

  function PageStrings(pages: seq<Page>): (r: seq<string>)
    ensures |r| == |pages| && forall i :: 0 <= i < |pages| ==> r[i] == PageString(pages[i])
  {
    seq(|pages|, i requires 0 <= i < |pages| => PageString(pages[i]))
  }

  predicate NoPageFails(pages: seq<Page>) {
    forall i :: 0 <= i < |pages| ==> !pages[i].PageFailed?
  }

  /**
   * What the direct stage returns: the page texts in page order, provided
   * the reader opens, no page raises and the text is not all whitespace;
   * `None` when the function goes on to the OCR stage.
   */
  function DirectText(reading: Reading): (r: Option<string>)
    ensures r.Some? ==> reading.Pages? && NoPageFails(reading.pages) && !AllSpace(r.value)
    ensures reading.Pages? && NoPageFails(reading.pages) && !AllSpace(Concat(PageStrings(reading.pages))) ==> r.Some?
  {
    if reading.Pages? then
      var text := Concat(PageStrings(reading.pages));
      StripEmptyIff(text);
      if NoPageFails(reading.pages) && Strip(text) != "" then Some(text) else None
    else None
  }

  function RecognizedStrings(images: seq<Recognition>): (r: seq<string>)
    ensures |r| == |images|
    ensures forall i :: 0 <= i < |images| ==> r[i] == if images[i].Recognized? then images[i].text else ""
  {
    seq(|images|, i requires 0 <= i < |images| => if images[i].Recognized? then images[i].text else "")
  }

  /** The position of the first image whose recognition raises, `|images|` when none does. */
  function FirstFailure(images: seq<Recognition>): (k: nat)
    ensures k <= |images|
    ensures forall j :: 0 <= j < k ==> images[j].Recognized?
    ensures k < |images| ==> images[k].RecognitionFailed?
  {
    if images == [] || images[0].RecognitionFailed? then 0
    else 1 + FirstFailure(images[1..])
  }

  /**
   * What the OCR stage returns: the recognised texts in page order, even
   * when empty; on the first exception, the error prefix and its message.
   */
  function OcrText(rendering: Rendering): (r: string)
    ensures rendering.RenderFailed? ==> r == OcrErrorPrefix + rendering.message
    ensures rendering.Images? && (forall k :: 0 <= k < |rendering.images| ==> rendering.images[k].Recognized?) ==>
      r == Concat(RecognizedStrings(rendering.images))
    ensures rendering.Images? && (exists k :: 0 <= k < |rendering.images| && rendering.images[k].RecognitionFailed?) ==>
      exists k :: && 0 <= k < |rendering.images| && rendering.images[k].RecognitionFailed?
        && (forall j :: 0 <= j < k ==> rendering.images[j].Recognized?)
        && r == OcrErrorPrefix + rendering.images[k].message
  {
    match rendering
    case RenderFailed(m) => OcrErrorPrefix + m
    case Images(images) =>
      var k := FirstFailure(images);
      if k < |images| then OcrErrorPrefix + images[k].message
      else Concat(RecognizedStrings(images))
  }

  /** The first `try` block of `input_pdf_text`. */
  method ExtractDirect(reading: Reading) returns (r: Option<string>)
    ensures r == DirectText(reading)
  {
    if reading.ReaderFailed? {
      return None;
    }
    var pages := reading.pages;
    var text := "";
    for i := 0 to |pages|
      invariant NoPageFails(pages[..i])
      invariant text == Concat(PageStrings(pages[..i]))
    {
      if pages[i].PageFailed? {
        return None;
      }
      assert PageStrings(pages[..i + 1]) == PageStrings(pages[..i]) + [PageString(pages[i])];
      text := text + PageString(pages[i]);
    }
    assert pages[..|pages|] == pages;
    if Strip(text) != "" {
      return Some(text);
    }
    return None;
  }

  /** The second `try` block of `input_pdf_text`. */
  method ExtractOcr(rendering: Rendering) returns (text: string)
    ensures text == OcrText(rendering)
  {
    if rendering.RenderFailed? {
      return OcrErrorPrefix + rendering.message;
    }
    var images := rendering.images;
    text := "";
    for i := 0 to |images|
      invariant i <= FirstFailure(images)
      invariant text == Concat(RecognizedStrings(images[..i]))
    {
      if images[i].RecognitionFailed? {
        return OcrErrorPrefix + images[i].message;
      }
      assert RecognizedStrings(images[..i + 1]) == RecognizedStrings(images[..i]) + [images[i].text];
      text := text + images[i].text;
    }
    assert images[..|images|] == images;
  }

  /** `input_pdf_text(uploaded_file)`. */
  method InputPdfText(reading: Reading, rendering: Rendering) returns (text: string)
    ensures DirectText(reading).Some? ==> text == DirectText(reading).value
    ensures DirectText(reading).None? ==> text == OcrText(rendering)
  {
    var direct := ExtractDirect(reading);
    if direct.Some? {
      return direct.value;
    }
    text := ExtractOcr(rendering);
  }

  // ---------------------------------------------------------------- properties

  /** A concatenation is all whitespace exactly when every piece is. */
  lemma {:induction false} ConcatAllSpace(pieces: seq<string>)
    ensures AllSpace(Concat(pieces)) <==> forall i :: 0 <= i < |pieces| ==> AllSpace(pieces[i])
    decreases |pieces|
  {
    if pieces != [] {
      var init := pieces[..|pieces| - 1];
      var last := pieces[|pieces| - 1];
      ConcatAllSpace(init);
      var c := Concat(pieces);
      assert c == Concat(init) + last;
      assert AllSpace(c) <==> AllSpace(Concat(init)) && AllSpace(last) by {
        assert forall k :: 0 <= k < |Concat(init)| ==> c[k] == Concat(init)[k];
        assert forall k :: 0 <= k < |last| ==> c[|Concat(init)| + k] == last[k];
      }
      assert forall i :: 0 <= i < |init| ==> init[i] == pieces[i];
    }
  }

  /**
   * The direct stage is accepted exactly when the reader opens, no page
   * raises and some page yields a character other than whitespace; the OCR
   * stage is then never consulted.
   */
  lemma DirectAcceptedIff(reading: Reading, rendering: Rendering)
    ensures DirectText(reading).Some? <==>
      && reading.Pages? && NoPageFails(reading.pages)
      && exists i :: 0 <= i < |reading.pages| && !AllSpace(PageString(reading.pages[i]))
  {
    if reading.Pages? {
      var ps := PageStrings(reading.pages);
      ConcatAllSpace(ps);
      StripEmptyIff(Concat(ps));
    }
  }

  /** When the direct stage is accepted, every page's text appears in the result, unchanged and in page order. */
  lemma DirectKeepsPageOrder(reading: Reading, i: nat)
    requires DirectText(reading).Some? && i < |reading.pages|
    ensures var text := DirectText(reading).value;
      var at := Offset(PageStrings(reading.pages), i);
      at + |PageString(reading.pages[i])| <= |text|
      && text[at..at + |PageString(reading.pages[i])|] == PageString(reading.pages[i])
  {
    PieceAtOffset(PageStrings(reading.pages), i);
  }

  /** When no recognition raises, every image's text appears in the OCR result, unchanged and in page order. */
  lemma OcrKeepsPageOrder(images: seq<Recognition>, i: nat)
    requires FirstFailure(images) == |images| && i < |images|
    ensures var text := OcrText(Images(images));
      var at := Offset(RecognizedStrings(images), i);
      at + |images[i].text| <= |text| && text[at..at + |images[i].text|] == images[i].text
  {
    var text := Concat(RecognizedStrings(images));
    assert OcrText(Images(images)) == text;
    PieceAtOffset(RecognizedStrings(images), i);
  }

  /**
   * Failures are signalled in-band: a document whose only page is recognised
   * as the error prefix followed by `m` yields the same string as a renderer
   * that raises with message `m`, so a caller cannot tell the two apart.
   */
  lemma OcrErrorIndistinguishable(m: string)
    ensures OcrText(Images([Recognized(OcrErrorPrefix + m)])) == OcrText(RenderFailed(m))
  {
    var images := [Recognized(OcrErrorPrefix + m)];
    assert FirstFailure(images) == 1;
    assert RecognizedStrings(images) == [OcrErrorPrefix + m];
    assert Concat([OcrErrorPrefix + m]) == Concat([]) + (OcrErrorPrefix + m);
  }
}
