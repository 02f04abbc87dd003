/**
 * The page loops of `ocr_pdf` and `extract_text_from_pdf_with_pymupdf`.
 * Both walk the pages of a PDF in order, obtain each page's text from a foreign
 * library (Tesseract on a rasterised page, or PyMuPDF's text layer), and keep a
 * page only when its text is not blank, numbering it by its 1-based position.
 * The foreign calls are abstracted away: the input is the sequence of page texts.
 */
module OcrUtils {
  import opened PyText

  /** One extracted page: `{"text": text, "page": page}`. */
  datatype PageData = PageData(text: string, page: int)

  /**
   * The pages kept from the page texts `texts`. Defined on prefixes, so that the
   * state of the loop after `i` pages is `KeptPages(texts[..i])`.
   */
  function KeptPages(texts: seq<string>): seq<PageData>
  {
    if texts == [] then []
    else
      var n := |texts|;
      KeptPages(texts[..n - 1]) + (if HasContent(texts[n - 1]) then [PageData(texts[n - 1], n)] else [])
  }

  /** The extraction loop, for either extractor. */
  method NumberNonBlankPages(texts: seq<string>) returns (pageData: seq<PageData>)
    ensures pageData == KeptPages(texts)
  {
    pageData := [];
    var i := 0;
    while i < |texts|
      invariant 0 <= i <= |texts|
      invariant pageData == KeptPages(texts[..i])
    {
      var text := texts[i];
      assert texts[..i + 1][..i] == texts[..i];
      if HasContent(text) {
        pageData := pageData + [PageData(text, i + 1)];
      }
      i := i + 1;
    }
    assert texts[..|texts|] == texts;
  }

  /** Page numbers are at least 1 and strictly increasing. */
  predicate StrictlyNumbered(pages: seq<PageData>) {
    && (forall j :: 0 <= j < |pages| ==> pages[j].page >= 1)
    && (forall j, k :: 0 <= j < k < |pages| ==> pages[j].page < pages[k].page)
  }

  /** Every page of `pages` is a non-blank page of `texts`, carried unstripped and numbered by its 1-based position. */
  predicate FromSource(texts: seq<string>, pages: seq<PageData>) {
    forall j :: 0 <= j < |pages| ==>
      && 1 <= pages[j].page <= |texts|
      && pages[j].text == texts[pages[j].page - 1]
      && HasContent(pages[j].text)
  }

  /**
   * Every kept page is a non-blank source page, carried unstripped and numbered by its
   * 1-based position; the numbers strictly increase; no more pages come out than went in.
   */
  lemma {:induction false} KeptPagesSound(texts: seq<string>)
    ensures |KeptPages(texts)| <= |texts|
    ensures StrictlyNumbered(KeptPages(texts))
    ensures FromSource(texts, KeptPages(texts))
  {
    if texts != [] {
      var n := |texts|;
      var front := texts[..n - 1];
      KeptPagesSound(front);
      var r, kept := KeptPages(texts), KeptPages(front);
      assert r[..|kept|] == kept;
      forall j | 0 <= j < |r|
        ensures 1 <= r[j].page <= |texts| && r[j].text == texts[r[j].page - 1] && HasContent(r[j].text)
      {
        if j < |kept| {
          assert r[j] == kept[j] && front[r[j].page - 1] == texts[r[j].page - 1];
        }
      }
      forall j, k | 0 <= j < k < |r|
        ensures r[j].page < r[k].page
      {
        if k < |kept| {
          assert r[j] == kept[j] && r[k] == kept[k];
        } else {
          assert r[j] == kept[j];
        }
      }
    }
  }

  /** Every non-blank source page is kept, under its 1-based position. */
  lemma {:induction false} KeptPagesComplete(texts: seq<string>)
    ensures forall k :: 0 <= k < |texts| && HasContent(texts[k]) ==>
      PageData(texts[k], k + 1) in KeptPages(texts)
  {
    if texts != [] {
      var n := |texts|;
      var front := texts[..n - 1];
      KeptPagesComplete(front);
      assert forall k :: 0 <= k < n - 1 ==> front[k] == texts[k];
    }
  }

  /** Python's `any(p["text"] for p in pages)`: some page has a non-empty text. */
  predicate AnyText(pages: seq<PageData>) {
    exists j :: 0 <= j < |pages| && pages[j].text != ""
  }

  /**
   * Since blank pages are dropped, a PDF's extracted page list has no text at all exactly
   * when it is empty, which happens exactly when every page is blank.
   */
  lemma NoTextIffNoPages(texts: seq<string>)
    ensures !AnyText(KeptPages(texts)) <==> KeptPages(texts) == []
    ensures KeptPages(texts) == [] <==> forall k :: 0 <= k < |texts| ==> !HasContent(texts[k])
  {
    var r := KeptPages(texts);
    KeptPagesSound(texts);
    KeptPagesComplete(texts);
    if r != [] {
      HasContentNonEmpty(r[0].text);
    }
  }
}
