/** The text of a judgment: what `extract_text_from_pdf` builds from the pages of the PDF.
    The download, the scratch file and the PDF decoder are outside the model; a PDF is given
    as the text each page yields (`None` where a page yields none), or `None` as a whole when
    downloading or opening it fails. */
module PdfText {
  import opened Options
  import opened Seqs

  type Pages = seq<Option<string>>

  /** What one page adds: its text and a newline, or nothing when the text is missing or empty. */
  function PageChunk(page: Option<string>): string
  {
    match page
    case None => []
    case Some(t) => if t == [] then [] else t + "\n"
  }

  /** The pages' chunks, concatenated in page order. */
  function PagesText(pages: Pages): string
  {
    if pages == [] then [] else PagesText(pages[..|pages| - 1]) + PageChunk(pages[|pages| - 1])
  }

  predicate BlankPage(page: Option<string>)
  {
    page.None? || page.value == []
  }

  /** The text of a whole PDF; a failed download or decode gives the empty text. */
  function ExtractedText(pdf: Option<Pages>): string
  {
    match pdf
    case None => []
    case Some(pages) => PagesText(pages)
  }

  /** The page loop of `extract_text_from_pdf`, appending each non-empty page and a newline. */
  method ExtractText(pdf: Option<Pages>) returns (fullText: string)
    ensures fullText == ExtractedText(pdf)
  {
    fullText := "";
    if pdf.None? {
      return;
    }
    var pages := pdf.value;
    for i := 0 to |pages|
      invariant fullText == PagesText(pages[..i])
    {
      PagesTextSnoc(pages, i);
      var page := pages[i];
      if page.Some? && page.value != "" {
        fullText := fullText + page.value + "\n";
      }
      assert fullText == PagesText(pages[..i]) + PageChunk(page);
    }
    assert pages[..|pages|] == pages;
  }

  /** One more page adds its chunk at the end. */
  lemma PagesTextSnoc(pages: Pages, i: nat)
    requires i < |pages|
    ensures PagesText(pages[..i + 1]) == PagesText(pages[..i]) + PageChunk(pages[i])
  {
    var p := pages[..i + 1];
    assert p[..|p| - 1] == pages[..i];
    assert p[|p| - 1] == pages[i];
  }

  /** Concatenation is page by page: the text of two runs of pages is the two texts joined. */
  lemma {:induction false} PagesTextAppend(a: Pages, b: Pages)
    ensures PagesText(a + b) == PagesText(a) + PagesText(b)
    decreases |b|
  {
    if b == [] {
      assert a + b == a;
    } else {
      PagesTextAppend(a, b[..|b| - 1]);
      PagesTextAppendStep(a, b);
    }
  }

  lemma PagesTextLast(pages: Pages)
    requires pages != []
    ensures PagesText(pages) == PagesText(pages[..|pages| - 1]) + PageChunk(pages[|pages| - 1])
  {
  }

  /** Adding the last page of `b` to both sides keeps the texts joined. */
  lemma PagesTextAppendStep(a: Pages, b: Pages)
    requires b != []
    requires PagesText(a + b[..|b| - 1]) == PagesText(a) + PagesText(b[..|b| - 1])
    ensures PagesText(a + b) == PagesText(a) + PagesText(b)
  {
    var b', last := b[..|b| - 1], b[|b| - 1];
    var ab := a + b;
    assert ab[..|ab| - 1] == a + b';
    assert ab[|ab| - 1] == last;
    calc {
      PagesText(ab);
      { PagesTextLast(ab); }
      PagesText(a + b') + PageChunk(last);
      (PagesText(a) + PagesText(b')) + PageChunk(last);
      { AppendAssoc(PagesText(a), PagesText(b'), PageChunk(last)); }
      PagesText(a) + (PagesText(b') + PageChunk(last));
      { PagesTextLast(b); }
      PagesText(a) + PagesText(b);
    }
  }

  /** The text is empty exactly when every page is blank. */
  lemma {:induction false} PagesTextEmpty(pages: Pages)
    ensures PagesText(pages) == [] <==> forall i :: 0 <= i < |pages| ==> BlankPage(pages[i])
    decreases |pages|
  {
    if pages != [] {
      var init := pages[..|pages| - 1];
      PagesTextEmpty(init);
      assert forall i :: 0 <= i < |init| ==> init[i] == pages[i];
    }
  }

  /** A non-empty text ends with the newline its last non-empty page added. */
  lemma {:induction false} PagesTextEndsWithNewline(pages: Pages)
    requires PagesText(pages) != []
    ensures PagesText(pages)[|PagesText(pages)| - 1] == '\n'
    decreases |pages|
  {
    var last := pages[|pages| - 1];
    if BlankPage(last) {
      PagesTextEndsWithNewline(pages[..|pages| - 1]);
    }
  }
}
