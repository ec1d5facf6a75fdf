/** `main()`: the crawl over the years, the paginated listing of each year, the rules that skip
    a result row, and what is exported at the end. Everything the crawler fetches — listing
    pages, case pages, PDFs — is part of a `World` the crawl reads; URL resolution and the
    sentence pattern's matches are functions of it too. */
module Crawler {
  import opened Options
  import opened PyStr
  import opened Citation
  import opened PdfText
  import opened Propositions

  /** The link inside a row's `h3`: its text (already stripped) and its `href` attribute, if any. */
  datatype Link = Link(title: string, href: Option<string>)

  /** A row's `h3`: absent, or present with or without a link inside it. */
  datatype Heading = NoHeading | Heading(link: Option<Link>)

  /** One `div.result` of a listing page: its heading and the text of its `p.meta-data`, if any. */
  datatype Row = Row(heading: Heading, metadata: Option<string>)

  /** A case's own page, as the `href` attributes of its links in document order. */
  datatype DetailPage = DetailPage(hrefs: seq<Option<string>>)

  /** A listing response: `None` when the fetch fails, otherwise the rows found on the page. */
  type Listing = Option<seq<Row>>

  /** What the crawler reads from the outside. `listings(year)[k]` is the response to the
      request for `year` with `start = 10 * k`; every request past the end is answered with a
      page that has no rows. `details` and `pdfs` are keyed by resolved URL (`None`: the fetch or
      the PDF fails), `resolve` is `urljoin(BASE_URL, ·)`. */
  datatype World = World(
    listings: nat -> seq<Listing>,
    details: string -> Option<DetailPage>,
    pdfs: string -> Option<Pages>,
    resolve: string -> string,
    sentenceMatches: SentenceMatcher)

  /** `YEARS_TO_CRAWL`: 2004 to 2025, in order. */
  const Years: seq<nat> := seq(22, i requires 0 <= i < 22 => 2004 + i)

  /** Results per listing page: the step of `start_index`. */
  const PageSize: nat := 10

  /** What the crawl has appended and whether it ended by raising an exception. */
  datatype Run = Run(records: seq<Proposition>, raised: bool)

  /** `acc` followed by what `r` appends. */
  function Then(acc: seq<Proposition>, r: Run): Run
  {
    Run(acc + r.records, r.raised)
  }

  // ---------------------------------------------------------------------------
  // One result row
  // ---------------------------------------------------------------------------

  /** `href=re.compile(r'\.pdf$')`: the pattern is searched, and `$` also matches before a
      final newline, so the value ends in `.pdf` or in `.pdf` and one newline. */
  predicate EndsWithPdf(h: string)
  {
    || (|h| >= 4 && h[|h| - 4..] == ".pdf")
    || (|h| >= 5 && h[|h| - 5..] == ".pdf\n")
  }

  predicate PdfLink(href: Option<string>)
  {
    href.Some? && EndsWithPdf(href.value)
  }

  /** `details_soup.find('a', href=...)['href']`: the first link whose `href` is a PDF link. */
  function PdfHref(page: DetailPage): (r: Option<string>)
    ensures r.None? <==> forall j :: 0 <= j < |page.hrefs| ==> !PdfLink(page.hrefs[j])
    ensures r.Some? ==> exists j :: 0 <= j < |page.hrefs| && page.hrefs[j] == r && PdfLink(r)
                                    && forall k :: 0 <= k < j ==> !PdfLink(page.hrefs[k])
  {
    var j := FirstPdfLink(page.hrefs, 0);
    if j == |page.hrefs| then None else page.hrefs[j]
  }

  /** The index of the first PDF link at or after `i`, or `|hrefs|` when there is none. */
  function FirstPdfLink(hrefs: seq<Option<string>>, i: nat): (j: nat)
    requires i <= |hrefs|
    ensures i <= j <= |hrefs|
    ensures forall k :: i <= k < j ==> !PdfLink(hrefs[k])
    ensures j < |hrefs| ==> PdfLink(hrefs[j])
    decreases |hrefs| - i
  {
    if i == |hrefs| || PdfLink(hrefs[i]) then i else FirstPdfLink(hrefs, i + 1)
  }

  /** What one row of a listing page for `year` does: raise (a missing `h3`, or a link without
      `href`), add nothing (a missing link or metadata, a failed case page, no PDF link, a PDF
      without text), or append the records of the case. */
  function RowRun(w: World, year: nat, row: Row): Run
  {
    match row.heading
    case NoHeading => Run([], true)
    case Heading(link) =>
      if link.None? || row.metadata.None? then Run([], false)
      else if link.value.href.None? then Run([], true)
      else
        var citation := CaseCitation(row.metadata.value, year);
        match w.details(w.resolve(link.value.href.value))
        case None => Run([], false)
        case Some(page) =>
          match PdfHref(page)
          case None => Run([], false)
          case Some(href) =>
            var pdfUrl := w.resolve(href);
            var text := ExtractedText(w.pdfs(pdfUrl));
            if text == [] then Run([], false)
            else Run(CaseRecords(Case(link.value.title, citation, pdfUrl), text, w.sentenceMatches), false)
  }

  /** The body of the loop over a page's rows. */
  method ProcessRow(w: World, year: nat, row: Row, all: seq<Proposition>)
    returns (all': seq<Proposition>, raised: bool)
    ensures Run(all', raised) == Then(all, RowRun(w, year, row))
  {
    all', raised := all, false;
    if row.heading.NoHeading? {
      // `result.find('h3')` is None, and `.find('a')` on it raises.
      raised := true;
      return;
    }
    var titleTag := row.heading.link;
    var metaTag := row.metadata;
    if titleTag.None? || metaTag.None? {
      return;
    }
    var title := titleTag.value.title;
    if titleTag.value.href.None? {
      // `case_title_tag['href']` raises when the attribute is missing.
      raised := true;
      return;
    }
    var detailsUrl := w.resolve(titleTag.value.href.value);
    var citation := CaseCitation(metaTag.value, year);
    var detailsSoup := w.details(detailsUrl);
    if detailsSoup.None? {
      return;
    }
    var pdfTag := PdfHref(detailsSoup.value);
    if pdfTag.None? {
      return;
    }
    var pdfUrl := w.resolve(pdfTag.value);
    var documentText := ExtractText(w.pdfs(pdfUrl));
    if documentText == "" {
      return;
    }
    all' := ProcessCase(all, Case(title, citation, pdfUrl), documentText, w.sentenceMatches);
  }

  /** The skip rules: a row raises exactly when it has no `h3`, or has a link without `href`
      beside its metadata; a row adds records only when it has a link and metadata, its case
      page was fetched, that page has a PDF link, and the PDF gave some text. */
  lemma RowSkipRules(w: World, year: nat, row: Row)
    ensures RowRun(w, year, row).raised <==>
              || row.heading.NoHeading?
              || (row.heading.link.Some? && row.metadata.Some? && row.heading.link.value.href.None?)
    ensures RowRun(w, year, row).raised ==> RowRun(w, year, row).records == []
    ensures RowRun(w, year, row).records != [] ==>
              && row.heading.Heading? && row.heading.link.Some? && row.metadata.Some?
              && row.heading.link.value.href.Some?
              && var details := w.details(w.resolve(row.heading.link.value.href.value));
                 && details.Some? && PdfHref(details.value).Some?
                 && var pdfUrl := w.resolve(PdfHref(details.value).value);
                    && w.pdfs(pdfUrl).Some?
                    && exists i :: 0 <= i < |w.pdfs(pdfUrl).value| && !BlankPage(w.pdfs(pdfUrl).value[i])
  {
    var r := RowRun(w, year, row);
    if r.records != [] {
      var link := row.heading.link.value;
      var page := w.details(w.resolve(link.href.value)).value;
      var pdfUrl := w.resolve(PdfHref(page).value);
      var pdf := w.pdfs(pdfUrl);
      assert ExtractedText(pdf) != [];
      PagesTextEmpty(pdf.value);
    }
  }

  // ---------------------------------------------------------------------------
  // One listing page and one year
  // ---------------------------------------------------------------------------

  /** The rows of one page in order, stopping at the first that raises. */
  function RowsRun(w: World, year: nat, rows: seq<Row>): Run
  {
    if rows == [] then Run([], false)
    else
      var first := RowRun(w, year, rows[0]);
      if first.raised then first else Then(first.records, RowsRun(w, year, rows[1..]))
  }

  /** A page the year's loop goes past: fetched, with at least one result row. */
  predicate NonEmptyPage(page: Listing)
  {
    page.Some? && page.value != []
  }

  /** The response to the `k`-th request of a year (a page with no rows past the end). */
  function PageAt(w: World, year: nat, k: nat): Listing
  {
    if k < |w.listings(year)| then w.listings(year)[k] else Some([])
  }

  /** `get_soup(SEARCH_URL, params)` with `'Year': year` and `'start': start`. */
  function Fetch(w: World, year: nat, start: nat): Listing
  {
    PageAt(w, year, start / PageSize)
  }

  /** The year's pages from the `k`-th on: a failed fetch or a page with no rows ends the year,
      a row that raises ends the crawl. */
  function YearRun(w: World, year: nat, k: nat): Run
    decreases |w.listings(year)| - k
  {
    if k >= |w.listings(year)| then Run([], false)
    else
      var page := w.listings(year)[k];
      if !NonEmptyPage(page) then Run([], false)
      else
        var rows := RowsRun(w, year, page.value);
        if rows.raised then rows else Then(rows.records, YearRun(w, year, k + 1))
  }

  /** The number of pages of a year before the first failed or empty one. */
  function LeadingPages(pages: seq<Listing>): (n: nat)
    ensures n <= |pages|
    ensures forall j :: 0 <= j < n ==> NonEmptyPage(pages[j])
    ensures n < |pages| ==> !NonEmptyPage(pages[n])
  {
    if pages == [] || !NonEmptyPage(pages[0]) then 0 else 1 + LeadingPages(pages[1..])
  }

  /** The loop over the rows of one listing page. */
  method ProcessPage(w: World, year: nat, rows: seq<Row>, all: seq<Proposition>)
    returns (all': seq<Proposition>, raised: bool)
    ensures Run(all', raised) == Then(all, RowsRun(w, year, rows))
  {
    all', raised := all, false;
    assert rows[0..] == rows;
    for i := 0 to |rows|
      invariant !raised
      invariant Then(all', RowsRun(w, year, rows[i..])) == Then(all, RowsRun(w, year, rows))
    {
      RowsRunStep(w, year, rows, i);
      ghost var before := all';
      all', raised := ProcessRow(w, year, rows[i], all');
      if raised {
        return;
      }
      ThenAssoc(before, RowRun(w, year, rows[i]).records, RowsRun(w, year, rows[i + 1..]));
    }
    assert rows[|rows|..] == [];
  }

  /** Running the rows from `i` on is running row `i`, then, unless it raised, the rest. */
  lemma RowsRunStep(w: World, year: nat, rows: seq<Row>, i: nat)
    requires i < |rows|
    ensures var first := RowRun(w, year, rows[i]);
            RowsRun(w, year, rows[i..])
            == if first.raised then first else Then(first.records, RowsRun(w, year, rows[i + 1..]))
  {
    assert rows[i..][1..] == rows[i + 1..];
  }

  /** A listing page raises exactly when one of its rows raises; the rows after that one are
      never reached, so nothing of theirs is appended. */
  lemma {:induction false} RowsRunRaised(w: World, year: nat, rows: seq<Row>)
    ensures RowsRun(w, year, rows).raised <==> exists i :: 0 <= i < |rows| && RowRun(w, year, rows[i]).raised
  {
    if rows != [] {
      var first := RowRun(w, year, rows[0]);
      RowsRunRaised(w, year, rows[1..]);
      if first.raised {
        assert 0 < |rows| && RowRun(w, year, rows[0]).raised;
      } else {
        if i :| 0 <= i < |rows[1..]| && RowRun(w, year, rows[1..][i]).raised {
          assert rows[1..][i] == rows[i + 1];
        }
        if i :| 0 <= i < |rows| && RowRun(w, year, rows[i]).raised {
          assert i > 0 && rows[1..][i - 1] == rows[i];
        }
      }
    }
  }

  lemma ThenAssoc(a: seq<Proposition>, b: seq<Proposition>, r: Run)
    ensures Then(a + b, r) == Then(a, Then(b, r))
  {
    assert (a + b) + r.records == a + (b + r.records);
  }

  /** The year's `while True` loop: fetch the page at `start`, process its rows, and advance
      `start` by 10, until a fetch fails or a page has no rows. `requested` lists the values of
      `start` sent, in order. */
  method CrawlYear(w: World, year: nat, all: seq<Proposition>)
    returns (all': seq<Proposition>, raised: bool, start: nat, ghost requested: seq<nat>)
    ensures Run(all', raised) == Then(all, YearRun(w, year, 0))
    ensures forall j :: 0 <= j < |requested| ==> requested[j] == PageSize * j
    ensures !raised ==> |requested| == LeadingPages(w.listings(year)) + 1
    ensures !raised ==> start == PageSize * LeadingPages(w.listings(year))
    ensures raised ==> |requested| <= LeadingPages(w.listings(year))
  {
    var pages := w.listings(year);
    all', raised, start, requested := all, false, 0, [];
    ghost var k: nat := 0;
    while true
      invariant k <= |pages| && start == PageSize * k
      invariant |requested| == k && forall j :: 0 <= j < k ==> requested[j] == PageSize * j
      invariant k <= LeadingPages(pages)
      invariant Then(all', YearRun(w, year, k)) == Then(all, YearRun(w, year, 0))
      invariant !raised
      decreases |pages| - k
    {
      requested := requested + [start];
      assert start / PageSize == k;
      var soup := Fetch(w, year, start);
      assert soup == PageAt(w, year, k);
      if soup.None? {
        break;
      }
      var results := soup.value;
      if results == [] {
        break;
      }
      assert k < |pages| && pages[k] == soup && NonEmptyPage(pages[k]);
      LeadingPagesPast(pages, k);
      ghost var before := all';
      all', raised := ProcessPage(w, year, results, all');
      if raised {
        return;
      }
      ThenAssoc(before, RowsRun(w, year, results).records, YearRun(w, year, k + 1));
      start := start + PageSize;
      k := k + 1;
    }
  }

  /** A non-empty page at or before the end of the leading run is inside it. */
  lemma LeadingPagesPast(pages: seq<Listing>, k: nat)
    requires k <= LeadingPages(pages) && k < |pages| && NonEmptyPage(pages[k])
    ensures k < LeadingPages(pages)
  {
  }

  // ---------------------------------------------------------------------------
  // The whole crawl
  // ---------------------------------------------------------------------------

  /** The years in order, stopping at the first that raises. */
  function CrawlRun(w: World, years: seq<nat>): Run
  {
    if years == [] then Run([], false)
    else
      var first := YearRun(w, years[0], 0);
      if first.raised then first else Then(first.records, CrawlRun(w, years[1..]))
  }

  /** The loop over `YEARS_TO_CRAWL`, growing `all_propositions` from the empty list. */
  method Crawl(w: World) returns (records: seq<Proposition>, raised: bool)
    ensures Run(records, raised) == CrawlRun(w, Years)
  {
    records, raised := [], false;
    var years := Years;
    assert years[0..] == years;
    for i := 0 to |years|
      invariant !raised
      invariant Then(records, CrawlRun(w, years[i..])) == CrawlRun(w, years)
    {
      CrawlRunStep(w, years, i);
      ghost var before := records;
      var start;
      ghost var requested;
      records, raised, start, requested := CrawlYear(w, years[i], records);
      if raised {
        return;
      }
      ThenAssoc(before, YearRun(w, years[i], 0).records, CrawlRun(w, years[i + 1..]));
    }
    assert years[|years|..] == [];
  }

  /** Crawling the years from `i` on is crawling year `i`, then, unless it raised, the rest. */
  lemma CrawlRunStep(w: World, years: seq<nat>, i: nat)
    requires i < |years|
    ensures var first := YearRun(w, years[i], 0);
            CrawlRun(w, years[i..])
            == if first.raised then first else Then(first.records, CrawlRun(w, years[i + 1..]))
  {
    assert years[i..][1..] == years[i + 1..];
  }


  /** How a run of `main()` ends: with the exception a row raised (nothing is written), with
      the message that nothing was extracted (nothing is written), or by writing the records. */
  datatype Export = Aborted | NothingSaved | Saved(rows: seq<Proposition>)

  /** `main()`: the crawl, then the export of what it collected. */
  method RunCrawler(w: World) returns (result: Export)
    ensures result.Aborted? <==> CrawlRun(w, Years).raised
    ensures result.NothingSaved? <==> !CrawlRun(w, Years).raised && CrawlRun(w, Years).records == []
    ensures result.Saved? ==> result.rows == CrawlRun(w, Years).records && result.rows != []
  {
    var records, raised := Crawl(w);
    if raised {
      return Aborted;
    }
    if records == [] {
      return NothingSaved;
    }
    return Saved(records);
  }

  // ---------------------------------------------------------------------------
  // What every exported record says
  // ---------------------------------------------------------------------------

  /** The citation of a case listed under `year`: a well-formed citation or the placeholder. */
  predicate CitationOfYear(c: string, year: nat)
  {
    IsCitation(c) || c == UnknownPrefix + DecimalString(year)
  }

  /** The field rules every record of a case listed under `year` obeys. */
  ghost predicate WellFormedRecord(r: Proposition, year: nat)
  {
    && r.docId == DocId(r.citation)
    && CitationOfYear(r.citation, year)
    && Trimmed(r.proposition)
    && PatternIndex(r.patternMatched) < |Patterns|
  }

  lemma RowRecordsWellFormed(w: World, year: nat, row: Row)
    ensures forall r :: r in RowRun(w, year, row).records ==> WellFormedRecord(r, year)
  {
    var run := RowRun(w, year, row);
    if run.records != [] {
      var link := row.heading.link.value;
      var citation := CaseCitation(row.metadata.value, year);
      var page := w.details(w.resolve(link.href.value)).value;
      var pdfUrl := w.resolve(PdfHref(page).value);
      var text := ExtractedText(w.pdfs(pdfUrl));
      var c := Case(link.title, citation, pdfUrl);
      assert run.records == CaseRecords(c, text, w.sentenceMatches);
      CaseRecordFields(c, text, w.sentenceMatches);
    }
  }

  lemma {:induction false} RowsRecordsWellFormed(w: World, year: nat, rows: seq<Row>)
    ensures forall r :: r in RowsRun(w, year, rows).records ==> WellFormedRecord(r, year)
  {
    if rows != [] {
      RowRecordsWellFormed(w, year, rows[0]);
      RowsRecordsWellFormed(w, year, rows[1..]);
    }
  }

  lemma {:induction false} YearRecordsWellFormed(w: World, year: nat, k: nat)
    ensures forall r :: r in YearRun(w, year, k).records ==> WellFormedRecord(r, year)
    decreases |w.listings(year)| - k
  {
    if k < |w.listings(year)| && NonEmptyPage(w.listings(year)[k]) {
      RowsRecordsWellFormed(w, year, w.listings(year)[k].value);
      YearRecordsWellFormed(w, year, k + 1);
    }
  }

  /** Every record the crawl collects has a `doc_id` derived from its citation, a citation that
      is well-formed or the placeholder of one of the crawled years, a stripped proposition and
      the name of a pattern of `PATTERNS`. */
  lemma {:induction false} CrawlRecordsWellFormed(w: World, years: seq<nat>)
    ensures forall r :: r in CrawlRun(w, years).records ==>
              exists i :: 0 <= i < |years| && WellFormedRecord(r, years[i])
  {
    if years != [] {
      YearRecordsWellFormed(w, years[0], 0);
      CrawlRecordsWellFormed(w, years[1..]);
      forall r | r in CrawlRun(w, years).records
        ensures exists i :: 0 <= i < |years| && WellFormedRecord(r, years[i])
      {
        var first := YearRun(w, years[0], 0);
        if r !in first.records {
          var i :| 0 <= i < |years[1..]| && WellFormedRecord(r, years[1..][i]);
          assert years[1..][i] == years[i + 1];
        }
      }
    }
  }

  /** A well-formed citation gives the `YYYY_NZSC_N` `doc_id`; the placeholder is its own. */
  lemma WellFormedDocId(r: Proposition, year: nat)
    requires WellFormedRecord(r, year)
    ensures IsCitation(r.citation) ==> r.docId == r.citation[1..5] + "_NZSC_" + r.citation[12..]
    ensures !IsCitation(r.citation) ==> r.docId == r.citation == UnknownPrefix + DecimalString(year)
  {
    if IsCitation(r.citation) {
      CitationDocId(r.citation);
    } else {
      UnknownCitationDocId(year);
    }
  }

  // ---------------------------------------------------------------------------
  // Cases without text
  // ---------------------------------------------------------------------------

  /** No PDF yields any text: every PDF fails or has only blank pages. */
  ghost predicate NoPdfText(w: World)
  {
    forall url :: w.pdfs(url).None? || forall i :: 0 <= i < |w.pdfs(url).value| ==> BlankPage(w.pdfs(url).value[i])
  }

  lemma RowNoText(w: World, year: nat, row: Row)
    requires NoPdfText(w)
    ensures RowRun(w, year, row).records == []
  {
    RowSkipRules(w, year, row);
  }

  lemma {:induction false} RowsNoText(w: World, year: nat, rows: seq<Row>)
    requires NoPdfText(w)
    ensures RowsRun(w, year, rows).records == []
  {
    if rows != [] {
      RowNoText(w, year, rows[0]);
      RowsNoText(w, year, rows[1..]);
    }
  }

  lemma {:induction false} YearNoText(w: World, year: nat, k: nat)
    requires NoPdfText(w)
    ensures YearRun(w, year, k).records == []
    decreases |w.listings(year)| - k
  {
    if k < |w.listings(year)| && NonEmptyPage(w.listings(year)[k]) {
      RowsNoText(w, year, w.listings(year)[k].value);
      YearNoText(w, year, k + 1);
    }
  }

  /** When no PDF yields text, the crawl collects nothing, and so writes nothing. */
  lemma {:induction false} CrawlNoText(w: World, years: seq<nat>)
    requires NoPdfText(w)
    ensures CrawlRun(w, years).records == []
  {
    if years != [] {
      YearNoText(w, years[0], 0);
      CrawlNoText(w, years[1..]);
    }
  }
}
