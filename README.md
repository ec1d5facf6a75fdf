# NZ Supreme Court proposition crawler — a Dafny model

`NZ_crawler.py` pages through the judgment listings of the New Zealand Supreme Court year by
year. For each listed case it reads the citation from the row's metadata, fetches the case
page, finds the judgment PDF and extracts its text. It then collects one record per match of a
small table of legal-phrase patterns (`PATTERNS`) and exports the records to CSV and Excel.

This project models the deterministic core of that program and proves what it does:

- `PyStr` covers the Python string operations the core relies on: `str.strip` with Python's
  whitespace set, one-character `str.replace`, `f"{year}"`, and the ASCII digit and case tests.
- `Citation` models `re.search(r'\[\d{4}\] NZSC \d+', ...)`, the `UNKNOWN_CITATION_<year>`
  fallback and the `doc_id` derived from the citation.
- `LineRegex` models what `re.finditer` does with a line pattern `[^\n]*PHRASE[^\n]*`:
  - `FindIter` follows the regular-expression engine position by position.
  - `LineMatches` states the result line by line.
  - `FindIterIsLineFilter` proves the two agree on every text.
- `PdfText` models the page loop of `extract_text_from_pdf`.
- `Propositions` holds the `PATTERNS` table, the record built for each match, and the two
  nested loops that append records to `all_propositions`.
- `Crawler` models `main()`: the loop over the years, the paginated `while True` loop of each
  year, the rules that skip or abort on a result row, and the final export decision.

Everything `main()` reads from the network is an input, the `World`:

- the listing responses of each year;
- the case pages;
- the PDFs, as the text of each page;
- URL resolution;
- the matches of the one sentence pattern that is not modelled.

A row whose processing raises an exception in the program ends the model's run as `raised`.
No file is written in that case.

Four details of the code shape the model:

- **Page text.** A page separator is not inserted between pages. Instead, each page with
  non-empty text contributes its text followed by `"\n"`. Blank pages add nothing, and a
  non-empty result always ends with a newline (`PagesTextEndsWithNewline`).
- **Missing heading.** A row without an `h3` is not silently skipped. `result.find('h3').find('a')`
  raises there, and so does `case_title_tag['href']` on a link without `href`. Both end the
  run with an exception. Only a missing link inside an `h3`, or missing metadata, is skipped.
- **The `(i)` pattern.** The pattern for "The applicable test is" begins with `(i)`. In
  Python's `re` this is an ordinary capturing group that matches one lowercase `i`, and the
  pattern is case-sensitive. The model reproduces exactly that: the match starts at the
  line's first `i`, when the exact phrase follows it later on the same line
  (`ApplicableTestLineMatch`).
- **PDF links.** The PDF link test `\.pdf$` is a search in which `$` also matches before a
  final newline. An `href` ending in `.pdf` followed by one newline is therefore accepted too.

## Model

| member | source | states |
|---|---|---|
| `PyStr.Strip` | NZ_crawler.py:128 | the stripped proposition is a slice of the match with only whitespace cut from each end, and neither of its ends is whitespace |
| `PyStr.StripTrimmed` | NZ_crawler.py:128 | stripping an already trimmed text changes nothing |
| `PyStr.DecimalString` | NZ_crawler.py:99 | the year in `UNKNOWN_CITATION_{year}` is written as at least one decimal digit with no leading zero |
| `PyStr.DecimalRoundTrip` | NZ_crawler.py:99 | reading the formatted year back as a decimal number gives the year |
| `PyStr.RemoveAll` | NZ_crawler.py:125 | `replace(c, '')` leaves no `c` and keeps every other character that occurred |
| `PyStr.ReplaceAll` | NZ_crawler.py:125 | `replace(a, b)` keeps the length and changes exactly the occurrences of `a` into `b` |
| `PyStr.Fold` | NZ_crawler.py:17-21 | the `(?i)` flag folds an ASCII upper-case letter to its lower-case letter and leaves every other character alone |
| `PyStr.NewlineMatchesOnlyNewline` | NZ_crawler.py:17-21 | with or without case folding, only a newline matches a newline, so `[^\n]*` and the phrase never cross a line |
| `Citation.LeftmostCitation` | NZ_crawler.py:98 | the index found is a place where `\[\d{4}\] NZSC \d` matches, with no match before it; `None` when there is no match from the start index on |
| `Citation.DigitRunEnd` | NZ_crawler.py:98 | the greedy `\d+`: the run from the start index holds only digits and stops at the text's end or at a non-digit |
| `Citation.SearchCitation` | NZ_crawler.py:98 | `re.search` finds nothing exactly when the pattern matches nowhere; otherwise the result is a well-formed citation, is the text at the leftmost match, and its greedy digit run is not followed by a further digit |
| `Citation.CaseCitation` | NZ_crawler.py:98-99 | the citation is the searched citation when there is one, and exactly `UNKNOWN_CITATION_<year>` otherwise |
| `Citation.DocId` | NZ_crawler.py:125 | a `doc_id` contains no `[`, no `]` and no space |
| `Citation.DocIdIsCharwise` | NZ_crawler.py:125 | the three chained replacements equal one pass that drops each bracket and turns each space into `_` |
| `Citation.CitationDocId` | NZ_crawler.py:125 | a citation `[YYYY] NZSC N` gets the `doc_id` `YYYY_NZSC_N` |
| `Citation.UnknownCitationDocId` | NZ_crawler.py:125 | the placeholder citation is its own `doc_id` |
| `Citation.CaseDocId` | NZ_crawler.py:98-125 | every case citation is either well-formed with the `YYYY_NZSC_N` `doc_id`, or the placeholder with itself as `doc_id` |
| `LineRegex.LineEnd` | NZ_crawler.py:17-21 | the end of the line holding an index is the first newline at or after it, or the end of the text |
| `LineRegex.MatchesAt` | NZ_crawler.py:17-21 | the pattern matches at an index: the lead character there when the pattern has one, then some run of non-newlines, then the phrase (the trailing `[^\n]*` always matches) |
| `LineRegex.ScanFrom` | NZ_crawler.py:122 | the regular-expression engine from an index: at the first index where the lead, the leading `[^\n]*`, the phrase and the trailing `[^\n]*` match, it reports the text from there to the end of the line and resumes at that line end; otherwise it tries the next index |
| `LineRegex.FindIter` | NZ_crawler.py:122 | `re.finditer(regex, document_text)` for a line pattern: the engine run from index 0 |
| `LineRegex.MatchEndsLater` | NZ_crawler.py:122 | a match of a line pattern is never empty, so `finditer` always moves forward |
| `LineRegex.LinesFrom` | NZ_crawler.py:121-123 | splitting a text on newlines gives at least one line |
| `LineRegex.LinesHaveNoNewline` | NZ_crawler.py:121-123 | no line of a text holds a newline |
| `LineRegex.JoinLines` | NZ_crawler.py:121-123 | joining the lines back with newlines gives the text |
| `LineRegex.ContainsIff` | NZ_crawler.py:17-21 | the phrase test on a line holds exactly when the phrase matches at some index of the line |
| `LineRegex.ContainsSlice` | NZ_crawler.py:17-21 | the phrase occurs in a slice exactly when it occurs in the text within the slice's bounds |
| `LineRegex.FirstIndexFrom` | NZ_crawler.py:20 | the index found holds the lead character and no earlier index does; `None` when no index does |
| `LineRegex.LineMatch` | NZ_crawler.py:17-21 | the match one line yields: without a lead, the whole line when it contains the phrase; with a lead, the line from its first lead character when the phrase occurs after that character; otherwise none |
| `LineRegex.MatchLines` | NZ_crawler.py:122 | each line's match, in line order, lines without a match contributing nothing |
| `LineRegex.LineMatches` | NZ_crawler.py:122 | the matches of a line pattern in a text, taken line by line over its split on newlines |
| `LineRegex.FindIterIsLineFilter` | NZ_crawler.py:121-123 | `re.finditer` with a line pattern yields, in text order, exactly one match per line the pattern matches on, as `LineMatch` gives it |
| `LineRegex.WholeLineMembers` | NZ_crawler.py:17-21 | without a lead group, the matches are exactly the lines that contain the phrase |
| `LineRegex.LeadLineMatch` | NZ_crawler.py:20 | with a lead character, a line matches exactly when the lead character is followed later on the line by the phrase; the match runs from the line's first lead character to the end of the line |
| `PdfText.ExtractText` | NZ_crawler.py:54-60 | the loop's text is the concatenation, in page order, of each non-empty page's text followed by a newline; a failed download or decode gives the empty text |
| `PdfText.ExtractedText` | NZ_crawler.py:41-63 | the result of `extract_text_from_pdf`: the pages' text, or `""` when the download or the PDF fails |
| `PdfText.PagesText` | NZ_crawler.py:54-60 | the reference text of the pages: the text so far followed by the last page's text and a newline, or by nothing when that page gives no text |
| `PdfText.PagesTextAppend` | NZ_crawler.py:54-60 | the text of two runs of pages is the two texts joined |
| `PdfText.PagesTextEmpty` | NZ_crawler.py:54-60 | the text is empty exactly when every page is missing or empty |
| `PdfText.PagesTextEndsWithNewline` | NZ_crawler.py:59 | a non-empty text ends with a newline |
| `Propositions.ProcessCase` | NZ_crawler.py:121-132 | the records of one case are appended to the list, which keeps its earlier records unchanged in front |
| `Propositions.Patterns` | NZ_crawler.py:15-22 | the six named patterns in declaration order: the sentence pattern (an input of the model), then the five line patterns |
| `Propositions.LeadingCase` | NZ_crawler.py:17 | `(?i)[^\n]*The leading case[^\n]*`: no lead, case-insensitive |
| `Propositions.LeadingAuthority` | NZ_crawler.py:18 | `(?i)[^\n]*The leading authority[^\n]*`: no lead, case-insensitive |
| `Propositions.IssueHere` | NZ_crawler.py:19 | `(?i)[^\n]*The issue here is whether[^\n]*`: no lead, case-insensitive |
| `Propositions.ApplicableTest` | NZ_crawler.py:20 | `(i)[^\n]*The applicable test is[^\n]*`: lead `i`, case-sensitive |
| `Propositions.ApplicableThreshold` | NZ_crawler.py:21 | `(?i)[^\n]*The applicable threshold is[^\n]*`: no lead, case-insensitive |
| `Propositions.Matches` | NZ_crawler.py:122 | `re.finditer(regex, document_text)` for one named pattern: the line view of a line pattern, the given matches for the sentence pattern |
| `Propositions.MatchRecords` | NZ_crawler.py:123-132 | the reference records of one pattern: one record per match, in match order |
| `Propositions.PatternRecords` | NZ_crawler.py:121-132 | the reference records of a run of patterns: each pattern's records after those of the patterns before it |
| `Propositions.CaseRecords` | NZ_crawler.py:121-132 | the reference records of one case: the pattern records over the whole `PATTERNS` table |
| `Propositions.Record` | NZ_crawler.py:124-131 | the record dictionary of one match: the doc_id derived from the citation, the title, the PDF URL, the stripped match, the citation and the pattern's key |
| `Propositions.AppendPatterns` | NZ_crawler.py:121-132 | the loop over the pattern table appends the records of each pattern in table order |
| `Propositions.AppendMatches` | NZ_crawler.py:123-132 | the loop over one pattern's matches appends one record per match, in match order |
| `Propositions.PatternIndex` | NZ_crawler.py:15-22 | the index found names a pattern of the table with that name |
| `Propositions.PatternNamesDistinct` | NZ_crawler.py:15-22 | the six names of `PATTERNS` are distinct, so each names exactly one pattern |
| `Propositions.MatchRecordsOf` | NZ_crawler.py:124-131 | each record built from a pattern's matches carries the case's fields, a stripped match of that pattern, and that pattern's name |
| `Propositions.CaseRecordFields` | NZ_crawler.py:124-131 | every record of a case has the `doc_id` of the case citation, the case's title, PDF URL and citation, and a proposition that is a stripped match of the pattern it names |
| `Propositions.CaseRecordsGrouped` | NZ_crawler.py:121-132 | a case's records come grouped by pattern, the groups in the table's declaration order |
| `Propositions.PatternRecordsCount` | NZ_crawler.py:121-132 | a case yields as many records as its patterns have matches in all |
| `Propositions.CaseRecordsCount` | NZ_crawler.py:121-132 | a case yields one record per match of each of the six patterns of `PATTERNS`, and no other |
| `Propositions.MatchRecordsLength` | NZ_crawler.py:123-132 | one record per match |
| `Propositions.LinePatternsWellFormed` | NZ_crawler.py:17-21 | four line patterns are case-insensitive with no lead group; the fifth has the lead `i` and is case-sensitive |
| `Propositions.CaseInsensitiveLineMatches` | NZ_crawler.py:17-21 | for each `(?i)` line pattern, the matches are what `re.finditer` yields, and they are exactly the lines that contain the phrase in any ASCII letter case |
| `Propositions.ExactPhraseAt` | NZ_crawler.py:20 | case-sensitive phrase matching is equality of the slice with the phrase |
| `Propositions.ApplicableTestLineMatch` | NZ_crawler.py:20 | a line matches "The applicable test is" exactly when a lowercase `i` is followed later on the line by the exact phrase; the match runs from the line's first `i` to the end of the line |
| `Propositions.ApplicableTestMatches` | NZ_crawler.py:20 | the matches of that pattern are what `re.finditer` yields, taken line by line |
| `Crawler.PdfHref` | NZ_crawler.py:107-112 | the PDF link is the first link whose `href` ends in `.pdf` (or `.pdf` and a final newline); there is none exactly when no link's `href` does |
| `Crawler.EndsWithPdf` | NZ_crawler.py:107 | `\.pdf$` searched in an `href`: it ends in `.pdf`, or in `.pdf` followed by one final newline |
| `Crawler.ProcessRow` | NZ_crawler.py:89-132 | one result row appends exactly what `RowRun` says, or raises |
| `Crawler.RowRun` | NZ_crawler.py:89-132 | the reference outcome of one result row: raise without an `h3` or on a link without `href`; add nothing without link or metadata, when the case page or the PDF link is missing, or when the PDF gives no text; otherwise append the case's records |
| `Crawler.RowSkipRules` | NZ_crawler.py:89-119 | a row raises exactly when it has no `h3`, or has a link without `href` next to its metadata; a row adds records only when it has a link and metadata, its case page was fetched, the page has a PDF link and some PDF page has text |
| `Crawler.ProcessPage` | NZ_crawler.py:88-135 | the rows of a listing page are processed in order, stopping at the first that raises |
| `Crawler.RowsRun` | NZ_crawler.py:88-132 | the reference outcome of a listing page: the rows' records in row order, stopping at the first row that raises (which adds none) |
| `Crawler.RowsRunRaised` | NZ_crawler.py:88-132 | a listing page raises exactly when one of its rows raises |
| `Crawler.LeadingPages` | NZ_crawler.py:73-86 | the count of leading pages that were fetched and have rows; the page after them failed or has no rows |
| `Crawler.PageAt` | NZ_crawler.py:75-76 | the response to a year's `k`-th listing request: the given page, or a page with no rows past the given ones |
| `Crawler.Fetch` | NZ_crawler.py:75-76 | `get_soup(SEARCH_URL, params)` for a year and a `start` offset: the page numbered `start / 10` |
| `Crawler.CrawlYear` | NZ_crawler.py:72-137 | one year's pages are processed in order until a fetch fails or a page has no rows; the offsets requested are 0, 10, 20, … in order, one more than the pages with rows, and the final offset is 10 times the number of those pages |
| `Crawler.YearRun` | NZ_crawler.py:72-137 | the reference outcome of one year: page after page from the first, stopping at a failed fetch or a page without rows, or when a row raises |
| `Crawler.Crawl` | NZ_crawler.py:68-137 | the years are crawled in order from an empty list, stopping at the first row that raises |
| `Crawler.Years` | NZ_crawler.py:12 | `range(2004, 2026)`: the years 2004 to 2025 in order |
| `Crawler.CrawlRun` | NZ_crawler.py:70-137 | the reference outcome of the crawl: the years in order, each year's records after the previous ones, stopping when a year raises |
| `Crawler.RunCrawler` | NZ_crawler.py:139-148 | a run that raised writes nothing; one that collected nothing writes nothing; otherwise exactly the collected records are written |
| `Crawler.RowRecordsWellFormed` | NZ_crawler.py:98-131 | every record of a row has a well-formed or placeholder citation for its year, the `doc_id` of that citation, a stripped proposition and a pattern name from the table |
| `Crawler.YearRecordsWellFormed` | NZ_crawler.py:72-137 | the same holds of every record collected for a year |
| `Crawler.CrawlRecordsWellFormed` | NZ_crawler.py:68-137 | every record the crawl collects satisfies the field rules for one of the crawled years |
| `Crawler.WellFormedDocId` | NZ_crawler.py:98-125 | a record's `doc_id` is `YYYY_NZSC_N` for a well-formed citation, and is the placeholder itself otherwise |
| `Crawler.RowNoText` | NZ_crawler.py:115-119 | when no PDF yields text, a row adds no records |
| `Crawler.CrawlNoText` | NZ_crawler.py:115-143 | when no PDF yields text, the crawl collects nothing, so nothing is written |

## Left out

- HTTP fetching (`get_soup`, the User-Agent header, timeouts, status checks) is not modelled. A listing or a case page is an `Option` input of the `World`.
- HTML parsing with BeautifulSoup is not modelled. A result row is given as its heading, its link's stripped text and `href`, and its metadata text. A case page is given as the `href`s of its links.
- The PDF download, the scratch file and `pdfplumber` are not modelled. A PDF is the text of each page, or `None` when any step fails. An exception raised while extracting a single page makes the whole PDF `None`, as the program's `except` does.
- `urljoin(BASE_URL, ...)` is not modelled. It is the `World`'s `resolve` function.
- The pandas export to CSV and Excel is left out. `RunCrawler` says only whether and which records would be written.
- `time.sleep(1)` and all printed messages are left out, since they have no effect on the records.
- The "The question is whether" pattern at `NZ_crawler.py:16` is not modelled by the regular-expression engine. Its bounded repeated prefix and lazy tail make that out of proportion. Its matches are an input (`World.sentenceMatches`), so no property of them is proved, not even that each ends in `.`, `!` or `?`.
- The listing of a year is finite in the model. Past the last given response, every request is answered with a page without rows. A site that returned rows for every offset would make the program loop forever; that case is not modelled.
- Exceptions other than the missing `h3` and the missing `href` are not modelled. Examples are an exception inside BeautifulSoup or a `requests` exception that is not a `RequestException`.
- `PyStr.Fold`: `(?i)` is modelled as ASCII case folding only. Python also equates some non-ASCII letters (for example `ſ` with `s`, and `K` with the Kelvin sign), and those equivalences are not modelled.
- `Citation.SearchCitation`: `\d` is modelled as the ASCII digits `0`–`9`. Python's `str` patterns also accept every other Unicode decimal digit there.
