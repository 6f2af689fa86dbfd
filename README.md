# PubMed article fetcher: a verified model of its core

The repository is one Python script. Its function `fetch_articles(term, email, years=5, max_results=100)`
asks NCBI's E-utilities for PubMed articles that match a term. The search is limited to a
publication-date window that reaches back `years` years from the current year. The function
keeps the search on the server (WebEnv/QueryKey), pages through the summaries `max_results`
at a time, turns each article summary into one row, and writes the rows to `articles.csv`.

This Dafny project models the logic of that function with the I/O lifted out:

- **Query** (`query.dfy`): the date window `"{start}/01/01:{current}/12/31"` with
  `start = current - years`, and the search expression `"{term} AND ({window}[Date - Publication])"`.
  `ParseSearchTerm` is proved to be the inverse of `SearchTerm`: for any term it gives back the
  term, `current - years` and `current`. The fixed parameters of the initial search request are
  modelled too.
- **Pagination** (`pagination.dfy`): Python's `range(start, stop, step)`. A zero step is the
  `ValueError`, a negative step counts down. The offsets of `range(0, total, pageSize)` are proved
  to be exactly the multiples of `pageSize` below `total`. There are ⌈total/pageSize⌉ of them,
  they rise by exactly `pageSize`, and the last one lies within one page of `total`.
- **Records** (`records.dfy`): an `Article` is a decoded `DocSum` with a title, an ordered author
  list, a publication date and an optional ELocationID. A `Record` is an output row with the
  columns Title, Authors, Publication Date, DOI and Citation. A missing ELocationID becomes
  `"N/A"`. The citation has the form `"{authors} ({date}). {title}. DOI: {doi}"`. The Authors
  column is the names joined with `", "`. It reads back as the author list when the list is not
  empty and no name holds a comma. `AppendPage` only appends.
- **Fetch** (`fetch.dfy`): the page loop is a method, `FetchPages`. It is proved against a
  recursive specification, `FetchOver`, and it returns the requests it sent and the
  "fetched so far" figure after each page. `FetchArticles` adds the search and the range
  step. The search and the page fetches are providers passed in as functions that return a
  result or an error, and any error ends the run. Against a server whose pages hold what its
  count promises, the run yields exactly `count` rows, and the last progress figure is `count`.

## Model

| member | source | states |
|---|---|---|
| Query.IntToStringRoundTrip | testt.py:13 | the decimal rendering of a year that the f-string uses reads back as the same integer, negative years included |
| Query.DateRangeRoundTrip | testt.py:11-13 | the date window reads back as exactly the pair (current_year - years, current_year) |
| Query.SearchTermRoundTrip | testt.py:17 | the search expression reads back as the original term (whatever it contains) and both years of the window |
| Query.SearchRequestFor | testt.py:15-21 | the initial search asks db "pubmed" for 1 result with history "y" and the caller's email; its term is exactly `SearchTerm(term, current_year, years)` and parses back to the user term and the window |
| Query.DateRange | testt.py:12-13 | the definition of the window text; DateRangeRoundTrip, ParseDateRangeExact and ExampleDateRange are the lemmas about it |
| Query.SearchTerm | testt.py:17 | the definition of the search expression; SearchTermRoundTrip and ParseSearchTermExact are the lemmas about it |
| Query.ParseIntExact | testt.py:13 | the only spelling of an integer that reads back is the one the f-string prints (no leading zeros, no "-0") |
| Query.ParseDateRangeExact | testt.py:13 | a string that reads back as a window (a, b) is exactly the window text built for current year b and b - a years |
| Query.ParseSearchTermExact | testt.py:17 | a string that reads back as (term, start, current) is exactly the search expression built from that term and window, so the expression determines its inputs and they determine it |
| Query.ExampleDateRange | testt.py:12-13 | a five-year lookback from 2024 gives "2019/01/01:2024/12/31" |
| Pagination.PyRange | testt.py:38 | `range` fails exactly when the step is zero, and is empty when the step points away from the stop |
| Pagination.RangeFromCount | testt.py:38 | n offsets cover the span and n - 1 do not: (n-1)·step < stop - start <= n·step |
| Pagination.RangeFromShape | testt.py:38 | there are ⌈(stop - start)/step⌉ offsets and the k-th is start + k·step |
| Pagination.RangeFromMembers | testt.py:38 | an offset is visited if and only if it lies in [start, stop) at a whole number of steps from start |
| Pagination.RangeFromSteps | testt.py:38-45 | the first offset is start and consecutive offsets differ by exactly one page, so page windows neither overlap nor leave gaps |
| Pagination.RangeFromLast | testt.py:38 | the last offset is below stop and one more page reaches stop |
| Pagination.PageOffsets | testt.py:38 | for a positive page size, the offsets are exactly the multiples of the page size below total, there are ⌈total/pageSize⌉ of them, they rise by pageSize, and the last is within one page of total |
| Pagination.ExampleOffsets | testt.py:38 | 250 results in pages of 100 are fetched at offsets 0, 100, 200 |
| Records.ToRecord | testt.py:58-80 | the row copies title and publication date, its Authors column is the author names joined with ", ", it takes the ELocationID text unchanged or "N/A" when absent, and its citation agrees with its other four columns |
| Records.Join | testt.py:60-75 | the definition of Python's `", ".join`; AuthorsRoundTrip, NoAuthors and ExampleAuthors are the lemmas about it |
| Records.Citation | testt.py:70 | the definition of the citation format; CitationEndsWithDoi and ExampleCitation are the lemmas about it |
| Records.AuthorsRoundTrip | testt.py:60-75 | the comma-space joined Authors column splits back into the author list in listed order (for non-empty lists of comma-free names) |
| Records.RecordAuthorsRoundTrip | testt.py:60-75 | the Authors column of a built row splits back into the article's author list, in listed order (for non-empty lists of comma-free names) |
| Records.NoAuthors | testt.py:60-75 | an empty author list gives an empty Authors column and a citation that starts with " (" |
| Records.CitationEndsWithDoi | testt.py:65-70 | the citation ends with ". DOI: " and the DOI column; without ELocationID it ends with "DOI: N/A", and with one it ends with that text |
| Records.ExampleCitation | testt.py:70 | Silva J and Souza A, "2021 Jan", "Memory Study", "10.1/xyz" give "Silva J, Souza A (2021 Jan). Memory Study. DOI: 10.1/xyz" |
| Records.RecordsOf | testt.py:58-80 | one row per article of the page, in document order |
| Records.AppendPage | testt.py:58-80 | after a page the list is its old contents followed by one row per article of the page, in document order |
| Fetch.FetchRun | testt.py:24-38 | a failed search ends the run with its error; a zero page size ends it with range's error; a negative page size fetches nothing |
| Fetch.PageRequestAt | testt.py:40-48 | the definition of one summary request; FetchPages and FetchArticles state that the requests sent are these, one per offset in order |
| Fetch.Progress | testt.py:83 | the definition of the progress figure start + len(articles); ConsistentProgress and ConsistentPages are the lemmas about it |
| Fetch.FetchOver | testt.py:38-80 | the recursive definition of the page loop's outcome; FetchPages is proved against it, and FetchOverSucceedsIff, FetchOverAppend, FetchOverLength and ConsistentFetchFrom are the lemmas about it |
| Fetch.FetchPages | testt.py:37-83 | the loop yields the rows of every page in page order, or the first page's error; it sends one request per offset in order and stops at the first failure, whose error it returns; after each page that came back the progress figure is start + len(articles) |
| Fetch.FetchArticles | testt.py:7-86 | the whole run equals FetchRun; with a failed search or a zero page size no page is requested; otherwise the requests and progress figures are those of the page loop over range(0, count, max_results), including the failed last request; against a server that keeps to its count the run yields count rows over ⌈count/max_results⌉ requests, the progress after the page at o is min(o + max_results, count), and the last progress figure is count |
| Fetch.ConsistentPages | testt.py:38-83 | against a server that keeps to its count, the page loop over range(0, count, pageSize) succeeds with count rows, sends ⌈count/pageSize⌉ requests, and reports min(o + pageSize, count) after the page at o, ending at count |
| Fetch.RunWithPositivePageSize | testt.py:24-38 | with a successful search and a positive page size the run is the page loop over ⌈count/max_results⌉ offsets k·max_results |
| Fetch.FetchOverSucceedsIff | testt.py:50-56 | the run succeeds if and only if every page request succeeds, so one failing page aborts everything |
| Fetch.FetchOverAppend | testt.py:37-80 | rows from a later stretch of pages come after, and leave untouched, the rows of an earlier stretch |
| Fetch.FetchOverLength | testt.py:58-80 | a successful run has as many rows as there are articles over all pages |
| Fetch.ConsistentFetchFrom | testt.py:38-80 | against a server whose pages hold min(pageSize, count - start) articles, the pages from start on give count - start rows |
| Fetch.RunDeliversCount | testt.py:32-80 | against such a server a run with a positive page size succeeds with exactly Count rows |
| Fetch.ConsistentProgress | testt.py:83 | against such a server the progress after the page at offset o is min(o + pageSize, count), and after the last page it is count |

## Left out

- HTTP transport (`requests.get`, `raise_for_status`) is not modelled. The search and the page fetch are providers passed in as functions, and their errors appear as `Fetch.Error` values.
- XML decoding with ElementTree is not modelled. The search provider returns WebEnv, QueryKey and Count already decoded, and the page provider returns decoded `Article` values. A missing required element is one of the provider's errors.
- `int()` applied to the Count text is not modelled: `SearchSession.count` is a natural number.
- An empty XML element has `.text` equal to `None`. Python would then render "None" inside the citation, or raise in `join` for an author. The model assumes the text is always present.
- `datetime.now()` is not modelled: the current year is a parameter.
- The DataFrame, the CSV file (`articles.csv`) and the returned table are not modelled. The run ends with the list of rows.
- The `print` calls are not modelled. Only the progress figure `start + len(articles)` is kept, as an output of `FetchPages`.
- The top-level call with literal arguments at the end of the script is not modelled.
- Records.AuthorsRoundTrip: holds only for non-empty author lists of names without a comma. A name holding ", " cannot be told apart from two names once joined, and an empty list joins to the same "" as a list holding one empty name.
