/** The fetch loop of `fetch_articles`: one initial search that returns a
    session on the server (WebEnv, QueryKey, Count), then one summary request
    per page offset, each page turned into rows and appended to one list.

    The network and the XML decoding are providers passed in as functions: the
    search provider answers a `SearchRequest` with a session or an error, the
    page provider answers a `PageRequest` with the decoded articles of that
    page or an error. Any error ends the whole run. */
module Fetch {
  import opened Wrappers
  import opened Query
  import opened Pagination
  import opened Records

  datatype Error =
    | HttpError(status: int)          // a non-success HTTP status
    | MalformedResponse(detail: string) // a required XML element is missing
    | InvalidPageSize                 // `range` refuses a zero step

  /** What the initial search leaves on the server: the two session tokens and
      the total number of matching articles. */
  datatype SearchSession = SearchSession(webEnv: string, queryKey: string, count: nat)

  /** Query parameters of one summary request (`esummary`). */
  datatype PageRequest = PageRequest(
    db: string, queryKey: string, webEnv: string,
    retstart: int, retmax: int, retmode: string, email: string)

  const SummaryFormat := "xml"

  /** The request for the page that starts at `start`. */
  function PageRequestAt(session: SearchSession, pageSize: int, email: string, start: int): PageRequest {
    PageRequest(Database, session.queryKey, session.webEnv, start, pageSize, SummaryFormat, email)
  }

  /** The requests for the given offsets, in order. */
  function Requests(session: SearchSession, pageSize: int, email: string, offsets: seq<int>): seq<PageRequest> {
    seq(|offsets|, k requires 0 <= k < |offsets| => PageRequestAt(session, pageSize, email, offsets[k]))
  }

  /** The "fetched so far" figure reported after a page: `start + len(articles)`. */
  function Progress(start: int, page: seq<Article>): int {
    start + |page|
  }

  /** Rows `rows` followed by the outcome of the rest of the run. */
  function Prepend(rows: seq<Record>, rest: Result<seq<Record>, Error>): Result<seq<Record>, Error> {
    match rest
    case Success(more) => Success(rows + more)
    case Failure(e) => Failure(e)
  }

  lemma PrependAssoc(front: seq<Record>, middle: seq<Record>, rest: Result<seq<Record>, Error>)
    ensures Prepend(front, Prepend(middle, rest)) == Prepend(front + middle, rest)
  {
    if rest.Success? {
      assert front + (middle + rest.value) == (front + middle) + rest.value;
    }
  }

  /** What the loop over `offsets` produces: the rows of every page in page
      order, each page's rows in document order, or the error of the first
      page that fails. */
  function FetchOver(session: SearchSession, pageSize: int, email: string,
                     fetch: PageRequest -> Result<seq<Article>, Error>, offsets: seq<int>): Result<seq<Record>, Error>
    decreases |offsets|
  {
    if offsets == [] then Success([])
    else match fetch(PageRequestAt(session, pageSize, email, offsets[0]))
      case Failure(e) => Failure(e)
      case Success(page) => Prepend(RecordsOf(page), FetchOver(session, pageSize, email, fetch, offsets[1..]))
  }

  /** The whole of `fetch_articles` short of writing the file: search, then
      `range(0, count, maxResults)`, then the pages. */
  function FetchRun(term: string, email: string, years: int, maxResults: int, currentYear: int,
                    search: SearchRequest -> Result<SearchSession, Error>,
                    fetch: PageRequest -> Result<seq<Article>, Error>): (r: Result<seq<Record>, Error>)
    ensures search(SearchRequestFor(term, email, years, currentYear)).Failure? ==>
      r == Failure(search(SearchRequestFor(term, email, years, currentYear)).error)
    ensures search(SearchRequestFor(term, email, years, currentYear)).Success? && maxResults == 0 ==>
      r == Failure(InvalidPageSize)
    ensures search(SearchRequestFor(term, email, years, currentYear)).Success? && maxResults < 0 ==>
      r == Success([])
  {
    match search(SearchRequestFor(term, email, years, currentYear))
    case Failure(e) => Failure(e)
    case Success(session) =>
      match PyRange(0, session.count, maxResults)
      case None => Failure(InvalidPageSize)
      case Some(offsets) => FetchOver(session, maxResults, email, fetch, offsets)
  }

  /** What the loop reports besides its rows: the requests it sent are those of
      the offsets, in order, up to and including the first one that failed; a
      progress figure `start + len(articles)` follows every page that came back. */
  predicate LoopReport(session: SearchSession, pageSize: int, email: string,
                       fetch: PageRequest -> Result<seq<Article>, Error>, offsets: seq<int>,
                       r: Result<seq<Record>, Error>, requests: seq<PageRequest>, progress: seq<int>)
  {
    && (r.Success? ==> requests == Requests(session, pageSize, email, offsets))
    && (r.Failure? ==>
          && 0 < |requests| <= |offsets|
          && requests == Requests(session, pageSize, email, offsets[..|requests|])
          && fetch(requests[|requests| - 1]) == Failure(r.error))
    && |progress| == (if r.Success? then |requests| else |requests| - 1)
    && (forall k | 0 <= k < |progress| ::
          && k < |requests|
          && fetch(requests[k]).Success?
          && progress[k] == Progress(requests[k].retstart, fetch(requests[k]).value))
  }

  /** The loop over the page offsets. Besides the outcome it gives back the
      requests sent, in order, and the progress figure after every page that
      came back. */
  method FetchPages(session: SearchSession, pageSize: int, email: string,
                    fetch: PageRequest -> Result<seq<Article>, Error>, offsets: seq<int>)
    returns (r: Result<seq<Record>, Error>, requests: seq<PageRequest>, progress: seq<int>)
    ensures r == FetchOver(session, pageSize, email, fetch, offsets)
    ensures LoopReport(session, pageSize, email, fetch, offsets, r, requests, progress)
  {
    var rows: seq<Record> := [];
    requests, progress := [], [];
    var i := 0;
    assert offsets[i..] == offsets;
    assert Prepend(rows, FetchOver(session, pageSize, email, fetch, offsets))
        == FetchOver(session, pageSize, email, fetch, offsets) by {
      var rest := FetchOver(session, pageSize, email, fetch, offsets);
      if rest.Success? { assert rows + rest.value == rest.value; }
    }
    while i < |offsets|
      invariant 0 <= i <= |offsets|
      invariant FetchOver(session, pageSize, email, fetch, offsets)
             == Prepend(rows, FetchOver(session, pageSize, email, fetch, offsets[i..]))
      invariant requests == Requests(session, pageSize, email, offsets[..i])
      invariant |progress| == i
      invariant forall k | 0 <= k < i ::
        fetch(requests[k]).Success? && progress[k] == Progress(requests[k].retstart, fetch(requests[k]).value)
    {
      var request := PageRequestAt(session, pageSize, email, offsets[i]);
      requests := requests + [request];
      assert offsets[..i + 1] == offsets[..i] + [offsets[i]];
      var response := fetch(request);
      assert offsets[i..][0] == offsets[i];
      if response.Failure? {
        r := Failure(response.error);
        return;
      }
      var page := response.value;
      assert offsets[i..][1..] == offsets[i + 1..];
      PrependAssoc(rows, RecordsOf(page), FetchOver(session, pageSize, email, fetch, offsets[i + 1..]));
      rows := AppendPage(rows, page);
      progress := progress + [Progress(offsets[i], page)];
      i := i + 1;
    }
    assert offsets[..i] == offsets && offsets[i..] == [];
    assert rows + [] == rows;
    r := Success(rows);
  }

  /** `fetch_articles` up to the table: search, plan the pages, fetch them. */
  method FetchArticles(term: string, email: string, currentYear: int,
                       search: SearchRequest -> Result<SearchSession, Error>,
                       fetch: PageRequest -> Result<seq<Article>, Error>,
                       years: int := 5, maxResults: int := 100)
    returns (r: Result<seq<Record>, Error>, requests: seq<PageRequest>, progress: seq<int>)
    ensures r == FetchRun(term, email, years, maxResults, currentYear, search, fetch)
    ensures search(SearchRequestFor(term, email, years, currentYear)).Failure? || maxResults == 0 ==>
      requests == [] && progress == []
    ensures search(SearchRequestFor(term, email, years, currentYear)).Success? && maxResults != 0 ==>
      var session := search(SearchRequestFor(term, email, years, currentYear)).value;
      var offsets := PyRange(0, session.count, maxResults).value;
      LoopReport(session, maxResults, email, fetch, offsets, r, requests, progress)
    ensures search(SearchRequestFor(term, email, years, currentYear)).Success? && maxResults > 0 &&
            ServesAll(search(SearchRequestFor(term, email, years, currentYear)).value, maxResults, email, fetch) ==>
      var count := search(SearchRequestFor(term, email, years, currentYear)).value.count;
      && r.Success? && |r.value| == count
      && |progress| == |requests| == CeilDiv(count, maxResults)
      && (forall k | 0 <= k < |progress| :: progress[k] == Min(requests[k].retstart + maxResults, count))
      && (count > 0 ==> progress[|progress| - 1] == count)
  {
    var searched := search(SearchRequestFor(term, email, years, currentYear));
    if searched.Failure? {
      r, requests, progress := Failure(searched.error), [], [];
      return;
    }
    var session := searched.value;
    var offsets := PyRange(0, session.count, maxResults);
    if offsets.None? {
      r, requests, progress := Failure(InvalidPageSize), [], [];
      return;
    }
    r, requests, progress := FetchPages(session, maxResults, email, fetch, offsets.value);
    if maxResults > 0 && ServesAll(session, maxResults, email, fetch) {
      ConsistentPages(session, maxResults, email, fetch, r, requests, progress);
    }
  }

  /** What the page loop reports against a server that keeps to its count:
      every page comes back, the progress figure after the page at offset `o`
      is `min(o + pageSize, count)`, and the last one is `count`. */
  lemma ConsistentPages(session: SearchSession, pageSize: int, email: string,
                        fetch: PageRequest -> Result<seq<Article>, Error>,
                        r: Result<seq<Record>, Error>, requests: seq<PageRequest>, progress: seq<int>)
    requires pageSize > 0 && ServesAll(session, pageSize, email, fetch)
    requires r == FetchOver(session, pageSize, email, fetch, RangeFrom(0, session.count, pageSize))
    requires LoopReport(session, pageSize, email, fetch, RangeFrom(0, session.count, pageSize), r, requests, progress)
    ensures r.Success? && |r.value| == session.count
    ensures |progress| == |requests| == CeilDiv(session.count, pageSize)
    ensures forall k | 0 <= k < |progress| :: progress[k] == Min(requests[k].retstart + pageSize, session.count)
    ensures session.count > 0 ==> progress[|progress| - 1] == session.count
  {
    var pages := RangeFrom(0, session.count, pageSize);
    ConsistentFetchFrom(session, pageSize, email, fetch, 0);
    ConsistentProgress(session, pageSize, email, fetch);
    PageOffsets(session.count, pageSize);
    forall k | 0 <= k < |progress|
      ensures progress[k] == Min(requests[k].retstart + pageSize, session.count)
    {
      assert requests[k].retstart == pages[k] && pages[k] in pages;
    }
  }

  /** With a successful search and a positive page size the run is the page
      loop over `range(0, count, maxResults)`: ⌈count / maxResults⌉ pages at
      offsets `k * maxResults`. */
  lemma RunWithPositivePageSize(term: string, email: string, years: int, maxResults: int, currentYear: int,
                                search: SearchRequest -> Result<SearchSession, Error>,
                                fetch: PageRequest -> Result<seq<Article>, Error>, session: SearchSession)
    requires search(SearchRequestFor(term, email, years, currentYear)) == Success(session)
    requires maxResults > 0
    ensures var offsets := RangeFrom(0, session.count, maxResults);
      && FetchRun(term, email, years, maxResults, currentYear, search, fetch)
         == FetchOver(session, maxResults, email, fetch, offsets)
      && |offsets| == CeilDiv(session.count, maxResults)
      && (forall k | 0 <= k < |offsets| :: offsets[k] == k * maxResults)
  {
    PageOffsets(session.count, maxResults);
  }

  /** Each page is fetched; the run succeeds exactly when every page comes back. */
  lemma {:induction false} FetchOverSucceedsIff(session: SearchSession, pageSize: int, email: string,
                                                fetch: PageRequest -> Result<seq<Article>, Error>, offsets: seq<int>)
    ensures FetchOver(session, pageSize, email, fetch, offsets).Success?
        <==> forall o | o in offsets :: fetch(PageRequestAt(session, pageSize, email, o)).Success?
    decreases |offsets|
  {
    if offsets != [] {
      FetchOverSucceedsIff(session, pageSize, email, fetch, offsets[1..]);
      assert offsets == [offsets[0]] + offsets[1..];
    }
  }

  /** Accumulation only appends: the rows of a later stretch of offsets come
      after, and leave untouched, the rows of an earlier one. */
  lemma {:induction false} FetchOverAppend(session: SearchSession, pageSize: int, email: string,
                                           fetch: PageRequest -> Result<seq<Article>, Error>,
                                           first: seq<int>, second: seq<int>)
    ensures FetchOver(session, pageSize, email, fetch, first + second)
         == match FetchOver(session, pageSize, email, fetch, first)
            case Failure(e) => Failure(e)
            case Success(rows) => Prepend(rows, FetchOver(session, pageSize, email, fetch, second))
    decreases |first|
  {
    if first == [] {
      assert first + second == second;
      var rest := FetchOver(session, pageSize, email, fetch, second);
      if rest.Success? { assert [] + rest.value == rest.value; }
    } else {
      assert (first + second)[1..] == first[1..] + second;
      assert (first + second)[0] == first[0];
      FetchOverAppend(session, pageSize, email, fetch, first[1..], second);
      var head := fetch(PageRequestAt(session, pageSize, email, first[0]));
      var tail := FetchOver(session, pageSize, email, fetch, first[1..]);
      if head.Success? && tail.Success? {
        PrependAssoc(RecordsOf(head.value), tail.value, FetchOver(session, pageSize, email, fetch, second));
      }
    }
  }

  /** Sum of the sizes of the pages that came back. */
  function FetchedCount(session: SearchSession, pageSize: int, email: string,
                        fetch: PageRequest -> Result<seq<Article>, Error>, offsets: seq<int>): nat
    decreases |offsets|
  {
    if offsets == [] then 0
    else
      var here := match fetch(PageRequestAt(session, pageSize, email, offsets[0]))
        case Success(page) => |page|
        case Failure(_) => 0;
      here + FetchedCount(session, pageSize, email, fetch, offsets[1..])
  }

  /** A successful run has one row per article over all pages. */
  lemma {:induction false} FetchOverLength(session: SearchSession, pageSize: int, email: string,
                                           fetch: PageRequest -> Result<seq<Article>, Error>, offsets: seq<int>)
    requires FetchOver(session, pageSize, email, fetch, offsets).Success?
    ensures |FetchOver(session, pageSize, email, fetch, offsets).value| == FetchedCount(session, pageSize, email, fetch, offsets)
    decreases |offsets|
  {
    if offsets != [] {
      FetchOverLength(session, pageSize, email, fetch, offsets[1..]);
    }
  }

  function Min(a: int, b: int): int { if a <= b then a else b }

  /** A server that keeps to its count: the page at offset `start` holds
      `min(pageSize, count - start)` articles. */
  predicate ServesPage(session: SearchSession, pageSize: int, email: string,
                       fetch: PageRequest -> Result<seq<Article>, Error>, start: int)
  {
    && fetch(PageRequestAt(session, pageSize, email, start)).Success?
    && |fetch(PageRequestAt(session, pageSize, email, start)).value| == Min(pageSize, session.count - start)
  }

  /** Every page of `range(0, count, pageSize)` keeps to the count. */
  predicate ServesAll(session: SearchSession, pageSize: int, email: string,
                      fetch: PageRequest -> Result<seq<Article>, Error>)
    requires pageSize > 0
  {
    forall o | o in RangeFrom(0, session.count, pageSize) :: ServesPage(session, pageSize, email, fetch, o)
  }

  /** Against such a server the pages from `start` on give `count - start` rows. */
  lemma {:induction false} ConsistentFetchFrom(session: SearchSession, pageSize: int, email: string,
                                               fetch: PageRequest -> Result<seq<Article>, Error>, start: int)
    requires pageSize > 0 && start <= session.count
    requires forall o | o in RangeFrom(start, session.count, pageSize) :: ServesPage(session, pageSize, email, fetch, o)
    ensures FetchOver(session, pageSize, email, fetch, RangeFrom(start, session.count, pageSize)).Success?
    ensures |FetchOver(session, pageSize, email, fetch, RangeFrom(start, session.count, pageSize)).value| == session.count - start
    decreases session.count - start
  {
    var offsets := RangeFrom(start, session.count, pageSize);
    if start < session.count {
      assert offsets[0] == start && offsets[1..] == RangeFrom(start + pageSize, session.count, pageSize);
      assert ServesPage(session, pageSize, email, fetch, start);
      if start + pageSize <= session.count {
        ConsistentFetchFrom(session, pageSize, email, fetch, start + pageSize);
      } else {
        assert offsets[1..] == [];
      }
    }
  }

  /** Against a server that keeps to its count, the run yields exactly `count`
      rows: one per matching article. */
  lemma RunDeliversCount(term: string, email: string, years: int, maxResults: int, currentYear: int,
                         search: SearchRequest -> Result<SearchSession, Error>,
                         fetch: PageRequest -> Result<seq<Article>, Error>, session: SearchSession)
    requires search(SearchRequestFor(term, email, years, currentYear)) == Success(session)
    requires maxResults > 0 && ServesAll(session, maxResults, email, fetch)
    ensures FetchRun(term, email, years, maxResults, currentYear, search, fetch).Success?
    ensures |FetchRun(term, email, years, maxResults, currentYear, search, fetch).value| == session.count
  {
    ConsistentFetchFrom(session, maxResults, email, fetch, 0);
  }

  /** Against such a server the progress figure after each page is
      `min(start + pageSize, count)`, and after the last page it is `count`. */
  lemma ConsistentProgress(session: SearchSession, pageSize: int, email: string,
                           fetch: PageRequest -> Result<seq<Article>, Error>)
    requires pageSize > 0 && ServesAll(session, pageSize, email, fetch)
    ensures forall o | o in RangeFrom(0, session.count, pageSize) ::
      ServesPage(session, pageSize, email, fetch, o) &&
      Progress(o, fetch(PageRequestAt(session, pageSize, email, o)).value) == Min(o + pageSize, session.count)
    ensures session.count > 0 ==>
      var offsets := RangeFrom(0, session.count, pageSize);
      var last := offsets[|offsets| - 1];
      |offsets| > 0 && ServesPage(session, pageSize, email, fetch, last) && Progress(last, fetch(PageRequestAt(session, pageSize, email, last)).value) == session.count
  {
    if session.count > 0 {
      RangeFromLast(0, session.count, pageSize);
      var offsets := RangeFrom(0, session.count, pageSize);
      assert offsets[|offsets| - 1] in offsets;
    }
  }
}
