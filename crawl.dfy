/** The crawl loop of Projekt.py (lines 167-178): every registration-year filter from 1995 to
    2021 crossed with result pages 0 to 19, each page's table appended to `AutoDFraw`.  The
    download and parse of a URL is the parameter `fetch`. */
module Crawl {
  import opened Wrappers
  import opened Text
  import opened Extraction

  const BaseLink: string := "https://www.autoscout24.de/lst?fregto="

  /** `range(1995, 2022, 1)`. */
  function Years(): (ys: seq<nat>)
    ensures |ys| == 27
    ensures forall i :: 0 <= i < |ys| ==> ys[i] == 1995 + i
  {
    seq(27, i => 1995 + i)
  }

  /** `range(20)`. */
  const PageCount: nat := 20

  /** One visit of the nested loops: a year filter and a result page. */
  datatype Request = Request(year: nat, page: nat)

  /** `baselink + str(freg) + "&page=" + str(page)`. */
  function Url(r: Request): string {
    BaseLink + NatToString(r.year) + "&page=" + NatToString(r.page)
  }

  /** Different year or page, different URL. */
  lemma UrlInjective(r1: Request, r2: Request)
    requires Url(r1) == Url(r2)
    ensures r1 == r2
  {
    var a1, a2 := NatToString(r1.year), NatToString(r2.year);
    var amp := "&page=";
    var t1, t2 := amp + NatToString(r1.page), amp + NatToString(r2.page);
    assert Url(r1) == BaseLink + (a1 + t1);
    assert Url(r2) == BaseLink + (a2 + t2);
    assert a1 + t1 == Url(r1)[|BaseLink|..];
    assert a2 + t2 == Url(r2)[|BaseLink|..];
    DigitPrefixUnique(a1, t1, a2, t2);
    NatToStringInjective(r1.year, r2.year);
    assert NatToString(r1.page) == t1[|amp|..];
    assert NatToString(r2.page) == t2[|amp|..];
    NatToStringInjective(r1.page, r2.page);
  }

  /** A URL as the source writes it out. */
  lemma UrlExample()
    ensures Url(Request(2020, 3)) == "https://www.autoscout24.de/lst?fregto=2020&page=3"
  {
    assert NatToString(2) == "2";
    assert NatToString(20) == "20";
    assert NatToString(202) == "202";
    assert NatToString(2020) == "2020";
  }

  /** The visits of one year filter, pages 0 to `pages` - 1. */
  function YearRequests(year: nat, pages: nat): (rs: seq<Request>)
    ensures |rs| == pages
    ensures forall p :: 0 <= p < pages ==> rs[p] == Request(year, p)
  {
    seq(pages, p requires 0 <= p => Request(year, p))
  }

  /** The visits of the nested loops: year-major, page-minor. */
  function Schedule(years: seq<nat>, pages: nat): seq<Request>
    decreases |years|
  {
    if years == [] then []
    else
      var init := Schedule(DropLast(years), pages);
      init + YearRequests(Last(years), pages)
  }

  /** Every year contributes `pages` visits. */
  lemma {:induction false} ScheduleLength(years: seq<nat>, pages: nat)
    ensures |Schedule(years, pages)| == |years| * pages
    decreases |years|
  {
    if years != [] {
      ScheduleLength(DropLast(years), pages);
      assert |years| * pages == |DropLast(years)| * pages + pages;
    }
  }

  /** `i * pages + p` lies inside the first `n` blocks of `pages` when `i < n` and
      `p < pages`. */
  lemma {:induction false} BlockIndex(i: nat, n: nat, p: nat, pages: nat)
    requires i < n && p < pages
    ensures i * pages + p < n * pages
    decreases n
  {
    if i + 1 < n {
      BlockIndex(i, n - 1, p, pages);
      assert n * pages == (n - 1) * pages + pages;
    } else {
      assert n * pages == i * pages + pages;
    }
  }

  /** Page `p` of the `i`-th year is the visit at position `i * pages + p`. */
  lemma {:induction false} ScheduleAt(years: seq<nat>, pages: nat, i: nat, p: nat)
    requires i < |years| && p < pages
    ensures i * pages + p < |Schedule(years, pages)|
    ensures Schedule(years, pages)[i * pages + p] == Request(years[i], p)
    decreases |years|
  {
    var init := DropLast(years);
    var n := |init|;
    ScheduleLength(init, pages);
    if i < n {
      BlockIndex(i, n, p, pages);
      ScheduleAt(init, pages, i, p);
      assert init[i] == years[i];
    } else {
      assert i * pages == n * pages;
    }
  }

  /** The nested loops fetch each URL once: with distinct years, the URLs at the positions of
      two different (year, page) pairs differ. */
  lemma ScheduleDistinct(years: seq<nat>, pages: nat, i1: nat, p1: nat, i2: nat, p2: nat)
    requires forall a, b :: 0 <= a < b < |years| ==> years[a] != years[b]
    requires i1 < |years| && p1 < pages && i2 < |years| && p2 < pages
    requires (i1, p1) != (i2, p2)
    ensures i1 * pages + p1 < |Schedule(years, pages)| && i2 * pages + p2 < |Schedule(years, pages)|
    ensures Url(Schedule(years, pages)[i1 * pages + p1]) != Url(Schedule(years, pages)[i2 * pages + p2])
  {
    ScheduleAt(years, pages, i1, p1);
    ScheduleAt(years, pages, i2, p2);
    if Url(Request(years[i1], p1)) == Url(Request(years[i2], p2)) {
      UrlInjective(Request(years[i1], p1), Request(years[i2], p2));
      assert false;
    }
  }

  /** The full crawl makes 27 * 20 = 540 visits. */
  lemma ScheduleSize()
    ensures |Schedule(Years(), PageCount)| == 540
  {
    ScheduleLength(Years(), PageCount);
  }

  /** Two years with two pages each give the four visits in year-major order. */
  lemma ScheduleTwoByTwo()
    ensures Schedule([2020, 2021], 2) ==
      [Request(2020, 0), Request(2020, 1), Request(2021, 0), Request(2021, 1)]
  {
    var first, second := YearRequests(2020, 2), YearRequests(2021, 2);
    assert first == [Request(2020, 0), Request(2020, 1)];
    assert second == [Request(2021, 0), Request(2021, 1)];
    assert DropLast([2020]) == [];
    assert Schedule([2020], 2) == [] + first;
    assert DropLast([2020, 2021]) == [2020];
    assert Schedule([2020, 2021], 2) == Schedule([2020], 2) + second;
  }

  /** The schedule of two lists of years is the concatenation of their schedules. */
  lemma {:induction false} ScheduleConcat(a: seq<nat>, b: seq<nat>, c: seq<nat>)
    requires a + b == c
    ensures Schedule(c, PageCount) == Schedule(a, PageCount) + Schedule(b, PageCount)
    decreases |b|
  {
    if b == [] {
      assert c == a;
    } else {
      ScheduleConcat(a, DropLast(b), DropLast(c));
      assert DropLast(c) == a + DropLast(b);
      assert Last(c) == Last(b);
    }
  }

  // ---------------------------------------------------------------------------
  // Crawling.

  /** The visit whose page could not be extracted: its position in the schedule, the visit
      and the extraction error. */
  datatype Failure = Failure(index: nat, request: Request, error: ExtractError)

  /** The table a visit yields: `extractPageCarDF` applied to the visit's URL. */
  type Extractor = Request -> Result<seq<PageRow>, ExtractError>

  /** The extractor of the source: download and parse the URL, then extract the page. */
  function Visit(fetch: string -> Page): Extractor {
    r => PageRows(fetch(Url(r)))
  }

  /** What the crawl leaves behind: the rows gathered so far and, if the crawl stopped, where. */
  datatype Outcome = Outcome(rows: seq<PageRow>, failure: Option<Failure>)

  /** The crawl of a list of visits: the page tables concatenated in order, up to the first
      page that raises, after which nothing more is visited. */
  function CrawlPages(rs: seq<Request>, extract: Extractor): Outcome
    decreases |rs|
  {
    if rs == [] then Outcome([], None)
    else Advance(CrawlPages(DropLast(rs), extract), |rs| - 1, Last(rs), extract(Last(rs)))
  }

  /** The crawl fails exactly when some visit raises; the failure then names the first such
      visit, and every visit before it extracted. */
  lemma {:induction false} CrawlPagesFailure(rs: seq<Request>, extract: Extractor)
    ensures CrawlPages(rs, extract).failure.None? <==> forall k :: 0 <= k < |rs| ==> extract(rs[k]).Ok?
    ensures CrawlPages(rs, extract).failure.Some? ==>
      var f := CrawlPages(rs, extract).failure.value;
      f.index < |rs| && f.request == rs[f.index] && extract(f.request) == Err(f.error) &&
      forall k :: 0 <= k < f.index ==> extract(rs[k]).Ok?
    decreases |rs|
  {
    if rs != [] {
      var init := DropLast(rs);
      CrawlPagesFailure(init, extract);
      assert forall k :: 0 <= k < |init| ==> init[k] == rs[k];
    }
  }

  /** One more visit `x`, at position `i`, after the outcome `o`: nothing changes once the
      crawl has stopped; otherwise the visit either raises or appends its page's rows. */
  function Advance(o: Outcome, i: nat, x: Request, r: Result<seq<PageRow>, ExtractError>): Outcome {
    if o.failure.Some? then o
    else
      match r
      case Err(e) => Outcome(o.rows, Some(Failure(i, x, e)))
      case Ok(page) => Outcome(o.rows + page, None)
  }

  /** A failure reported `n` visits later. */
  function Shifted(failure: Option<Failure>, n: nat): Option<Failure> {
    match failure
    case None => None
    case Some(f) => Some(f.(index := n + f.index))
  }

  /** The concatenated rows of pages that all extract. */
  function AllRows(rs: seq<Request>, extract: Extractor): seq<PageRow>
    requires forall k :: 0 <= k < |rs| ==> extract(rs[k]).Ok?
    decreases |rs|
  {
    if rs == [] then []
    else AllRows(DropLast(rs), extract) + extract(Last(rs)).value
  }

  /** When no page fails, the crawl gathers every page's rows, in order. */
  lemma {:induction false} CrawlAllRows(rs: seq<Request>, extract: Extractor)
    requires forall k :: 0 <= k < |rs| ==> extract(rs[k]).Ok?
    ensures CrawlPages(rs, extract) == Outcome(AllRows(rs, extract), None)
    decreases |rs|
  {
    if rs != [] {
      var init := DropLast(rs);
      assert forall k :: 0 <= k < |init| ==> init[k] == rs[k];
      CrawlAllRows(init, extract);
    }
  }

  /** After a failure nothing more is visited: crawling `a + b` when `a` fails is crawling `a`. */
  lemma {:induction false} CrawlPagesStopped(a: seq<Request>, b: seq<Request>, extract: Extractor)
    requires CrawlPages(a, extract).failure.Some?
    ensures CrawlPages(a + b, extract) == CrawlPages(a, extract)
    decreases |b|
  {
    if b == [] {
      assert a + b == a;
    } else {
      CrawlPagesStopped(a, DropLast(b), extract);
      assert DropLast(a + b) == a + DropLast(b);
    }
  }

  /** Crawling `a + b` when `a` does not fail: the rows of `b` are appended after those of
      `a`, and a failure in `b` is reported at its position in `a + b`. */
  lemma {:induction false} CrawlPagesContinue(a: seq<Request>, b: seq<Request>, extract: Extractor)
    requires CrawlPages(a, extract).failure.None?
    ensures CrawlPages(a + b, extract).rows == CrawlPages(a, extract).rows + CrawlPages(b, extract).rows
    ensures CrawlPages(a + b, extract).failure == Shifted(CrawlPages(b, extract).failure, |a|)
    decreases |b|
  {
    if b == [] {
      assert a + b == a;
      assert CrawlPages(a, extract).rows + CrawlPages(b, extract).rows == CrawlPages(a, extract).rows;
    } else {
      var b', x := DropLast(b), Last(b);
      CrawlPagesContinue(a, b', extract);
      assert CrawlPages(b, extract) == Advance(CrawlPages(b', extract), |b'|, x, extract(x)) by {
        assert b == b' + [x];
        CrawlPagesSnoc(b', x, extract);
      }
      assert CrawlPages(a + b, extract) ==
        Advance(CrawlPages(a + b', extract), |a| + |b'|, x, extract(x)) by {
        assert a + b == (a + b') + [x];
        CrawlPagesSnoc(a + b', x, extract);
      }
      AdvanceShifted(CrawlPages(a, extract), CrawlPages(b', extract), CrawlPages(a + b', extract),
                     |a|, |b'|, x, extract(x));
    }
  }

  /** The step of `CrawlPagesContinue`, on outcomes: if `o` is `ob` after the rows of `oa`
      with its failure `n` visits later, the same holds after one more visit. */
  lemma AdvanceShifted(oa: Outcome, ob: Outcome, o: Outcome, n: nat, m: nat, x: Request,
                       r: Result<seq<PageRow>, ExtractError>)
    requires oa.failure.None?
    requires o.rows == oa.rows + ob.rows && o.failure == Shifted(ob.failure, n)
    ensures Advance(o, n + m, x, r).rows == oa.rows + Advance(ob, m, x, r).rows
    ensures Advance(o, n + m, x, r).failure == Shifted(Advance(ob, m, x, r).failure, n)
  {
    if ob.failure.None? && r.Ok? {
      assert o.rows + r.value == oa.rows + (ob.rows + r.value);
    }
  }

  /** Crawling one more visit `x` is one `Advance`. */
  lemma CrawlPagesSnoc(rs: seq<Request>, x: Request, extract: Extractor)
    ensures CrawlPages(rs + [x], extract) == Advance(CrawlPages(rs, extract), |rs|, x, extract(x))
  {
    assert DropLast(rs + [x]) == rs;
    assert Last(rs + [x]) == x;
  }

  /** The crawl as the source runs it: the loops of `CrawlYears` over the years 1995..2021. */
  method CrawlAll(fetch: string -> Page) returns (rows: seq<PageRow>, failure: Option<Failure>)
    ensures Outcome(rows, failure) == CrawlPages(Schedule(Years(), PageCount), Visit(fetch))
  {
    rows, failure := CrawlYears(fetch, Years());
  }

  /** The nested year and page loops over any list of "Erstzulassung bis" years: each page is
      extracted and its rows appended, until a page raises. */
  method CrawlYears(fetch: string -> Page, years: seq<nat>) returns (rows: seq<PageRow>, failure: Option<Failure>)
    ensures Outcome(rows, failure) == CrawlPages(Schedule(years, PageCount), Visit(fetch))
  {
    rows := [];
    ghost var visited: seq<Request> := [];
    for y := 0 to |years|
      invariant visited == Schedule(years[..y], PageCount)
      invariant CrawlPages(visited, Visit(fetch)) == Outcome(rows, None)
    {
      ghost var before := visited;
      for page := 0 to PageCount
        invariant visited == before + YearRequests(years[y], page)
        invariant CrawlPages(visited, Visit(fetch)) == Outcome(rows, None)
      {
        var r := Request(years[y], page);
        var pageRows := VisitPage(fetch, r);
        if pageRows.Err? {
          ScheduleLength(years[..y], PageCount);
          failure := Some(Failure(y * PageCount + page, r, pageRows.error));
          Abort(years, y, page, visited, Visit(fetch), failure.value);
          return;
        }
        CrawlStep(visited, r, Visit(fetch));
        assert YearRequests(years[y], page + 1) == YearRequests(years[y], page) + [r];
        visited := visited + [r];
        rows := rows + pageRows.value;
      }
      ScheduleNextYear(years, y);
    }
    assert years[..|years|] == years;
    failure := None;
  }

  /** Lines 176-177: the URL of one visit, downloaded and extracted. */
  method VisitPage(fetch: string -> Page, r: Request) returns (result: Result<seq<PageRow>, ExtractError>)
    ensures result == Visit(fetch)(r)
  {
    var url := BaseLink + NatToString(r.year) + "&page=" + NatToString(r.page);
    assert url == Url(r);
    result := ExtractPage(fetch(url));
  }

  /** One more visit that extracts appends its rows. */
  lemma CrawlStep(visited: seq<Request>, r: Request, extract: Extractor)
    requires CrawlPages(visited, extract).failure.None? && extract(r).Ok?
    ensures CrawlPages(visited + [r], extract) ==
      Outcome(CrawlPages(visited, extract).rows + extract(r).value, None)
  {
    assert DropLast(visited + [r]) == visited;
  }

  /** The schedule of the first `y + 1` years. */
  lemma ScheduleNextYear(years: seq<nat>, y: nat)
    requires y < |years|
    ensures Schedule(years[..y + 1], PageCount) ==
      Schedule(years[..y], PageCount) + YearRequests(years[y], PageCount)
  {
    assert DropLast(years[..y + 1]) == years[..y];
  }

  /** Once the crawl fails at page `page` of year `y`, the full schedule fails in the same
      place with the same rows. */
  lemma Abort(years: seq<nat>, y: nat, page: nat, visited: seq<Request>, extract: Extractor,
              f: Failure)
    requires y < |years| && page < PageCount
    requires visited == Schedule(years[..y], PageCount) + YearRequests(years[y], page)
    requires f.index == |visited| && f.request == Request(years[y], page)
    requires CrawlPages(visited, extract).failure.None?
    requires extract(f.request) == Err(f.error)
    ensures CrawlPages(Schedule(years, PageCount), extract) ==
      Outcome(CrawlPages(visited, extract).rows, Some(f))
  {
    var prefix := visited + [f.request];
    var rest := ScheduleAround(years, y, page);
    assert CrawlPages(prefix, extract) == Outcome(CrawlPages(visited, extract).rows, Some(f)) by {
      assert DropLast(prefix) == visited;
    }
    CrawlPagesStopped(prefix, rest, extract);
  }

  /** The schedule around page `page` of year `y`: the visits before it, the visit itself and
      the rest. */
  lemma ScheduleAround(years: seq<nat>, y: nat, page: nat) returns (rest: seq<Request>)
    requires y < |years| && page < PageCount
    ensures Schedule(years, PageCount) ==
      Schedule(years[..y], PageCount) + YearRequests(years[y], page) + [Request(years[y], page)] + rest
  {
    var pre, year, post := years[..y], years[y], years[y + 1..];
    var later := YearRequests(year, PageCount)[page + 1..];
    rest := later + Schedule(post, PageCount);
    assert years == pre + [year] + post;
    ScheduleConcat(pre + [year], post, years);
    assert DropLast(pre + [year]) == pre;
    assert YearRequests(year, PageCount) == YearRequests(year, page) + [Request(year, page)] + later;
  }
}
