/**
 * The crawl loop of src/fetcher.py and of its older synchronous twin
 * fetcher.py: load a results page (retrying up to three times), turn its
 * cards into records, write them to the CSV file, follow the next-page link,
 * and stop at the first page that fails to load, has no cards or has no
 * next page.
 *
 * The browser is an oracle: `browser(url, k)` is what the `k`-th navigation
 * of the crawl's page object (counting from 0) yields when it goes to `url`.
 * The HTML parser is the function `parse`. The loop of the source has no
 * bound; here it is given `maxPages`, and a crawl that would load more pages
 * ends with `OutOfPages`.
 */
module Fetcher {
  import opened Wrappers
  import opened Text
  import opened Dom
  import opened Parser

  /** What one `page.goto(url)` gives: an exception, no response object, or a response with a status and a body. */
  datatype LoadOutcome = Raised | NoResponse | Response(status: int, body: string)

  /** The navigation oracle: the outcome of navigation number `k` to `url`. */
  type Browser = (string, nat) -> LoadOutcome

  /** `MAX_RETRIES`. */
  const MaxRetries: nat := 3

  /** The HTML one attempt captures: the body of a 200 response, otherwise nothing (`""` stands for Python's falsy `None`). */
  function AttemptHtml(o: LoadOutcome): string {
    if o.Response? && o.status == 200 then o.body else ""
  }

  /** The HTML a run of the retry loop captured (`""` when it gave up) and the navigation count after it. */
  datatype Fetched = Fetched(html: string, calls: nat)

  /**
   * The retry loop from attempt `attempt` on, navigation count `calls`: the
   * first attempt that captures a non-empty body ends it; after
   * `MaxRetries` failed attempts it gives up.
   */
  function Retry(browser: Browser, url: string, calls: nat, attempt: nat): (f: Fetched)
    requires attempt <= MaxRetries
    ensures calls <= f.calls <= calls + (MaxRetries - attempt)
    decreases MaxRetries - attempt
  {
    if attempt == MaxRetries then Fetched("", calls)
    else
      var html := AttemptHtml(browser(url, calls));
      if html != "" then Fetched(html, calls + 1)
      else Retry(browser, url, calls + 1, attempt + 1)
  }

  /**
   * The retry loop captures the body of the first attempt that yields one,
   * after attempts that all yielded nothing; when it gives up, it has made
   * all its attempts and every one yielded nothing.
   */
  lemma {:induction false} RetryFirstSuccess(browser: Browser, url: string, calls: nat, attempt: nat)
    requires attempt <= MaxRetries
    ensures var f := Retry(browser, url, calls, attempt);
      && (forall k :: calls <= k < f.calls - 1 ==> AttemptHtml(browser(url, k)) == "")
      && (f.html != "" ==> calls < f.calls && f.html == AttemptHtml(browser(url, f.calls - 1)))
      && (f.html == "" ==> f.calls == calls + (MaxRetries - attempt) && forall k :: calls <= k < f.calls ==> AttemptHtml(browser(url, k)) == "")
    decreases MaxRetries - attempt
  {
    if attempt < MaxRetries && AttemptHtml(browser(url, calls)) == "" {
      RetryFirstSuccess(browser, url, calls + 1, attempt + 1);
    }
  }

  /** One attempt of the retry loop, unfolded. */
  lemma RetryStep(browser: Browser, url: string, calls: nat, attempt: nat)
    requires attempt < MaxRetries
    ensures var html := AttemptHtml(browser(url, calls));
      Retry(browser, url, calls, attempt) == if html != "" then Fetched(html, calls + 1) else Retry(browser, url, calls + 1, attempt + 1)
  {
  }

  /** The two versions of the crawl: src/fetcher.py carries the `?sk=` parameter over, fetcher.py does not. */
  datatype Variant = Current | Legacy

  /** The `?sk=` tail of a URL: from the first `?sk=` to the end, or nothing. */
  function SkSuffix(url: string): string {
    var k := Find(url, "?sk=", 0);
    if k < 0 then "" else url[k..]
  }

  /** The URL the crawl goes to after `current`, given the non-empty `href` of the next-page link. */
  function NextUrl(variant: Variant, current: string, href: string): string {
    if variant == Current then href + SkSuffix(current) else href
  }

  /** One page the crawl parsed and wrote: its number, its URL and its parsed document. */
  datatype Visit = Visit(pageNum: nat, url: string, page: Page)

  /** The records written for a page: one per listing card. */
  function VisitListings(v: Visit): seq<Listing> {
    ListingsOf(Placards(v.page))
  }

  /** Why the crawl stopped. */
  datatype Ending = Aborted | NoListings | NoNextPage | OutOfPages

  /** A crawl: the pages it wrote, why it stopped, the URL it stopped at and the navigation count. */
  datatype Crawl = Crawl(visits: seq<Visit>, ending: Ending, lastUrl: string, calls: nat)

  /** The crawl from `url`, numbered `pageNum`, after `calls` navigations, loading at most `budget` more pages. */
  function CrawlFrom(variant: Variant, browser: Browser, parse: string -> Page, url: string, pageNum: nat, calls: nat, budget: nat): Crawl
    decreases budget, 1
  {
    if budget == 0 then Crawl([], OutOfPages, url, calls)
    else
      var f := Retry(browser, url, calls, 0);
      if f.html == "" then Crawl([], Aborted, url, f.calls)
      else CrawlPage(variant, browser, parse, url, pageNum, f.html, f.calls, budget)
  }

  /** The rest of the crawl once the page at `url` has been captured as `html`. */
  function CrawlPage(variant: Variant, browser: Browser, parse: string -> Page, url: string, pageNum: nat, html: string, calls: nat, budget: nat): Crawl
    requires budget > 0
    decreases budget, 0
  {
    var page := parse(html);
    if Placards(page) == [] then Crawl([], NoListings, url, calls)
    else
      var v := Visit(pageNum, url, page);
      var next := ExtractNextPageUrl(page);
      if next.None? || next.value == "" then Crawl([v], NoNextPage, url, calls)
      else
        var rest := CrawlFrom(variant, browser, parse, NextUrl(variant, url, next.value), pageNum + 1, calls, budget - 1);
        Crawl([v] + rest.visits, rest.ending, rest.lastUrl, rest.calls)
  }

  /** The files after the crawl wrote its pages in order: page 1 with `append=False`, later pages with `append=True`. */
  function ApplyVisits(files: map<string, seq<Row>>, path: string, visits: seq<Visit>): map<string, seq<Row>>
    decreases |visits|
  {
    if visits == [] then files
    else ApplyVisits(Written(files, path, VisitListings(visits[0]), visits[0].pageNum > 1), path, visits[1..])
  }

  /** The records of the visits, page after page. */
  function AllListings(visits: seq<Visit>): seq<Listing> {
    if visits == [] then [] else VisitListings(visits[0]) + AllListings(visits[1..])
  }

  // ---------------------------------------------------------------------------
  // The default output name of src/fetcher.py

  /** The local time `datetime.now()` reads, to the second. */
  datatype DateTime = DateTime(year: nat, month: nat, day: nat, hour: nat, minute: nat, second: nat) {
    /** A calendar time with a four-digit year; day ranges are not checked against the month. */
    predicate Valid() {
      1000 <= year <= 9999 && 1 <= month <= 12 && 1 <= day <= 31 && hour < 24 && minute < 60 && second < 60
    }
  }

  /** `now.strftime("%Y%m%d_%H%M%S")`. */
  function Timestamp(t: DateTime): string {
    Digits(t.year, 4) + Digits(t.month, 2) + Digits(t.day, 2) + "_" + Digits(t.hour, 2) + Digits(t.minute, 2) + Digits(t.second, 2)
  }

  const DefaultPrefix: string := "parsed_listings_"
  const CsvExtension: string := ".csv"

  /** The file `fetch_all_pages` writes when it is given no `output_csv`. */
  function DefaultOutputName(t: DateTime): string {
    DefaultPrefix + Timestamp(t) + CsvExtension
  }

  /** The timestamp is eight digits of date, `_` and six digits of time. */
  lemma TimestampShape(t: DateTime)
    ensures var ts := Timestamp(t);
      |ts| == 15 && ts[8] == '_' && AllDigits(ts[..8]) && AllDigits(ts[9..])
  {
    var date := Digits(t.year, 4) + Digits(t.month, 2) + Digits(t.day, 2);
    var time := Digits(t.hour, 2) + Digits(t.minute, 2) + Digits(t.second, 2);
    var ts := Timestamp(t);
    assert ts == date + "_" + time;
    assert ts[..8] == date && ts[9..] == time;
  }

  /** Distinct valid times have distinct timestamps: each field is read back from its place. */
  lemma TimestampInjective(t1: DateTime, t2: DateTime)
    requires t1.Valid() && t2.Valid()
    requires Timestamp(t1) == Timestamp(t2)
    ensures t1 == t2
  {
    var ts1, ts2 := Timestamp(t1), Timestamp(t2);
    assert Pow10(2) == 100 && Pow10(4) == 10000;
    assert ts1[0..4] == Digits(t1.year, 4) && ts2[0..4] == Digits(t2.year, 4);
    assert ts1[4..6] == Digits(t1.month, 2) && ts2[4..6] == Digits(t2.month, 2);
    assert ts1[6..8] == Digits(t1.day, 2) && ts2[6..8] == Digits(t2.day, 2);
    assert ts1[9..11] == Digits(t1.hour, 2) && ts2[9..11] == Digits(t2.hour, 2);
    assert ts1[11..13] == Digits(t1.minute, 2) && ts2[11..13] == Digits(t2.minute, 2);
    assert ts1[13..15] == Digits(t1.second, 2) && ts2[13..15] == Digits(t2.second, 2);
    DigitsInjective(t1.year, t2.year, 4);
    DigitsInjective(t1.month, t2.month, 2);
    DigitsInjective(t1.day, t2.day, 2);
    DigitsInjective(t1.hour, t2.hour, 2);
    DigitsInjective(t1.minute, t2.minute, 2);
    DigitsInjective(t1.second, t2.second, 2);
  }

  /** The default name is `parsed_listings_`, the 15-character timestamp, `.csv`. */
  lemma DefaultOutputNameShape(t: DateTime)
    ensures var name := DefaultOutputName(t);
      |name| == 35 && name[..16] == DefaultPrefix && name[16..31] == Timestamp(t) && name[31..] == CsvExtension
  {
    TimestampShape(t);
  }

  /** Two runs started at different seconds never pick the same default file name. */
  lemma DefaultOutputNameInjective(t1: DateTime, t2: DateTime)
    requires t1.Valid() && t2.Valid()
    requires DefaultOutputName(t1) == DefaultOutputName(t2)
    ensures t1 == t2
  {
    DefaultOutputNameShape(t1);
    DefaultOutputNameShape(t2);
    TimestampInjective(t1, t2);
  }

  /** The output file of fetcher.py when it is given none. */
  const LegacyDefaultOutput: string := "parsed_listings.csv"

  /**
   * `fetch_all_pages(url, context, output_csv)` of src/fetcher.py: the crawl
   * that carries `?sk=` over, writing to `output_csv` or, when none is given,
   * to the name stamped with the time `now`. The file ends up holding a
   * header and every record of every page written, in page order; when not
   * even the first page could be written, the files are left as they were.
   */
  method FetchAllPages(url: string, outputCsv: Option<string>, now: DateTime, store: CsvStore, browser: Browser, parse: string -> Page, maxPages: nat)
    returns (path: string, ending: Ending)
    modifies store
    ensures path == if outputCsv.Some? then outputCsv.value else DefaultOutputName(now)
    ensures var c := CrawlFrom(Current, browser, parse, url, 1, 0, maxPages);
      && ending == c.ending
      && store.files == if c.visits == [] then old(store.files) else old(store.files)[path := [Header] + Rows(AllListings(c.visits))]
  {
    path := if outputCsv.Some? then outputCsv.value else DefaultOutputName(now);
    var calls;
    ghost var files := store.files;
    ending, calls := RunCrawl(Current, url, path, store, browser, parse, maxPages);
    CrawlFile(Current, browser, parse, url, maxPages, files, path);
  }

  /** `fetch_all_pages(url, context, output_csv="parsed_listings.csv")` of fetcher.py: the same crawl, following next-page links as given. */
  method LegacyFetchAllPages(url: string, store: CsvStore, browser: Browser, parse: string -> Page, maxPages: nat, outputCsv: string := LegacyDefaultOutput)
    returns (ending: Ending)
    modifies store
    ensures var c := CrawlFrom(Legacy, browser, parse, url, 1, 0, maxPages);
      && ending == c.ending
      && store.files == if c.visits == [] then old(store.files) else old(store.files)[outputCsv := [Header] + Rows(AllListings(c.visits))]
  {
    var calls;
    ghost var files := store.files;
    ending, calls := RunCrawl(Legacy, url, outputCsv, store, browser, parse, maxPages);
    CrawlFile(Legacy, browser, parse, url, maxPages, files, outputCsv);
  }

  /** What a whole crawl leaves in the files: nothing new if it wrote no page, else one file with a header and all its records. */
  lemma CrawlFile(variant: Variant, browser: Browser, parse: string -> Page, url: string, maxPages: nat, files: map<string, seq<Row>>, path: string)
    ensures var visits := CrawlFrom(variant, browser, parse, url, 1, 0, maxPages).visits;
      ApplyVisits(files, path, visits) == if visits == [] then files else files[path := [Header] + Rows(AllListings(visits))]
  {
    var c := CrawlFrom(variant, browser, parse, url, 1, 0, maxPages);
    CrawlNumbered(variant, browser, parse, url, 1, 0, maxPages);
    if c.visits != [] {
      CrawlOutput(files, path, c.visits);
    }
  }

  /** The loop of `fetch_all_pages`, shared by both versions; `outputCsv` is the file written. */
  method RunCrawl(variant: Variant, url: string, outputCsv: string, store: CsvStore, browser: Browser, parse: string -> Page, maxPages: nat)
    returns (ending: Ending, calls: nat)
    modifies store
    ensures var c := CrawlFrom(variant, browser, parse, url, 1, 0, maxPages);
      && ending == c.ending && calls == c.calls
      && store.files == ApplyVisits(old(store.files), outputCsv, c.visits)
  {
    ghost var whole := CrawlFrom(variant, browser, parse, url, 1, 0, maxPages);
    ghost var done: seq<Visit> := [];
    ghost var initial := store.files;
    var current := url;
    var pageNum: nat := 1;
    var budget := maxPages;
    calls := 0;
    while true
      invariant var rest := CrawlFrom(variant, browser, parse, current, pageNum, calls, budget);
        && rest.ending == whole.ending && rest.calls == whole.calls && whole.visits == done + rest.visits
      invariant store.files == ApplyVisits(initial, outputCsv, done)
      decreases budget
    {
      if budget == 0 {
        ending := OutOfPages;
        assert done + [] == done;
        return;
      }
      var stop, nextUrl, nextPage, newCalls, nextBudget, visited := VisitPage(variant, current, pageNum, calls, budget, outputCsv, store, browser, parse);
      ApplyVisitsAppend(initial, outputCsv, done, visited);
      AppendAssoc(done, visited, CrawlFrom(variant, browser, parse, nextUrl, nextPage, newCalls, nextBudget).visits);
      done := done + visited;
      calls := newCalls;
      if stop.Some? {
        ending := stop.value;
        assert done + [] == done;
        return;
      }
      current, pageNum, budget := nextUrl, nextPage, nextBudget;
    }
  }

  /**
   * One turn of the loop: load the page at `current` (with retries), parse
   * it, write its records and find the next URL. `stop` is why the crawl
   * ends here, if it does; `visited` is the page written, if any.
   */
  method VisitPage(variant: Variant, current: string, pageNum: nat, calls: nat, budget: nat, outputCsv: string, store: CsvStore, browser: Browser, parse: string -> Page)
    returns (stop: Option<Ending>, nextUrl: string, nextPage: nat, newCalls: nat, nextBudget: nat, ghost visited: seq<Visit>)
    requires budget > 0
    modifies store
    ensures nextPage == pageNum + 1 && nextBudget == budget - 1
    ensures store.files == ApplyVisits(old(store.files), outputCsv, visited)
    ensures var c := CrawlFrom(variant, browser, parse, current, pageNum, calls, budget);
      stop.Some? ==> c == Crawl(visited, stop.value, current, newCalls)
    ensures var after := CrawlFrom(variant, browser, parse, nextUrl, nextPage, newCalls, nextBudget);
      stop.None? ==> CrawlFrom(variant, browser, parse, current, pageNum, calls, budget) == Crawl(visited + after.visits, after.ending, after.lastUrl, after.calls)
  {
    var html;
    html, newCalls := FetchWithRetries(browser, current, calls);
    nextUrl, nextPage, nextBudget := "", pageNum + 1, budget - 1;
    visited := [];
    if html == "" {
      CrawlStops(variant, browser, parse, current, pageNum, calls, budget, html, newCalls);
      stop := Some(Aborted);
      return;
    }
    var page := parse(html);
    var listings := ParseArticlesFromString(page);
    if listings == [] {
      CrawlStops(variant, browser, parse, current, pageNum, calls, budget, html, newCalls);
      stop := Some(NoListings);
      return;
    }
    ghost var before := store.files;
    store.AppendToCsv(listings, outputCsv, pageNum > 1);
    visited := [Visit(pageNum, current, page)];
    ApplyVisitsOne(before, outputCsv, visited[0]);
    var next := ExtractNextPageUrl(page);
    if next.None? || next.value == "" {
      CrawlStops(variant, browser, parse, current, pageNum, calls, budget, html, newCalls);
      stop := Some(NoNextPage);
      return;
    }
    CrawlStep(variant, browser, parse, current, pageNum, calls, budget, html, newCalls, next.value, nextPage, nextBudget);
    nextUrl := NextUrl(variant, current, next.value);
    stop := None;
  }

  /** A page that fails to load, has no records or has no next-page link ends the crawl there. */
  lemma CrawlStops(variant: Variant, browser: Browser, parse: string -> Page, url: string, pageNum: nat, calls: nat, budget: nat, html: string, newCalls: nat)
    requires budget > 0
    requires Retry(browser, url, calls, 0) == Fetched(html, newCalls)
    ensures var c := CrawlFrom(variant, browser, parse, url, pageNum, calls, budget);
      var page := parse(html);
      var next := ExtractNextPageUrl(page);
      && (html == "" ==> c == Crawl([], Aborted, url, newCalls))
      && (html != "" && Placards(page) == [] ==> c == Crawl([], NoListings, url, newCalls))
      && (html != "" && Placards(page) != [] && (next.None? || next.value == "") ==>
            c == Crawl([Visit(pageNum, url, page)], NoNextPage, url, newCalls))
  {
  }

  /** A page with records and a next-page link: the crawl is that page, then the crawl from the next URL. */
  lemma CrawlStep(variant: Variant, browser: Browser, parse: string -> Page, url: string, pageNum: nat, calls: nat, budget: nat,
                  html: string, newCalls: nat, href: string, nextPage: nat, nextBudget: nat)
    requires budget > 0 && nextPage == pageNum + 1 && nextBudget == budget - 1
    requires Retry(browser, url, calls, 0) == Fetched(html, newCalls) && html != ""
    requires Placards(parse(html)) != []
    requires ExtractNextPageUrl(parse(html)) == Some(href) && href != ""
    ensures var c := CrawlFrom(variant, browser, parse, url, pageNum, calls, budget);
      var after := CrawlFrom(variant, browser, parse, NextUrl(variant, url, href), nextPage, newCalls, nextBudget);
      c == Crawl([Visit(pageNum, url, parse(html))] + after.visits, after.ending, after.lastUrl, after.calls)
  {
  }

  /** Writing one page is one `append_to_csv` call. */
  lemma ApplyVisitsOne(files: map<string, seq<Row>>, path: string, v: Visit)
    ensures ApplyVisits(files, path, [v]) == Written(files, path, VisitListings(v), v.pageNum > 1)
  {
  }

  /** Writing some pages and then some more is writing all of them. */
  lemma {:induction false} ApplyVisitsAppend(files: map<string, seq<Row>>, path: string, a: seq<Visit>, b: seq<Visit>)
    ensures ApplyVisits(files, path, a + b) == ApplyVisits(ApplyVisits(files, path, a), path, b)
    decreases |a|
  {
    if a != [] {
      assert (a + b)[0] == a[0];
      assert (a + b)[1..] == a[1..] + b;
      ApplyVisitsAppend(Written(files, path, VisitListings(a[0]), a[0].pageNum > 1), path, a[1..], b);
    } else {
      assert a + b == b;
    }
  }

  // ---------------------------------------------------------------------------
  // What a crawl is

  /** Where the crawl goes after writing `v`: the URL built from its next-page link, or nowhere when the link is missing or empty. */
  function Follow(variant: Variant, v: Visit): Option<string> {
    var next := ExtractNextPageUrl(v.page);
    if next.None? || next.value == "" then None else Some(NextUrl(variant, v.url, next.value))
  }

  function Last(visits: seq<Visit>): Visit
    requires visits != []
  {
    visits[|visits| - 1]
  }

  /** A crawl writes at most one page per unit of its page budget. */
  lemma {:induction false} CrawlLen(variant: Variant, browser: Browser, parse: string -> Page, url: string, pageNum: nat, calls: nat, budget: nat)
    ensures |CrawlFrom(variant, browser, parse, url, pageNum, calls, budget).visits| <= budget
    decreases budget
  {
    if budget > 0 {
      var f := Retry(browser, url, calls, 0);
      CrawlStops(variant, browser, parse, url, pageNum, calls, budget, f.html, f.calls);
      if f.html != "" {
        var page := parse(f.html);
        if Placards(page) != [] {
          var next := ExtractNextPageUrl(page);
          if next.Some? && next.value != "" {
            CrawlStep(variant, browser, parse, url, pageNum, calls, budget, f.html, f.calls, next.value, pageNum + 1, budget - 1);
            CrawlLen(variant, browser, parse, NextUrl(variant, url, next.value), pageNum + 1, f.calls, budget - 1);
          }
        }
      }
    }
  }

  /** A crawl that aborts has just spent `MaxRetries` navigations on its last URL, each of which yielded no page. */
  lemma {:induction false} CrawlAborted(variant: Variant, browser: Browser, parse: string -> Page, url: string, pageNum: nat, calls: nat, budget: nat)
    ensures var c := CrawlFrom(variant, browser, parse, url, pageNum, calls, budget);
      c.ending == Aborted ==> MaxRetries <= c.calls && forall k :: c.calls - MaxRetries <= k < c.calls ==> AttemptHtml(browser(c.lastUrl, k)) == ""
    decreases budget
  {
    if budget > 0 {
      RetryFirstSuccess(browser, url, calls, 0);
      var f := Retry(browser, url, calls, 0);
      CrawlStops(variant, browser, parse, url, pageNum, calls, budget, f.html, f.calls);
      if f.html != "" {
        var page := parse(f.html);
        if Placards(page) != [] {
          var next := ExtractNextPageUrl(page);
          if next.Some? && next.value != "" {
            CrawlStep(variant, browser, parse, url, pageNum, calls, budget, f.html, f.calls, next.value, pageNum + 1, budget - 1);
            CrawlAborted(variant, browser, parse, NextUrl(variant, url, next.value), pageNum + 1, f.calls, budget - 1);
          }
        }
      }
    }
  }

  /** A crawl that stops for want of listings stopped on a page that loaded and held no placard. */
  lemma {:induction false} CrawlNoListings(variant: Variant, browser: Browser, parse: string -> Page, url: string, pageNum: nat, calls: nat, budget: nat)
    ensures var c := CrawlFrom(variant, browser, parse, url, pageNum, calls, budget);
      c.ending == NoListings ==> 0 < c.calls && var html := AttemptHtml(browser(c.lastUrl, c.calls - 1)); html != "" && Placards(parse(html)) == []
    decreases budget
  {
    if budget > 0 {
      RetryFirstSuccess(browser, url, calls, 0);
      var f := Retry(browser, url, calls, 0);
      CrawlStops(variant, browser, parse, url, pageNum, calls, budget, f.html, f.calls);
      if f.html != "" {
        var page := parse(f.html);
        if Placards(page) != [] {
          var next := ExtractNextPageUrl(page);
          if next.Some? && next.value != "" {
            CrawlStep(variant, browser, parse, url, pageNum, calls, budget, f.html, f.calls, next.value, pageNum + 1, budget - 1);
            CrawlNoListings(variant, browser, parse, NextUrl(variant, url, next.value), pageNum + 1, f.calls, budget - 1);
          }
        }
      }
    }
  }

  /** A crawl that stops for want of a next page stopped on the last page it wrote, which has no next-page link. */
  lemma {:induction false} CrawlNoNextPage(variant: Variant, browser: Browser, parse: string -> Page, url: string, pageNum: nat, calls: nat, budget: nat)
    ensures var c := CrawlFrom(variant, browser, parse, url, pageNum, calls, budget);
      c.ending == NoNextPage ==> c.visits != [] && Follow(variant, Last(c.visits)) == None && c.lastUrl == Last(c.visits).url
    decreases budget
  {
    if budget > 0 {
      var f := Retry(browser, url, calls, 0);
      CrawlStops(variant, browser, parse, url, pageNum, calls, budget, f.html, f.calls);
      if f.html != "" {
        var page := parse(f.html);
        if Placards(page) != [] {
          var next := ExtractNextPageUrl(page);
          if next.Some? && next.value != "" {
            var rest := CrawlFrom(variant, browser, parse, NextUrl(variant, url, next.value), pageNum + 1, f.calls, budget - 1);
            assert rest.visits != [] ==> Last([Visit(pageNum, url, page)] + rest.visits) == Last(rest.visits);
            CrawlStep(variant, browser, parse, url, pageNum, calls, budget, f.html, f.calls, next.value, pageNum + 1, budget - 1);
            CrawlNoNextPage(variant, browser, parse, NextUrl(variant, url, next.value), pageNum + 1, f.calls, budget - 1);
          }
        }
      }
    }
  }

  /** Any other stop happens at the start URL or at the URL the last written page links to. */
  lemma {:induction false} CrawlLastUrl(variant: Variant, browser: Browser, parse: string -> Page, url: string, pageNum: nat, calls: nat, budget: nat)
    ensures var c := CrawlFrom(variant, browser, parse, url, pageNum, calls, budget);
      c.ending != NoNextPage ==> if c.visits == [] then c.lastUrl == url else Follow(variant, Last(c.visits)) == Some(c.lastUrl)
    decreases budget
  {
    if budget > 0 {
      var f := Retry(browser, url, calls, 0);
      CrawlStops(variant, browser, parse, url, pageNum, calls, budget, f.html, f.calls);
      if f.html != "" {
        var page := parse(f.html);
        if Placards(page) != [] {
          var next := ExtractNextPageUrl(page);
          if next.Some? && next.value != "" {
            var rest := CrawlFrom(variant, browser, parse, NextUrl(variant, url, next.value), pageNum + 1, f.calls, budget - 1);
            assert rest.visits != [] ==> Last([Visit(pageNum, url, page)] + rest.visits) == Last(rest.visits);
            CrawlStep(variant, browser, parse, url, pageNum, calls, budget, f.html, f.calls, next.value, pageNum + 1, budget - 1);
            CrawlLastUrl(variant, browser, parse, NextUrl(variant, url, next.value), pageNum + 1, f.calls, budget - 1);
          }
        }
      }
    }
  }

  /** A crawl stopped by its page budget wrote exactly as many pages as the budget allowed. */
  lemma {:induction false} CrawlOutOfPages(variant: Variant, browser: Browser, parse: string -> Page, url: string, pageNum: nat, calls: nat, budget: nat)
    ensures var c := CrawlFrom(variant, browser, parse, url, pageNum, calls, budget);
      c.ending == OutOfPages ==> |c.visits| == budget
    decreases budget
  {
    if budget > 0 {
      var f := Retry(browser, url, calls, 0);
      CrawlStops(variant, browser, parse, url, pageNum, calls, budget, f.html, f.calls);
      if f.html != "" {
        var page := parse(f.html);
        if Placards(page) != [] {
          var next := ExtractNextPageUrl(page);
          if next.Some? && next.value != "" {
            CrawlStep(variant, browser, parse, url, pageNum, calls, budget, f.html, f.calls, next.value, pageNum + 1, budget - 1);
            CrawlOutOfPages(variant, browser, parse, NextUrl(variant, url, next.value), pageNum + 1, f.calls, budget - 1);
          }
        }
      }
    }
  }


  /** The pages are numbered `pageNum`, `pageNum + 1`, … in order. */
  predicate NumberedFrom(visits: seq<Visit>, pageNum: nat) {
    forall i :: 0 <= i < |visits| ==> visits[i].pageNum == pageNum + i
  }

  /** The pages a crawl writes are numbered consecutively from the first page number. */
  lemma {:induction false} CrawlNumbered(variant: Variant, browser: Browser, parse: string -> Page, url: string, pageNum: nat, calls: nat, budget: nat)
    ensures NumberedFrom(CrawlFrom(variant, browser, parse, url, pageNum, calls, budget).visits, pageNum)
    decreases budget
  {
    if budget > 0 {
      var f := Retry(browser, url, calls, 0);
      CrawlStops(variant, browser, parse, url, pageNum, calls, budget, f.html, f.calls);
      if f.html != "" {
        var page := parse(f.html);
        if Placards(page) != [] {
          var next := ExtractNextPageUrl(page);
          if next.Some? && next.value != "" {
            CrawlStep(variant, browser, parse, url, pageNum, calls, budget, f.html, f.calls, next.value, pageNum + 1, budget - 1);
            CrawlNumbered(variant, browser, parse, NextUrl(variant, url, next.value), pageNum + 1, f.calls, budget - 1);
          }
        }
      }
    }
  }

  /** Every page a crawl writes holds at least one listing. */
  lemma CrawlNonEmpty(variant: Variant, browser: Browser, parse: string -> Page, url: string, pageNum: nat, calls: nat, budget: nat)
    ensures var visits := CrawlFrom(variant, browser, parse, url, pageNum, calls, budget).visits;
      forall i :: 0 <= i < |visits| ==> VisitListings(visits[i]) != []
  {
    var visits := CrawlFrom(variant, browser, parse, url, pageNum, calls, budget).visits;
    CrawlHasCards(variant, browser, parse, url, pageNum, calls, budget);
    forall i | 0 <= i < |visits| ensures VisitListings(visits[i]) != [] {
      assert visits[i] in visits;
      var cards := Placards(visits[i].page);
      assert |cards| > 0;
      assert |VisitListings(visits[i])| == |cards|;
    }
  }

  /** Every page a crawl writes holds at least one listing card. */
  lemma {:induction false} CrawlHasCards(variant: Variant, browser: Browser, parse: string -> Page, url: string, pageNum: nat, calls: nat, budget: nat)
    ensures forall v :: v in CrawlFrom(variant, browser, parse, url, pageNum, calls, budget).visits ==> Placards(v.page) != []
    decreases budget
  {
    if budget > 0 {
      var f := Retry(browser, url, calls, 0);
      CrawlStops(variant, browser, parse, url, pageNum, calls, budget, f.html, f.calls);
      if f.html != "" {
        var page := parse(f.html);
        if Placards(page) != [] {
          var next := ExtractNextPageUrl(page);
          if next.Some? && next.value != "" {
            CrawlStep(variant, browser, parse, url, pageNum, calls, budget, f.html, f.calls, next.value, pageNum + 1, budget - 1);
            CrawlHasCards(variant, browser, parse, NextUrl(variant, url, next.value), pageNum + 1, f.calls, budget - 1);
          }
        }
      }
    }
  }

  /** A crawl starts at its start URL and each page it writes is the one the previous page links to. */
  lemma {:induction false} CrawlChained(variant: Variant, browser: Browser, parse: string -> Page, url: string, pageNum: nat, calls: nat, budget: nat)
    ensures var visits := CrawlFrom(variant, browser, parse, url, pageNum, calls, budget).visits;
      && (visits != [] ==> visits[0].url == url)
      && forall i :: 0 <= i < |visits| - 1 ==> Follow(variant, visits[i]) == Some(visits[i + 1].url)
    decreases budget
  {
    if budget > 0 {
      var f := Retry(browser, url, calls, 0);
      CrawlStops(variant, browser, parse, url, pageNum, calls, budget, f.html, f.calls);
      if f.html != "" {
        var page := parse(f.html);
        if Placards(page) != [] {
          var next := ExtractNextPageUrl(page);
          if next.Some? && next.value != "" {
            CrawlStep(variant, browser, parse, url, pageNum, calls, budget, f.html, f.calls, next.value, pageNum + 1, budget - 1);
            CrawlChained(variant, browser, parse, NextUrl(variant, url, next.value), pageNum + 1, f.calls, budget - 1);
          }
        }
      }
    }
  }


  /**
   * A crawl navigates at least once per page it writes and at most
   * `MaxRetries` times per page it loads: the pages it writes, and at most
   * one more on which it stopped.
   */
  lemma {:induction false} CrawlCalls(variant: Variant, browser: Browser, parse: string -> Page, url: string, pageNum: nat, calls: nat, budget: nat)
    ensures var c := CrawlFrom(variant, browser, parse, url, pageNum, calls, budget);
      && calls + |c.visits| <= c.calls <= calls + MaxRetries * budget
      && c.calls <= calls + MaxRetries * (|c.visits| + 1)
    decreases budget
  {
    if budget > 0 {
      RetryFirstSuccess(browser, url, calls, 0);
      var f := Retry(browser, url, calls, 0);
      CrawlStops(variant, browser, parse, url, pageNum, calls, budget, f.html, f.calls);
      if f.html != "" {
        var page := parse(f.html);
        if Placards(page) != [] {
          var next := ExtractNextPageUrl(page);
          if next.Some? && next.value != "" {
            CrawlStep(variant, browser, parse, url, pageNum, calls, budget, f.html, f.calls, next.value, pageNum + 1, budget - 1);
            CrawlCalls(variant, browser, parse, NextUrl(variant, url, next.value), pageNum + 1, f.calls, budget - 1);
          }
        }
      }
    }
  }

  // ---------------------------------------------------------------------------
  // The `?sk=` parameter

  /** The `?sk=` tail of a URL is empty or starts with `?sk=`, ends the URL, and is empty exactly when the URL has no `?sk=`. */
  lemma SkSuffixShape(url: string)
    ensures var tail := SkSuffix(url);
      && (tail == "" || OccursAt(tail, "?sk=", 0))
      && EndsWith(url, tail)
      && (tail == "" <==> !Contains(url, "?sk="))
  {
    var k := Find(url, "?sk=", 0);
    if k >= 0 {
      var tail := url[k..];
      assert tail[0..4] == url[k..k + 4];
    }
  }

  /** The current crawl keeps any `?sk=` tail a URL ends with on the URL it goes to next. */
  lemma SkTailKept(current: string, href: string, tail: string)
    requires tail == "" || OccursAt(tail, "?sk=", 0)
    requires EndsWith(current, tail)
    ensures EndsWith(NextUrl(Current, current, href), tail)
  {
    if tail != "" {
      var p := |current| - |tail|;
      assert current[p..p + 4] == tail[0..4];
      assert OccursAt(current, "?sk=", p);
      var k := Find(current, "?sk=", 0);
      assert 0 <= k <= p;
      var sk := current[k..];
      assert sk[|sk| - |tail|..] == current[p..];
      var n := href + sk;
      assert n[|n| - |tail|..] == sk[|sk| - |tail|..];
    }
  }

  /** Every URL the current crawl visits or stops at ends with the `?sk=` tail `tail` that its start URL ends with. */
  lemma {:induction false} CrawlKeepsSkTail(browser: Browser, parse: string -> Page, url: string, pageNum: nat, calls: nat, budget: nat, tail: string)
    requires tail == "" || OccursAt(tail, "?sk=", 0)
    requires EndsWith(url, tail)
    ensures var c := CrawlFrom(Current, browser, parse, url, pageNum, calls, budget);
      && (forall i :: 0 <= i < |c.visits| ==> EndsWith(c.visits[i].url, tail))
      && EndsWith(c.lastUrl, tail)
    decreases budget
  {
    if budget > 0 {
      var f := Retry(browser, url, calls, 0);
      CrawlStops(Current, browser, parse, url, pageNum, calls, budget, f.html, f.calls);
      if f.html != "" {
        var page := parse(f.html);
        if Placards(page) != [] {
          var next := ExtractNextPageUrl(page);
          if next.Some? && next.value != "" {
            CrawlStep(Current, browser, parse, url, pageNum, calls, budget, f.html, f.calls, next.value, pageNum + 1, budget - 1);
            SkTailKept(url, next.value, tail);
            CrawlKeepsSkTail(browser, parse, NextUrl(Current, url, next.value), pageNum + 1, f.calls, budget - 1, tail);
          }
        }
      }
    }
  }

  /**
   * A crawl of src/fetcher.py started at a URL with a `?sk=` parameter visits
   * only URLs that end with the start URL's `?sk=` tail.
   */
  lemma CrawlCarriesSk(browser: Browser, parse: string -> Page, url: string, maxPages: nat)
    requires Contains(url, "?sk=")
    ensures var c := CrawlFrom(Current, browser, parse, url, 1, 0, maxPages);
      forall i :: 0 <= i < |c.visits| ==> EndsWith(c.visits[i].url, SkSuffix(url)) && SkSuffix(url) != ""
  {
    SkSuffixShape(url);
    CrawlKeepsSkTail(browser, parse, url, 1, 0, maxPages, SkSuffix(url));
  }

  /** The older crawl goes to the next-page link exactly as the page gives it. */
  lemma LegacyFollowsHref(v: Visit)
    ensures var next := ExtractNextPageUrl(v.page);
      Follow(Legacy, v) == if next.None? || next.value == "" then None else next
  {
  }

  // ---------------------------------------------------------------------------
  // The output file

  /** Pages after the first append their rows to the file the first one created. */
  lemma {:induction false} ApplyVisitsAppending(files: map<string, seq<Row>>, path: string, visits: seq<Visit>)
    requires path in files
    requires forall i :: 0 <= i < |visits| ==> visits[i].pageNum > 1
    ensures ApplyVisits(files, path, visits) == files[path := files[path] + Rows(AllListings(visits))]
    decreases |visits|
  {
    if visits == [] {
      assert files[path] + Rows([]) == files[path];
      assert files[path := files[path]] == files;
    } else {
      var here := VisitListings(visits[0]);
      var f1 := Written(files, path, here, true);
      WrittenContent(files, path, here, true);
      ApplyVisitsAppending(f1, path, visits[1..]);
      RowsAppend(here, AllListings(visits[1..]));
      AppendAssoc(files[path], Rows(here), Rows(AllListings(visits[1..])));
      assert f1[path := f1[path] + Rows(AllListings(visits[1..]))] == files[path := files[path] + Rows(AllListings(visits))];
    }
  }

  /**
   * A crawl that wrote pages 1, 2, … leaves its file holding one header row
   * and then the rows of every record of every page, in page order, and
   * touches no other file.
   */
  lemma CrawlOutput(files: map<string, seq<Row>>, path: string, visits: seq<Visit>)
    requires visits != [] && visits[0].pageNum == 1
    requires forall i :: 0 < i < |visits| ==> visits[i].pageNum > 1
    ensures ApplyVisits(files, path, visits) == files[path := [Header] + Rows(AllListings(visits))]
  {
    var here := VisitListings(visits[0]);
    var f1 := Written(files, path, here, false);
    WrittenContent(files, path, here, false);
    var later := visits[1..];
    assert forall i :: 0 <= i < |later| ==> later[i].pageNum > 1 by {
      forall i | 0 <= i < |later| ensures later[i].pageNum > 1 {
        assert later[i] == visits[i + 1];
      }
    }
    var rest := AllListings(later);
    assert ApplyVisits(files, path, visits) == ApplyVisits(f1, path, later);
    ApplyVisitsAppending(f1, path, later);
    assert f1[path] == [Header] + Rows(here);
    assert AllListings(visits) == here + rest;
    RowsAppend(here, rest);
    AppendAssoc([Header], Rows(here), Rows(rest));
    assert f1[path] + Rows(rest) == [Header] + Rows(AllListings(visits));
    UpdateTwice(files, path, [Header] + Rows(here), [Header] + Rows(AllListings(visits)));
  }

  lemma UpdateTwice<K, V>(m: map<K, V>, k: K, a: V, b: V)
    ensures m[k := a][k := b] == m[k := b]
  {
  }

  /** The retry loop: at most `MaxRetries` navigations to `url`, stopping at the first that captures HTML; returns that HTML (`""` if none did) and the number of navigations made. */
  method FetchWithRetries(browser: Browser, url: string, calls: nat) returns (html: string, callsAfter: nat)
    ensures Retry(browser, url, calls, 0) == Fetched(html, callsAfter)
  {
    html := "";
    var made := 0;
    var attempt := 0;
    while attempt < MaxRetries && html == ""
      invariant attempt <= MaxRetries
      invariant Retry(browser, url, calls, 0) == if html == "" then Retry(browser, url, calls + made, attempt) else Fetched(html, calls + made)
      invariant html == "" ==> made == attempt
      decreases MaxRetries - attempt, if html == "" then 1 else 0
    {
      var outcome := browser(url, calls + made);
      RetryStep(browser, url, calls + made, attempt);
      made := made + 1;
      if outcome.Response? && outcome.status == 200 {
        html := outcome.body;
      }
      if html == "" {
        attempt := attempt + 1;
      }
    }
    callsAfter := calls + made;
  }
}
