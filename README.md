# property-parser, modelled in Dafny

property-parser scrapes commercial real-estate search results. The model covers three parts of it:

- **The parser** (`src/parser.py`). It reads the listing cards
  (`<article class="placard">`) of a results page. Each card becomes a
  ten-column record: id, link, title, address, location, company, price,
  cap rate, size and the `;`-joined image URLs. The parser also reads the
  next-page link and appends records to a CSV file.
- **The crawler.** It exists in two versions: `src/fetcher.py` and the
  older `fetcher.py`. It loads a page, making up to three attempts. It then
  writes the page's records, with a header only for page 1, and follows the
  next-page link. It stops at the first page that fails to load, has no
  listings or has no next page. The current version carries the search's
  `?sk=` parameter over to each next URL.
- **The self-update check.** It also exists in two versions: `src/update.py`
  and the older `update_and_run.py`. Each reads the last line of the remote
  `versions.txt` (`1.2.0: description`) and a local line. `src/update.py`
  takes the last line of the local `versions.txt`; `update_and_run.py`
  takes the whole local file, stripped. Each splits the lines at the first
  colon and decides whether an update is available. The current version
  also decides which project files an update deletes and which archive
  files it installs.

The modules:

- `wrappers.dfy`: `Option`.
- `dom.dfy`: what the HTML parser and the CSS selectors deliver from a page (module `Dom`).
- `text.dfy`: Python's `strip`, `splitlines()[-1]`, `find`, `split`/`join` and `int` on ASCII digits (module `Text`).
- `parser.dfy`: module `Parser`, with class `CsvStore` for the output files.
- `fetcher.dfy`: module `Fetcher`.
- `update.dfy`: module `Update`.
- `update_and_run.dfy`: module `UpdateAndRun`.

The inputs from the outside world become parameters:

- `Browser` gives the outcome of each navigation, indexed by URL and by a running count of navigations.
- `parse` gives the parsed page for a response body.
- `now` gives the clock reading for the default file name.
- Optional strings stand for the contents of `versions.txt` files; a missing file is `None`.
- The project tree and the update archive are maps from relative paths to contents.

The crawl is the recursive function `Fetcher.CrawlFrom`. The loop methods are proved against it.

## Model

| member | source | states |
|---|---|---|
| Parser.StyleImage | src/parser.py:38-43 | the style image: the text between the first `url(` and the next `)`, unquoted, and only for a style mentioning `background-image`; its contract is in StyleImageOnlyIf, StyleImageRoundTrip and FigureWithBoth |
| Parser.StyleImageOnlyIf | src/parser.py:39-42 | a style gives an image only when it mentions `background-image`, holds `url(` and has a `)` after that `url(` |
| Parser.ImgSource | src/parser.py:45-49 | the `<img>` source; its contract is in ImgSourceChoice and FigureFallsBackToLazySrc |
| Parser.FigureImages | src/parser.py:36-49 | the images of one figure, style image first; its contract is in FigureWithBoth and FigureFallsBackToLazySrc |
| Parser.ListingOf | src/parser.py:10-61 | the record of one card; its contract is in CardFieldDefaults, CardFieldsStripped, PriceIsFirstPriceItem, PositionalFieldsIgnoreNames and ImagesCellRoundTrip |
| Parser.ExtractNextPageUrl | src/parser.py:67-72 | a next URL is only found on a page with a NextPage anchor; the full contract is in NextPageUrlOfFirstAnchor |
| Parser.Written | src/parser.py:74-81 | the files after one `append_to_csv`; its contract is in WrittenContent, ReadFresh, ReadAppended and SinkRoundTrip |
| Parser.Placards | src/parser.py:6 | the `article.placard` cards of a page in document order; its contract is in PlacardsOfPage and PlacardsInDocumentOrder |
| Parser.PriceText | src/parser.py:29-30 | the `Price` cell; its contract is in PriceIsFirstPriceItem and PriceStripped |
| Parser.ImagesOf | src/parser.py:35-49 | the images of a card, at most two per figure, figure after figure; ImagesOfAppend, ImagesOfSnoc and CollectImages give the rest |
| Parser.ListingsOf | src/parser.py:8-65 | one record per card; its contract is in ListingsOfCards and ListingsOfPrefix |
| Parser.ToRow | src/parser.py:76-81 | the cells `DictWriter` writes for a record, in the order of `keys`; RecordsOfRows reads them back as the record |
| Parser.Rows | src/parser.py:81 | `writerows`: one row per record, in order; its contract is in RowsAppend and RecordsOfRows |
| Parser.PlacardsOfPage | src/parser.py:6 | every `article.placard` of the page is found, nothing else is, and none is found exactly when the page has none |
| Parser.PlacardsInDocumentOrder | src/parser.py:6 | cards come out in document order: those of one stretch of the page, then those of the next |
| Parser.PriceIsFirstPriceItem | src/parser.py:29-30 | the price is the stripped text of the first `li[name="Price"]` wherever it stands; it is "upon request" when there is none |
| Parser.PriceStripped | src/parser.py:29-30 | the `Price` cell is stripped, whether it is an item's text or `upon request` |
| Parser.PositionalFieldsIgnoreNames | src/parser.py:27-32 | cap rate and size are taken from items 0 and 1 by position, so a price item in either place is repeated in that column |
| Parser.CardFieldDefaults | src/parser.py:10-32 | each field takes its own default when its element is missing, whatever else the card holds: a missing `data-id`, link, `href`, `title`, subtitle or company name gives `""`; no items give the price "upon request" and no cap rate; fewer than two items give no size |
| Parser.CardFieldsStripped | src/parser.py:10-32 | every field except the image list is stripped, including the price sentinel |
| Parser.ImgSourceChoice | src/parser.py:45-49 | `src or lazy-src`: a non-empty `src` wins, else a non-empty `lazy-src`, else the `<img>` adds nothing |
| Parser.FigureFallsBackToLazySrc | src/parser.py:44-49 | an `<img>` with a missing or empty `src` adds its `lazy-src` after the style image |
| Parser.StyleImageRoundTrip | src/parser.py:38-43 | a `background-image` style whose `url(...)` argument has no `)` gives back that URL, with one level of `"` or `'` quotes removed |
| Parser.FigureWithBoth | src/parser.py:36-49 | a figure with a background image and an `<img src>` contributes both URLs, style first |
| Parser.ImagesOfAppend | src/parser.py:35-49 | the images of two runs of figures are those of the first run, then those of the second |
| Parser.ImagesOfSnoc | src/parser.py:36-49 | one more figure adds its images after those of the figures before it |
| Parser.CollectImages | src/parser.py:35-49 | the image loop collects exactly the images of the figures, in figure order |
| Parser.ImagesCellRoundTrip | src/parser.py:61 | splitting the Images cell at `;` gives back the collected URLs when there is at least one and none holds `;`; with none the cell is empty |
| Parser.ExtractListing | src/parser.py:9-62 | the loop body builds exactly the record that the card's fields specify |
| Parser.ListingsOfCards | src/parser.py:8-65 | record `i` is the record of card `i`, and there is one record per card |
| Parser.ListingsOfPrefix | src/parser.py:9-62 | one more card adds its record after those of the cards before it |
| Parser.ParseArticlesFromString | src/parser.py:4-65 | the records of the page are the records of its cards, in document order |
| Parser.NextPageUrlOfFirstAnchor | src/parser.py:67-72 | the next URL is the `href` of the first NextPage anchor (none when that anchor has no `href`); a page without such an anchor has no next URL |
| Parser.WrittenContent | src/parser.py:74-81 | mode `"w"` replaces the file with the header and the rows; mode `"a"` adds the rows after the file's content, and on a file that does not exist writes the rows without a header |
| Parser.ReadFresh | src/parser.py:76-81 | a file written with `append=False` reads back as exactly the records written |
| Parser.ReadAppended | src/parser.py:75-81 | appending rows to a readable file reads back as the old records followed by the new ones |
| Parser.SinkRoundTrip | src/parser.py:74-81 | a write then an append leave one header and all records in order, and every other file untouched |
| Parser.RowsAppend | src/parser.py:81 | the rows of two batches of records are the rows of the first batch, then those of the second |
| Parser.RecordsOfRows | src/parser.py:76-81 | every written row has one cell per column and reads back as its record |
| Parser.CsvStore.AppendToCsv | src/parser.py:74-81 | the files after the call are those `append_to_csv` leaves: the target is truncated with a header or appended to, and nothing else changes |
| Fetcher.AttemptHtml | src/fetcher.py:25-31 | one attempt captures the body of a 200 response and nothing otherwise; RetryFirstSuccess and CrawlAborted are stated in its terms |
| Fetcher.Retry | src/fetcher.py:19-35 | the retry loop makes at most three navigations; RetryFirstSuccess gives its full contract |
| Fetcher.CrawlFrom | src/fetcher.py:14-59 | the whole crawl; its contract is in CrawlLen, CrawlAborted, CrawlNoListings, CrawlNoNextPage, CrawlLastUrl, CrawlOutOfPages, CrawlNumbered, CrawlNonEmpty, CrawlChained, CrawlCalls and CrawlKeepsSkTail |
| Fetcher.NextUrl | src/fetcher.py:49-55 | the URL after the current one; its contract is in SkTailKept, CrawlCarriesSk and LegacyFollowsHref |
| Fetcher.DefaultOutputName | src/fetcher.py:8-10 | the default output name; its contract is in DefaultOutputNameShape and DefaultOutputNameInjective |
| Fetcher.SkSuffix | src/fetcher.py:52-53 | `current_url[current_url.find("?sk="):]`, or nothing without `?sk=`; its contract is in SkSuffixShape and SkTailKept |
| Fetcher.CrawlPage | src/fetcher.py:41-59 | the crawl after a page loaded; its contract is in CrawlStops and CrawlStep |
| Fetcher.ApplyVisits | src/fetcher.py:42-43 | the files after the crawl wrote its pages; ApplyVisitsOne, ApplyVisitsAppend, ApplyVisitsAppending and CrawlOutput give its contract |
| Fetcher.Timestamp | src/fetcher.py:9 | `strftime("%Y%m%d_%H%M%S")`; its contract is in TimestampShape and TimestampInjective |
| Fetcher.Follow | src/fetcher.py:49-56 | the next URL when the page has a non-empty next link, else none; CrawlChained, CrawlLastUrl and CrawlNoNextPage give its contract |
| Fetcher.RetryFirstSuccess | src/fetcher.py:19-35 | the retry loop keeps the first body it gets, after attempts that got nothing; giving up means three attempts all got nothing |
| Fetcher.FetchWithRetries | src/fetcher.py:19-35 | the retry loop yields the body and the navigation count that the retry specification gives |
| Fetcher.RunCrawl | src/fetcher.py:14-59 | the loop stops for the reason the crawl specification gives, makes the same navigations, and leaves exactly the files the crawl's writes produce |
| Fetcher.VisitPage | src/fetcher.py:19-56 | one pass of the loop writes the page it loads and moves to the next URL and page number; the rest of the crawl goes on from there |
| Fetcher.FetchAllPages | src/fetcher.py:7-59 | writes to the given file, or else to the time-stamped default; the file ends up holding one header and every record of every page written, in page order; no page written leaves the files as they were |
| Fetcher.LegacyFetchAllPages | fetcher.py:4-48 | the same result for the older crawl, written to `parsed_listings.csv` by default |
| Fetcher.CrawlFile | src/fetcher.py:41-47 | the crawl's writes produce one file holding a header and all its records; with no page written the files are unchanged |
| Fetcher.CrawlOutput | src/fetcher.py:43 | `append=(page_num > 1)`: page 1 truncates and writes the header, every later page appends |
| Fetcher.CrawlStops | src/fetcher.py:37-59 | a page that gets no HTML ends the crawl as aborted; one with no card ends it with no listings; one with cards and no usable next link is written and ends it |
| Fetcher.CrawlStep | src/fetcher.py:41-56 | a page with cards and a non-empty next link is written, then the crawl goes on from the next URL with the next page number |
| Fetcher.ApplyVisitsOne | src/fetcher.py:43 | writing one page is one `append_to_csv` with `append=(page_num > 1)` |
| Fetcher.ApplyVisitsAppending | src/fetcher.py:43 | pages after the first add their rows after what the file holds |
| Fetcher.ApplyVisitsAppend | src/fetcher.py:43 | the writes of two runs of pages are those of the first run, then those of the second |
| Fetcher.CrawlAborted | src/fetcher.py:37-39 | a crawl that gives up has just made three navigations of its last URL, all of which got nothing |
| Fetcher.CrawlNoListings | src/fetcher.py:41-47 | a crawl that stops for lack of listings stopped on a page that loaded and held no card |
| Fetcher.CrawlNoNextPage | src/fetcher.py:49-59 | a crawl that stops for lack of a next page stopped on the last page it wrote, which has no next link |
| Fetcher.CrawlLastUrl | src/fetcher.py:49-56 | any other stop is at the start URL or at the URL the last written page links to |
| Fetcher.CrawlNonEmpty | src/fetcher.py:41-47 | every page written holds at least one listing |
| Fetcher.CrawlNumbered | src/fetcher.py:15-56 | pages are numbered 1, 2, 3, … in the order they are written |
| Fetcher.CrawlChained | src/fetcher.py:14-56 | the crawl starts at the given URL, and each page written is the one the previous page links to |
| Fetcher.CrawlCalls | src/fetcher.py:17-35 | at least one navigation per page written; at most three per page loaded, that is three times the pages written plus one; and at most three per unit of page budget |
| Fetcher.CrawlLen | src/fetcher.py:17-59 | no more pages are written than the page budget allows |
| Fetcher.CrawlOutOfPages | src/fetcher.py:17 | a crawl stopped by the page budget wrote exactly that many pages |
| Fetcher.SkSuffixShape | src/fetcher.py:52-53 | the `?sk=` tail starts with `?sk=` and ends the URL; it is empty exactly when the URL holds no `?sk=` |
| Fetcher.SkTailKept | src/fetcher.py:52-55 | a URL ending with a `?sk=` tail passes that tail on to the next URL |
| Fetcher.CrawlKeepsSkTail | src/fetcher.py:49-56 | every URL the current crawl visits or stops at keeps the start URL's `?sk=` tail |
| Fetcher.CrawlCarriesSk | src/fetcher.py:52-55 | a crawl started on a `?sk=` URL visits only URLs ending with that `?sk=` parameter |
| Fetcher.LegacyFollowsHref | fetcher.py:42-45 | the older crawl follows the next link exactly as the page gives it |
| Fetcher.DefaultOutputNameShape | src/fetcher.py:8-10 | the default name is `parsed_listings_`, 8 digits, `_`, 6 digits, `.csv` |
| Fetcher.DefaultOutputNameInjective | src/fetcher.py:9-10 | distinct valid times give distinct default names |
| Fetcher.TimestampShape | src/fetcher.py:9 | the stamp is eight digits, `_`, six digits |
| Fetcher.TimestampInjective | src/fetcher.py:9 | distinct valid times give distinct stamps |
| Update.ParseVersionLine | src/update.py:23-28 | a line without `:` is all version, with an empty description; ParseVersionLineShape and ParseFormatVersionLine give the rest; update_and_run.py:11-16 is the same code and is modelled by the same function |
| Update.IntOf | src/update.py:41 | `int()` succeeds only on digits with optional white space around them; VersionRoundTrip and EmptyPartRejected are stated in its terms |
| Update.VersionToTuple | src/update.py:40-41 | a tuple read from a version has at least one part; its contract is in VersionRoundTrip and EmptyPartRejected |
| Update.IsUpdateAvailable | src/update.py:44-53 | comparing full lines reports any difference; the version comparison's contract is in UpdateOnlyWhenNewer, VersionsCompareAsNumbers and UpdateChains |
| Update.LocalVersionLine | src/update.py:31-37 | a missing file reads as `0.0.0: (no local version)`; its contract is in LocalVersionLineShape, LocalVersionLineOfHistory, LocalVersionLineOfOneLine and NoLocalVersionIsZero |
| Update.DropFinalBreak | src/update.py:19 | the text without its final line break is a prefix of it; RemoteVersionLineOfHistory gives its effect on the remote line |
| Update.Deletions | src/update.py:83-98 | the deleted files are at most the project files; DeletionsExactly, DeletionsSnoc and SelectDeletions give its contract |
| Update.Installs | src/update.py:102-112 | the installed files are at most the archive files; InstallsExactly, InstallsSnoc and SelectInstalls give its contract |
| Update.UpdatedTree | src/update.py:83-112 | the project tree after an update; its contract is in UpdatedTreeContents and UpdateSparesExcluded |
| Update.TupleLess | src/update.py:53 | Python's `<` on tuples of integers; its contract is in TupleLessAt, TupleLessIrreflexive, TupleLessAsymmetric, TupleLessTransitive and TupleLessTotal |
| Update.CurrentLine | src/update.py:34-35 | the last line of the stripped text, stripped, or the 0.0.0 line for blank text; LocalVersionLineShape, LocalVersionLineOfHistory and LocalVersionLineOfOneLine give its contract |
| Update.Walked | src/update.py:83-85 | the walk reaches a file when no directory on its path is excluded; DeletionsExactly states its role |
| Update.IsCsv | src/update.py:89-91 | the file name ends with `.csv`; DeletionsExactly and InstallsExactly state its role |
| Update.Obsolete | src/update.py:87-93 | reached by the walk, not a CSV file, not in the archive; DeletionsExactly and DeletionsSnoc state its role |
| Update.ParseVersionLineShape | src/update.py:23-28 | both parts come back stripped, and the version never holds a colon |
| Update.ParseFormatVersionLine | src/update.py:23-28 | a `version: description` line splits back into its stripped version (no colon) and its description |
| Update.ParseFormatVersion | src/update.py:23-28 | the version of a formatted line comes back whatever the description says |
| Update.VersionRoundTrip | src/update.py:40-41 | every non-empty tuple is read back from its dotted form |
| Update.IntsOfDecimal | src/update.py:40-41 | `int` reads every decimal part of a tuple back as its number |
| Update.EmptyPartRejected | src/update.py:40-41 | a version with an empty part (`""`, `1..2`, `1.2.`) makes `int` fail |
| Update.IntsOfNone | src/update.py:40-41 | one part that `int` rejects rejects the whole tuple |
| Update.TupleLessAt | src/update.py:53 | tuple `<` is the first-difference rule, with a proper prefix smaller than the whole |
| Update.TupleLessIrreflexive | src/update.py:53 | no tuple is smaller than itself |
| Update.TupleLessAsymmetric | src/update.py:53 | of two tuples, at most one is smaller than the other |
| Update.TupleLessTransitive | src/update.py:53 | the tuple order is transitive |
| Update.TupleLessTotal | src/update.py:53 | two different tuples are ordered one way or the other |
| Update.UpdateOnlyWhenNewer | src/update.py:50-53 | an update is reported if and only if the remote version tuple is strictly greater: never for the same or an older version, and never both ways |
| Update.UpdateChains | src/update.py:50-53 | updates seen step by step from a to b and from b to c are seen from a to c |
| Update.VersionsCompareAsNumbers | src/update.py:50-53 | versions compare part by part as numbers, whatever the descriptions say |
| Update.LocalVersionLineShape | src/update.py:31-37 | the local line is never empty, is stripped and holds no line break; a blank file reads as no local version |
| Update.StrippedLastLine | src/update.py:34-35 | the last line of a non-empty stripped text, stripped, is non-empty, stripped and unbroken |
| Update.LocalVersionLineOfHistory | src/update.py:34-35 | a file whose last line is `line` reads as `line`, whatever lines come before and whatever white space (a final newline, blank lines) follows |
| Update.LocalVersionLineOfOneLine | src/update.py:34-35 | a one-line file reads as that line, with or without a final newline or other trailing white space |
| Update.NoLocalVersionIsZero | src/update.py:35-37 | a missing or blank `versions.txt` counts as version 0.0.0 |
| Update.RemoteVersionLine | src/update.py:17-20 | there is a line exactly when the remote text is non-empty; an empty text makes `lines[-1]` fail; update_and_run.py:6-9 is the same code and is modelled by the same function |
| Update.RemoteVersionLineOfHistory | src/update.py:19-20 | a remote file of several lines whose last line is `line` gives `line`, with or without a final newline |
| Update.RemoteVersionLineOfOneLine | src/update.py:19-20 | a remote file of the single line `line` gives `line`, with or without a final newline |
| Update.DeletionsExactly | src/update.py:83-98 | a file is deleted exactly when the walk reaches it, it is not a CSV file and the archive lacks it |
| Update.DeletionsSnoc | src/update.py:83-98 | one more walked file is deleted after the others exactly when it is obsolete |
| Update.SelectDeletions | src/update.py:83-98 | the deletion loop picks exactly those files, in walk order |
| Update.InstallsExactly | src/update.py:102-112 | a file is installed exactly when it is an archive file and not a CSV file |
| Update.InstallsSnoc | src/update.py:102-112 | one more archive file is installed after the others exactly when it is not a CSV file |
| Update.SelectInstalls | src/update.py:102-112 | the move loop picks exactly those files, in archive order |
| Update.UpdatedTreeContents | src/update.py:79-112 | after an update, CSV files are unchanged, non-CSV archive files hold the archive's content, and the rest is what was kept |
| Update.UpdateSparesExcluded | src/update.py:80-97 | files under excluded directories, and files that cannot be deleted, survive unless the archive replaces them |
| UpdateAndRun.LocalVersionLine | update_and_run.py:18-23 | a missing file reads as `0.0.0: (no local version)`, an existing one as its whole text, stripped; SavedLineReadsBack, LocalLinesAgreeOnOneLine and BlankFileReadsEmpty give the rest |
| UpdateAndRun.SaveLocalVersionLine | update_and_run.py:25-27 | the saved file holds the line; its contract is in SavedLineReadsBack and UpToDateAfterSave |
| UpdateAndRun.IsUpdateAvailable | update_and_run.py:29-38 | `!=` on the lines or on their versions; its contract is in FullLineChecksAgree, VersionChecksAgreeOnUpgrades and DowngradeReported |
| UpdateAndRun.SavedLineReadsBack | update_and_run.py:18-27 | a stripped line, once saved, is read back as the local line |
| UpdateAndRun.UpToDateAfterSave | update_and_run.py:25-46 | once the remote line is saved, neither comparison reports an update |
| UpdateAndRun.LocalLinesAgreeOnOneLine | update_and_run.py:18-23 | on a one-line file, with or without trailing white space, both versions read the same local line |
| UpdateAndRun.BlankFileReadsEmpty | update_and_run.py:21 | a blank file reads as the empty line here, but as version 0.0.0 in src/update.py |
| UpdateAndRun.FullLineChecksAgree | update_and_run.py:33-34 | comparing full lines, both versions give the same answer |
| UpdateAndRun.VersionChecksAgreeOnUpgrades | update_and_run.py:35-38 | every update src/update.py reports is reported here too; the same version is no update for either |
| UpdateAndRun.DowngradeReported | update_and_run.py:38 | an older remote version is reported as an update here, where src/update.py reports none |

## Left out

- Fetching pages and reading `versions.txt` are left out.
  - HTML parsing, Playwright navigation, the 30-second timeout, the two-second sleeps and the URL fetches are I/O.
  - They become the parameters `parse` and `browser` and the text of `versions.txt`.
  - A navigation that raises and a response without a status both count as an attempt that got nothing.
- Logging is left out: `log_message` and `print` have no effect on the model's state.
- `src/fetcher.py` imports `log_message` from `gui`. `src/gui.py` is not part of this model.
- Fetcher.LegacyFetchAllPages: `fetcher.py` imports a root-level `parser` module, which is not part of this model. The older crawl is modelled with the card extraction, next link and CSV sink of `src/parser.py` (`Parser.Placards`, `Parser.ListingsOf`, `Parser.ExtractNextPageUrl`, `Parser.Written`).
- Fetcher.CrawlFrom: the source loop is unbounded. The model takes a page budget `maxPages`, and a crawl that reaches it ends with `OutOfPages`. Every other ending is exactly as in the source.
- Both versions of `fetch_all_pages` parse each response twice, once for the records and once for the next link. The model parses it once; `parse` is deterministic.
- `page.close()` and `context.new_page()` are left out.
- Concurrency is left out. `src/fetcher.py` is `async`, but one crawl loads one page at a time, so the model runs one crawl at a time.
- Parser.CsvStore.AppendToCsv: a file is a sequence of rows of cells. CSV quoting, the UTF-8 encoding and line endings are left out.
- Parser.CsvStore.AppendToCsv and Fetcher.CrawlFrom: write errors are not modelled. `open(output_csv, mode)` raises `OSError` when the path is a directory, has a missing parent directory or lacks permission. That error leaves `fetch_all_pages` and ends the crawl. In the model every write succeeds and the crawl goes on.
- The `Images` round trip is stated only for URLs without `;`, since the join is not reversible otherwise.
- Update.IntOf: `int()` is modelled on ASCII digits with surrounding white space. Signs, `_` separators and non-ASCII digits are left out.
- `.decode()` of the remote bytes is left out. The model reads the text as given.
- Fetcher.DefaultOutputName: `strftime("%Y%m%d_%H%M%S")` is modelled for four-digit years (1000 to 9999), where `%Y` has no padding question. Injectivity is stated for field-wise valid times, without month lengths.
- Update.UpdatedTree models the file operations of `download_and_replace_update` as a map from paths to contents. The download, unzip, `rmtree`, `makedirs` and `execv` are left out. So are directories and OS errors other than a file that cannot be deleted (the `locked` set).
- The `__main__` flow of `src/update.py` (lines 117-136) is left out. It is I/O around `is_update_available` and `download_and_replace_update`.
- The module-level use of `update_and_run.py` (lines 41-48) is left out. `UpToDateAfterSave` states what saving the remote line achieves.
- Other files are not part of this model: `main.py`, `src/main.py`, `searcher.py`, `src/searcher.py`, `src/gui.py`, `src/cleanup.py`.
- `select_one` returns the first NextPage anchor. When that anchor has no `href`, `extract_next_page_url` returns `None`, even if a later anchor has one; `Parser.ExtractNextPageUrl` does the same.
- A version part that `int()` rejects raises `ValueError` in `version_to_tuple`. In the model, `Update.VersionToTuple` and `Update.IsUpdateAvailable` give `None` for it.

## Findings

| source | as written | input that shows it | evidently intended | confidence | as-written member | corrected member |
|---|---|---|---|---|---|---|
| update_and_run.py:38 | `remote_version != local_version` reports an update whenever the versions differ | remote `1.0.0: x`, local `1.2.0: y` | report an update only when the remote version is newer, as src/update.py:50-53 does | not executed | UpdateAndRun.DowngradeReported | Update.UpdateOnlyWhenNewer |
