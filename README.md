# Berkeleyside scraper: a Dafny model of its crawl and ingest control

`berkeleyside_scraper.py` collects news articles from the Berkeleyside site in two modes.

- **Discovery** (no input csv named). It walks the archive pages
  `http://www.berkeleyside.com/<category>/page/<n>` of one fixed category (`city`),
  from the global `cur_page` upwards. Before each request it sleeps 5 seconds. It stops
  at the first page that carries the not-found marker. For every other page it appends
  the rows `[id, url]` of that page's listing to `<csv_name>.csv`, and it ends early
  when one of those rows cannot be written.
- **Ingest** (an input csv of `(id, url)` rows). It fetches each selected article,
  appends the row `[tags, sections, author, date, text]` to the output csv and sleeps 5
  seconds after each one. With a restart id, rows are skipped until the first row
  carrying that id; from there on, inclusive, every row is processed.

Both modes first write a readme file `<name>_readme.txt` holding the retrieval time.

The model has eight modules, one per concern of the program:

| module | file | what it holds |
|---|---|---|
| `Csv` | csv.dfy | rows and cells, the writer's encodability rule, the output directory as a map from file name to rows |
| `Site` | site.dfy | the parsed page (`Document`), `error_page`, the category constants, `str()` of a page number, the archive URL |
| `Listing` | listing.dfy | `get_ids`, and which rows `write_to_csv` writes before it finishes or raises |
| `Articles` | articles.dfy | the article row and when writing it raises |
| `Restart` | restart.dfy | `process_id` and the values the `found_restart` flag takes |
| `Walk` | walk.dfy | the discovery walk as a function, `WalkFrom`, and its properties |
| `Ingest` | ingest.dfy | the ingest loop as functions: the rows selected, the event log, the rows written |
| `Scraper` | scraper.dfy | class `Crawler`: the imperative program over its mutable state |

`Crawler` has these fields:

- `curPage`: the global `cur_page`;
- `files` and `readmes`: what the program writes;
- `log`: every `time.sleep` and every request, in order.

The site is the constructor parameter `site: string -> Document`. It stands for the response to a request after HTML parsing and field extraction.

Two ghost constants name the two halves of the site that the proofs use:

- `pages` is the archive as the walk sees it;
- `written` gives the rows each article leaves.

`Valid()` ties both to `site`, and the constructor sets them to `Archive(site)` and `Written(site)`.

The loops are proved against the specification functions:

- `Crawler.WalkArchive` against `Walk.WalkFrom`;
- `Crawler.IngestEvery` and `Crawler.IngestFromRestart` against `Ingest.Selected`, `Ingest.IngestLog` and `Ingest.ArticleRows`;
- `Listing.GetIds` against `Listing.ListingIds`;
- `Crawler.WriteToCsv` against `Listing.PairsWritten` and `Listing.PairRows`.

Lemmas then state what those functions mean: order, first stop, suffix selection, one delay per fetch and read-back of rows.

Modelling decisions:

- `write_to_csv` can raise in two ways, and the exception is not caught.
  - `urls[i]` may be missing (IndexError).
  - Python 2's csv writer may fail to encode a non-ASCII unicode cell (UnicodeEncodeError).

  When either happens the rows written so far stay in the file and the run ends. The walk's result records this as `completed == false`.
- A failure in `write_article_to_csv` is caught. The article then leaves no row and the loop goes on.
- A list cell is written as its `repr`, which escapes non-ASCII characters, so it never raises.
- `restart is ''` is modelled as string equality with the empty string.
- In discovery mode the program reads `datetime.now()` twice when `csv_out` is empty (once for the csv name, line 108, and once for the readme, line 63), otherwise once. The two readings are separate parameters, `nameStamp` and `readmeStamp`. `CsvName` ignores `nameStamp` when `csv_out` is given.
- The walk ends at the first page that is the not-found page or whose listing cannot be written. On a site where no page from `cur_page` on does either, it loops forever. The model therefore takes a ghost page `last` at which the walk is known to stop. `Walk.WalkBoundIrrelevant` shows the result does not depend on which such page is chosen.

The script keeps no set of already-seen ids, has no year test on the urls and never changes category: the only stop of the walk is the one above.

Other behaviour of the code that the model keeps as written:

- Discovery appends `".csv"` to the output name, even to the default `articles.csv`, which gives `articles.csv.csv`.
- Ingest writes to the output name exactly as given.

## Model

| member | source | states |
|---|---|---|
| Csv.Ascii | berkeleyside_scraper.py:84 | a string Python 2's csv writer encodes with the ASCII codec: every character below 128 |
| Csv.Encodable | berkeleyside_scraper.py:84 | a text cell encodes when ASCII; a list cell is written as its `repr` and always encodes |
| Csv.RowEncodable | berkeleyside_scraper.py:84 | `writerow` succeeds exactly when every cell encodes, and otherwise writes nothing |
| Csv.Appended | berkeleyside_scraper.py:81-84 | a file opened with mode 'a' ends with its old rows followed by the new ones |
| Csv.AppendedElsewhere | berkeleyside_scraper.py:81-84 | appending to one file leaves every other file as it was, and the file is created only when a row is written |
| Csv.AppendedTwice | berkeleyside_scraper.py:83-84 | two successive appends to one file are one append of both, in order |
| Site.ErrorPage | berkeleyside_scraper.py:100-103 | `error_page`: the page carries the element of class "error-404 not-found main-page" |
| Site.NatToString | berkeleyside_scraper.py:115 | `str(cur_page)` is a non-empty run of decimal digits, with no leading zero unless it is "0", that reads back as the page number |
| Site.ArchiveUrl | berkeleyside_scraper.py:115 | the archive URL `base_url + "/" + category + "/page/" + str(page)` |
| Site.PageUrl | berkeleyside_scraper.py:115 | the archive URL of a page of `categories[chosen_category]`, the one category the program uses |
| Site.PageUrlInjective | berkeleyside_scraper.py:115 | different page numbers give different archive URLs |
| Listing.StripIdPrefix | berkeleyside_scraper.py:96 | `id_[5:]` removes exactly the first five characters, and a shorter id becomes empty |
| Listing.StripPostPrefix | berkeleyside_scraper.py:95-96 | the element id "post-N" yields the article id N |
| Listing.ListingIds | berkeleyside_scraper.py:92-97 | one id per `article` element |
| Listing.GetIds | berkeleyside_scraper.py:86-98 | the urls are the entry-title hrefs in document order; the ids are the article element ids with the prefix stripped, one per element, in order |
| Listing.PairRow | berkeleyside_scraper.py:84 | the discovery row `[ids[i], urls[i]]` |
| Listing.PairWritable | berkeleyside_scraper.py:84 | iteration i of `write_to_csv` writes its row: `urls[i]` exists (otherwise IndexError) and the row encodes (otherwise UnicodeEncodeError) |
| Listing.ParsePairRow | berkeleyside_scraper.py:84 | every row that reads back as a pair is the row written for that pair |
| Listing.ParsePairRowOf | berkeleyside_scraper.py:84 | the row `[id, url]` reads back as `(id, url)` |
| Listing.PairsWritten | berkeleyside_scraper.py:80-84 | `write_to_csv` writes no more rows than there are ids or urls |
| Listing.PairsWrittenFirstFailure | berkeleyside_scraper.py:83-84 | every iteration before the count succeeds, and the one at the count raises: the writes stop at the first failure |
| Listing.PairRows | berkeleyside_scraper.py:83-84 | the rows written for the first n iterations number n |
| Listing.PairRowsParse | berkeleyside_scraper.py:83-84 | row i of the discovery output reads back as `(ids[i], urls[i])`, in index order |
| Listing.PairRowEncodable | berkeleyside_scraper.py:84 | a discovery row can be written exactly when the id and the url are both ASCII |
| Listing.PairsWrittenAll | berkeleyside_scraper.py:80-84 | `write_to_csv` writes all `len(ids)` rows exactly when there is a url for every id and every row can be encoded |
| Articles.ArticleRow | berkeleyside_scraper.py:142 | the article row `[tags, sections, author, date, text]`, the list fields as list cells |
| Articles.ParseArticleRow | berkeleyside_scraper.py:142 | every row that reads back as an article is the row written for it |
| Articles.ParseArticleRowOf | berkeleyside_scraper.py:142 | the row `[tags, sections, author, date, text]` reads back as the article, with each field in its place |
| Articles.ArticleRowEncodable | berkeleyside_scraper.py:141-144 | writing the article row raises exactly when the author, the date or the text is not ASCII |
| Articles.WrittenArticle | berkeleyside_scraper.py:140-145 | an article leaves at most one row; it leaves one exactly when the row can be encoded, and that row reads back as the article |
| Restart.ProcessId | berkeleyside_scraper.py:173-179 | true whenever `found` is true; otherwise true exactly when the id equals the restart id |
| Restart.RestartIndex | berkeleyside_scraper.py:192-196 | the position of the first id equal to the restart id, or the length when there is none |
| Restart.Trace | berkeleyside_scraper.py:192-194 | the flag takes one value per input row |
| Restart.TraceStep | berkeleyside_scraper.py:194 | the flag after row i is `process_id` of row i's id and the flag before it, the starting value for the first row |
| Restart.TraceFromFound | berkeleyside_scraper.py:174-175 | once the flag is true at the start, it is true after every row |
| Restart.TraceMonotone | berkeleyside_scraper.py:192-196 | `found_restart` never goes back from true to false |
| Restart.TraceMarksRestart | berkeleyside_scraper.py:192-196 | after row i the flag is true exactly when the restart id first occurs at or before i |
| Ingest.Ids | berkeleyside_scraper.py:194 | `row[0]` of every input row, in order |
| Ingest.Urls | berkeleyside_scraper.py:189 | `row[1]` of every input row, in order |
| Ingest.Selected | berkeleyside_scraper.py:187-199 | with no restart id, all rows; with one, the suffix from the first row carrying it (inclusive), no skipped row carries it, and nothing when no row does |
| Ingest.SelectedByFlag | berkeleyside_scraper.py:192-199 | in restart mode, a row is processed exactly when `found_restart` is true after it, and exactly the selected suffix has that |
| Ingest.IngestLog | berkeleyside_scraper.py:189-190 | two events per processed article |
| Ingest.IngestLogSnoc | berkeleyside_scraper.py:196-197 | processing one more article adds its request followed by one 5-second sleep |
| Ingest.WrittenIsWritten | berkeleyside_scraper.py:168-171 | `Written(site)` gives, for every url, the rows its article leaves |
| Ingest.Written | berkeleyside_scraper.py:168-171 | for each url, the rows `process_article` leaves: those of the fields the site serves for it |
| Ingest.ArticleRows | berkeleyside_scraper.py:187-197 | the rows the ingest loop writes for the processed urls, each url's rows in turn |
| Ingest.ArticleRowsSnoc | berkeleyside_scraper.py:189 | one more article appends its rows after those of the articles before it |
| Ingest.ArticleRowsAtMost | berkeleyside_scraper.py:140-145 | ingest writes at most one row per processed url |
| Ingest.ArticleRowsAllWritten | berkeleyside_scraper.py:187-190 | when every article can be written, the output is exactly one article row per processed url, in input order |
| Walk.PageOutput | berkeleyside_scraper.py:117-120 | the rows a fetched page adds: none for the not-found page, otherwise the rows `write_to_csv` gets out for its listing |
| Walk.Stops | berkeleyside_scraper.py:117-120 | the loop ends at a page that is the not-found page (`break`) or whose listing cannot be written in full (the exception) |
| Walk.Visit | berkeleyside_scraper.py:114-120 | one pass of the loop on one requested URL: the URL, the not-found flag, the rows and whether the loop ends there |
| Walk.Archive | berkeleyside_scraper.py:115-116 | page p of the walk is the visit of what the site serves at page p's archive URL |
| Walk.WalkFrom | berkeleyside_scraper.py:112-121 | the `while(True)` loop from a page on: sleep, request, end at a stopping page, otherwise write the listing and go to the next page |
| Walk.ArchiveIsArchive | berkeleyside_scraper.py:115-116 | `Archive(site)` gives, for every page, what the site serves at that page's URL |
| Walk.ArchivePage | berkeleyside_scraper.py:115-120 | page p is requested at its archive URL; it stops the walk exactly when `Stops` holds of its document and adds that document's listing; the not-found page stops the walk and adds no rows |
| Walk.WalkAdvance | berkeleyside_scraper.py:119-121 | after a page that does not stop the walk, the pages done gain its rows and its visit, and the walk goes on at the next page, which exists before `last` |
| Walk.WalkFinish | berkeleyside_scraper.py:117-120 | at a page that stops the walk, the whole walk is the pages done followed by that page, ending there |
| Walk.WalkBoundIrrelevant | berkeleyside_scraper.py:112-121 | the walk's result does not depend on which stopping page bounds it |
| Walk.VisitLog | berkeleyside_scraper.py:114-116 | one pass of the loop causes the 5-second sleep and then the request of the page's URL, in that order |
| Walk.Visits | berkeleyside_scraper.py:114-116 | two events per page visited |
| Walk.ConcatOutputsSnoc | berkeleyside_scraper.py:119-121 | one more page adds its rows after those of the pages before it |
| Walk.VisitsCons | berkeleyside_scraper.py:114-116 | the visits of a range of pages are the first page's sleep and request, followed by the visits of the rest |
| Walk.WalkEndsAtStop | berkeleyside_scraper.py:112-121 | the walk ends at a stopping page at or before `last`, and it completed exactly when that page is the not-found page |
| Walk.WalkStopsAtFirst | berkeleyside_scraper.py:117-121 | no page before the last one stops the walk |
| Walk.WalkSchedule | berkeleyside_scraper.py:112-121 | the walk visits pages start, start + 1, ... in order, with one sleep before every request, the last request included |
| Walk.ArchiveSchedule | berkeleyside_scraper.py:112-121 | on the site, event 2k is a 5-second sleep and event 2k + 1 requests the URL of page start + k in the one fixed category |
| Walk.WalkRows | berkeleyside_scraper.py:117-121 | the rows appended are the outputs of the visited pages concatenated in page order |
| Walk.ArchiveEnd | berkeleyside_scraper.py:112-121 | on the site, the walk stops at the first not-found page, or at the first page whose listing cannot be written in full; a completed walk wrote nothing for the not-found page, only the listings before it |
| Walk.PageOutputFull | berkeleyside_scraper.py:119-120 | a page that does not stop the walk contributes its whole listing, row i of which reads back as `(ids[i], urls[i])` |
| Scraper.CsvName | berkeleyside_scraper.py:108 | the discovery name is `csv_out` when given, otherwise "urls_and_ids" followed by the time stamp |
| Scraper.Crawler.constructor | berkeleyside_scraper.py:32 | the run starts at `cur_page = 1` with nothing requested yet |
| Scraper.Crawler.MakeReadme | berkeleyside_scraper.py:61-63 | (over)writes `<name>_readme.txt` with "<name> was retreived on: <stamp>" and nothing else |
| Scraper.Crawler.Sleep | berkeleyside_scraper.py:114 | records one 5-second sleep |
| Scraper.Crawler.GetSoup | berkeleyside_scraper.py:65-71 | records one request to the url and returns the site's answer for it |
| Scraper.Crawler.WriteRow | berkeleyside_scraper.py:84 | appends the row when every cell can be encoded, and otherwise writes nothing and reports the failure |
| Scraper.Crawler.WriteToCsv | berkeleyside_scraper.py:80-84 | appends `[ids[i], urls[i]]` for every i before the first failing iteration, and succeeds exactly when all `len(ids)` rows were written |
| Scraper.Crawler.GetListOfArticles | berkeleyside_scraper.py:107-122 | writes the readme, then appends exactly the walk's rows to `<csv_name>.csv`, logs exactly its sleeps and requests, and leaves `cur_page` at the page where it stopped |
| Scraper.Crawler.WalkArchive | berkeleyside_scraper.py:112-121 | the `while(True)` loop produces exactly `WalkFrom`: its rows, its events, its final page and whether it ended at the `break` |
| Scraper.Crawler.WalkPage | berkeleyside_scraper.py:114-121 | one pass of the loop moves one page from the walk still to do into the rows and events already done |
| Scraper.Crawler.VisitArchivePage | berkeleyside_scraper.py:114-120 | sleep, request page `cur_page`, and write its listing unless it is the not-found page; `break` exactly at the not-found page |
| Scraper.Crawler.WriteArticleToCsv | berkeleyside_scraper.py:140-145 | appends the article row, or nothing when writing it raised |
| Scraper.Crawler.ProcessArticle | berkeleyside_scraper.py:168-171 | requests the article once and appends the rows its fields leave |
| Scraper.Crawler.GetDataForArticles | berkeleyside_scraper.py:181-199 | writes the readme, then processes exactly the selected rows in order, one request and one sleep each, and appends their article rows to `csv_out` |
| Scraper.Crawler.IngestEvery | berkeleyside_scraper.py:187-190 | without a restart id, every input url is processed once, in order, with one sleep after each |
| Scraper.Crawler.IngestFromRestart | berkeleyside_scraper.py:191-199 | with a restart id, exactly the urls from the first row carrying it onwards are processed, and skipped rows cause no request and no sleep |
| Scraper.Crawler.ProcessAndWait | berkeleyside_scraper.py:196-197 | one processed row adds its request, its sleep and its article rows to the ingest account |
| Scraper.Crawler.Run | berkeleyside_scraper.py:205-210 | discovery when no input csv is named, with the walk's rows, events, final `cur_page`, completion and readme; ingest otherwise, with the selected urls' rows and events, its readme and `cur_page` unchanged |
| Scraper.ReadmeName | berkeleyside_scraper.py:62 | the readme of output `name` is `name + "_readme.txt"` |
| Scraper.ReadmeText | berkeleyside_scraper.py:63 | the readme holds "<name> was retreived on: <time>" |

## Left out

- HTTP requests and HTML parsing (`get_soup`, `error_page`'s query, `find_all`) are left out. The site is a function from URL to a parsed `Document`, a parameter of the model. The progress dots written to stdout are not modelled.
- The field extractors `get_text`, `get_tags`, `get_sections`, `get_author` and `get_date` are part of that function: `Document.fields` is their result. This includes `unidecode`, so the model allows any author and text, not only ASCII ones.
- A missing `href` (line 90) or a missing date `content` (line 166) is `None`, which Python 2's csv writer writes as an empty cell; the model covers it as the empty string in the `Document`.
- An `article` element without an `id` raises TypeError at `id_[5:]` (line 96), and a missing "pf-content" or "author vcard" element raises AttributeError (lines 148 and 163). These failures are not modelled, because a `Document` always carries strings.
- `time.sleep` is a `Sleep(5)` event in the log, not a passage of time.
- `datetime.datetime.now()` is the `nameStamp` and `readmeStamp` parameters.
- `print` messages and stdout output are left out.
- `get_args` and argparse are reduced to the parameters of `Crawler.Run`. The unused `--header` option is not modelled.
- Opening and reading the input csv is left out: the input is a sequence of `(row[0], row[1])` pairs, so every input row has two cells. Shorter rows are not modelled. In the source they raise IndexError in three cases: any such row without a restart id (`row[1]`, line 189); an empty row in restart mode (`row[0]`, line 194); and a one-cell row once `found_restart` is true (`row[1]`, line 196). A one-cell row before the restart row is read only at `row[0]` and is skipped without error.
- The site answers a given URL the same way every time, because it is a fixed function. An article requested twice, for instance from a duplicate input row, gets the same document both times.
- The csv dialect, quoting and line format are left out: a file is its sequence of rows.
- Creating an empty file when nothing is written is not modelled: `open(..., 'a')` creates the file even then, but the directory map only gains a key when a row is appended.
- Scraper.Crawler.GetListOfArticles: requires, as the ghost `last`, a page at or after `cur_page` at which the walk stops (the not-found page or a listing that cannot be written). Only when no such page exists does the source loop forever, and that infinite run is not modelled.
- Exceptions other than the two `write_to_csv` failures and the caught article-write failure are not modelled. On an uncaught failure, the model returns with `completed == false` instead of ending the process.
- `restart is ''` compares identity in Python; the model uses string equality, which is what the code evidently means.
