/** The scraper's two pipelines as imperative code over the program's mutable state:
    the `cur_page` global, the csv and readme files, and the events at the site. */
module Scraper {
  import opened Csv
  import opened Site
  import opened Listing
  import opened Articles
  import opened Restart
  import opened Walk
  import opened Ingest

  /** The discovery output's base name: `csv_out` when not empty, otherwise
      "urls_and_ids" followed by the current time. */
  function CsvName(csvOut: string, stamp: string): (name: string)
    ensures csvOut != "" ==> name == csvOut
    ensures csvOut == "" ==> name == "urls_and_ids" + stamp
  {
    if csvOut != "" then csvOut else "urls_and_ids" + stamp
  }

  function ReadmeName(csvName: string): string
  {
    csvName + "_readme.txt"
  }

  function ReadmeText(csvName: string, stamp: string): string
  {
    csvName + " was retreived on: " + stamp
  }

  /** One run of the script. `site` answers every request (the network and the
      HTML parser); `files` and `readmes` are the directory the script writes to;
      `log` records every sleep and every request, in order. */
  class Crawler {
    const site: string -> Document
    /** The archive pages of the category and the rows each article leaves, as
        fixed by `site`; they name the two halves of the site the proofs use. */
    ghost const pages: nat -> PageVisit
    ghost const written: string -> seq<Row>
    var curPage: nat
    var files: map<string, seq<Row>>
    var readmes: map<string, string>
    var log: seq<Event>

    /** `pages` and `written` describe `site`. */
    ghost predicate Valid()
    {
      IsArchive(pages, site) && IsWritten(written, site)
    }

    /** The program's start: `cur_page = 1`, nothing requested yet. */
    constructor (site: string -> Document, files: map<string, seq<Row>>, readmes: map<string, string>)
      ensures Valid()
      ensures this.site == site && pages == Archive(site) && written == Written(site)
      ensures curPage == 1 && this.files == files && this.readmes == readmes && log == []
    {
      this.site := site;
      pages := Archive(site);
      written := Written(site);
      curPage := 1;
      this.files := files;
      this.readmes := readmes;
      log := [];
      ArchiveIsArchive(site);
      WrittenIsWritten(site);
    }

    /** `make_readme`: (over)writes the companion file with the retrieval time. */
    method MakeReadme(csvName: string, stamp: string)
      modifies this`readmes
      ensures readmes == old(readmes)[ReadmeName(csvName) := ReadmeText(csvName, stamp)]
    {
      readmes := readmes[ReadmeName(csvName) := ReadmeText(csvName, stamp)];
    }

    /** `time.sleep(5)`. */
    method Sleep()
      modifies this`log
      ensures log == old(log) + [Event.Sleep(DelaySeconds)]
    {
      log := log + [Event.Sleep(DelaySeconds)];
    }

    /** `get_soup`: one request to the site, and its parsed answer. */
    method GetSoup(url: string) returns (soup: Document)
      modifies this`log
      ensures soup == Get(site, url)
      ensures log == old(log) + [Fetch(url)]
    {
      log := log + [Fetch(url)];
      soup := Get(site, url);
    }

    /** `writer.writerow(row)` on a file opened for appending: the row is added at the
        end, or, when a cell cannot be encoded, nothing is written and `ok` is false
        (the call raised). */
    method WriteRow(name: string, row: Row) returns (ok: bool)
      modifies this`files
      ensures ok == RowEncodable(row)
      ensures files == Appended(old(files), name, if ok then [row] else [])
    {
      ok := RowEncodable(row);
      if ok {
        files := files[name := FileRows(files, name) + [row]];
      }
    }

    /** `write_to_csv`: appends `[ids[i], urls[i]]` for i = 0, 1, ... to
        csv_name + ".csv" until an iteration raises; `ok` is false when one did. */
    method WriteToCsv(ids: seq<string>, urls: seq<string>, csvName: string) returns (ok: bool)
      modifies this`files
      ensures ok <==> PairsWritten(ids, urls) == |ids|
      ensures files == Appended(old(files), csvName + ".csv", PairRows(ids, urls, PairsWritten(ids, urls)))
    {
      var name := csvName + ".csv";
      PairsWrittenFirstFailure(ids, urls);
      var i := 0;
      while i < |ids|
        invariant i <= PairsWritten(ids, urls)
        invariant files == Appended(old(files), name, PairRows(ids, urls, i))
      {
        if i >= |urls| {
          assert PairsWritten(ids, urls) == i;
          return false;
        }
        var row := PairRow(ids[i], urls[i]);
        var written := WriteRow(name, row);
        if !written {
          assert !PairWritable(ids, urls, i);
          return false;
        }
        AppendedTwice(old(files), name, PairRows(ids, urls, i), [row]);
        assert PairRows(ids, urls, i) + [row] == PairRows(ids, urls, i + 1);
        i := i + 1;
      }
      return true;
    }

    /** `get_list_of_articles`: the discovery walk, from the current `cur_page` on.
        `last`, a page at which the walk stops (the not-found page, or a listing
        that cannot be written), stands for the walk having an end; when no page
        stops it the loop never ends. On return the
        readme is written, and every row, event and the final page are those of
        WalkFrom; `completed` is false when `write_to_csv` raised. */
    method GetListOfArticles(csvOut: string, nameStamp: string, readmeStamp: string, ghost last: nat)
      returns (completed: bool)
      requires Valid()
      requires curPage <= last && Stops(Get(site, PageUrl(last)))
      modifies this`curPage, this`log, this`files, this`readmes
      ensures completed == WalkFrom(pages, old(curPage), last).completed
      ensures curPage == WalkFrom(pages, old(curPage), last).lastPage
      ensures log == old(log) + WalkFrom(pages, old(curPage), last).log
      ensures files == Appended(old(files), CsvName(csvOut, nameStamp) + ".csv", WalkFrom(pages, old(curPage), last).rows)
      ensures readmes == old(readmes)[ReadmeName(CsvName(csvOut, nameStamp)) :=
                                      ReadmeText(CsvName(csvOut, nameStamp), readmeStamp)]
    {
      var csvName := CsvName(csvOut, nameStamp);
      MakeReadme(csvName, readmeStamp);
      completed := WalkArchive(csvName, last);
    }

    /** The `while True` loop of `get_list_of_articles` over the archive `pages`,
        appending to csv_name + ".csv". */
    method WalkArchive(csvName: string, ghost last: nat) returns (completed: bool)
      requires Valid()
      requires curPage <= last && pages(last).stops
      modifies this`curPage, this`log, this`files
      ensures completed == WalkFrom(pages, old(curPage), last).completed
      ensures curPage == WalkFrom(pages, old(curPage), last).lastPage
      ensures log == old(log) + WalkFrom(pages, old(curPage), last).log
      ensures files == Appended(old(files), csvName + ".csv", WalkFrom(pages, old(curPage), last).rows)
    {
      ghost var start := curPage;
      ghost var rowsDone: seq<Row> := [];
      ghost var logDone: seq<Event> := [];
      while true
        invariant start <= curPage <= last
        invariant files == Appended(old(files), csvName + ".csv", rowsDone)
        invariant log == old(log) + logDone
        invariant WalkFrom(pages, start, last) == Prefixed(rowsDone, logDone, WalkFrom(pages, curPage, last))
        decreases last - curPage
      {
        var atEnd, ok;
        atEnd, ok, rowsDone, logDone := WalkPage(csvName, start, last, old(files), old(log), rowsDone, logDone);
        if atEnd || !ok {
          return atEnd;
        }
        curPage := curPage + 1;
      }
    }

    /** One pass of the walk's loop, with the loop's account of what is done:
        the rows and events so far, and the walk from `cur_page` still to do. */
    method WalkPage(csvName: string, ghost start: nat, ghost last: nat,
                    ghost files0: map<string, seq<Row>>, ghost log0: seq<Event>,
                    ghost rowsDone: seq<Row>, ghost logDone: seq<Event>)
      returns (atEnd: bool, ok: bool, ghost rows': seq<Row>, ghost log': seq<Event>)
      requires Valid()
      requires start <= curPage <= last && pages(last).stops
      requires files == Appended(files0, csvName + ".csv", rowsDone)
      requires log == log0 + logDone
      requires WalkFrom(pages, start, last) == Prefixed(rowsDone, logDone, WalkFrom(pages, curPage, last))
      modifies this`log, this`files
      ensures files == Appended(files0, csvName + ".csv", rows')
      ensures log == log0 + log'
      ensures atEnd || !ok ==> WalkFrom(pages, start, last) == WalkResult(rows', log', curPage, atEnd)
      ensures !(atEnd || !ok) ==> curPage < last
      ensures !(atEnd || !ok) ==>
        WalkFrom(pages, start, last) == Prefixed(rows', log', WalkFrom(pages, curPage + 1, last))
    {
      ghost var v := pages(curPage);
      atEnd, ok := VisitArchivePage(csvName);
      AppendedTwice(files0, csvName + ".csv", rowsDone, v.rows);
      AppendAssoc(log0, logDone, VisitLog(v));
      rows', log' := rowsDone + v.rows, logDone + VisitLog(v);
      if atEnd || !ok {
        WalkFinish(pages, start, curPage, last, rowsDone, logDone);
      } else {
        WalkAdvance(pages, start, curPage, last, rowsDone, logDone);
      }
    }

    /** One pass of the walk's loop body, up to the increment: sleep, fetch page
        `cur_page`, and unless it is the error page write its listing. `atEnd` is the
        `break`; `ok` is false when `write_to_csv` raised. */
    method VisitArchivePage(csvName: string) returns (atEnd: bool, ok: bool)
      requires Valid()
      modifies this`log, this`files
      ensures var v := pages(old(curPage));
        && atEnd == v.notFound
        && (atEnd || !ok <==> v.stops)
        && log == old(log) + VisitLog(v)
        && files == Appended(old(files), csvName + ".csv", v.rows)
    {
      Sleep();
      var archiveUrl := PageUrl(curPage);
      var soup := GetSoup(archiveUrl);
      if ErrorPage(soup) {
        return true, true;
      }
      var ids, urls := GetIds(soup);
      ok := WriteToCsv(ids, urls, csvName);
      atEnd := false;
    }

    /** `write_article_to_csv`: appends the article row; a row that cannot be written
        is dropped and the run goes on. */
    method WriteArticleToCsv(data: Article, name: string)
      modifies this`files
      ensures files == Appended(old(files), name, WrittenArticle(data))
    {
      // a row that cannot be encoded raises inside the `try` and is dropped
      var _ := WriteRow(name, ArticleRow(data));
    }

    /** `process_article`: fetch the article, extract its fields, write its row. */
    method ProcessArticle(articleUrl: string, name: string)
      modifies this`log, this`files
      ensures log == old(log) + [Fetch(articleUrl)]
      ensures files == Appended(old(files), name, WrittenArticle(Get(site, articleUrl).fields))
    {
      var soup := GetSoup(articleUrl);
      var data := soup.fields;
      WriteArticleToCsv(data, name);
    }

    /** `get_data_for_articles`: process the input rows in order, each selected row
        once, fetching its article and then waiting the delay. `processed` lists the
        urls fetched and `delays` counts the waits. */
    method GetDataForArticles(input: seq<InputRow>, restart: string, csvOut: string, readmeStamp: string)
      returns (processed: seq<string>, delays: nat)
      requires Valid()
      modifies this`log, this`files, this`readmes
      ensures processed == Urls(Selected(input, restart))
      ensures delays == |processed|
      ensures log == old(log) + IngestLog(processed)
      ensures files == Appended(old(files), csvOut, ArticleRows(written, processed))
      ensures readmes == old(readmes)[ReadmeName(csvOut) := ReadmeText(csvOut, readmeStamp)]
    {
      MakeReadme(csvOut, readmeStamp);
      if restart == "" {
        processed, delays := IngestEvery(input, csvOut);
      } else {
        processed, delays := IngestFromRestart(input, restart, csvOut);
      }
    }

    /** The `restart is ''` branch of `get_data_for_articles`: every row, in order. */
    method IngestEvery(input: seq<InputRow>, csvOut: string) returns (processed: seq<string>, delays: nat)
      requires Valid()
      modifies this`log, this`files
      ensures processed == Urls(input)
      ensures delays == |processed|
      ensures log == old(log) + IngestLog(processed)
      ensures files == Appended(old(files), csvOut, ArticleRows(written, processed))
    {
      processed, delays := [], 0;
      for i := 0 to |input|
        invariant processed == Urls(input[..i])
        invariant delays == |processed|
        invariant log == old(log) + IngestLog(processed)
        invariant files == Appended(old(files), csvOut, ArticleRows(written, processed))
      {
        ProcessAndWait(input[i].1, csvOut, old(files), old(log), processed);
        processed, delays := processed + [input[i].1], delays + 1;
        UrlsSnoc(input, 0, i);
        assert input[..i] == input[0..i] && input[..i + 1] == input[0..i + 1];
      }
      assert input[..|input|] == input;
    }

    /** The restart branch of `get_data_for_articles`: `found_restart` starts false
        and is updated by `process_id` on every row; only rows after which it is
        true are processed. */
    method IngestFromRestart(input: seq<InputRow>, restart: string, csvOut: string)
      returns (processed: seq<string>, delays: nat)
      requires Valid()
      modifies this`log, this`files
      ensures processed == Urls(input[RestartIndex(Ids(input), restart)..])
      ensures delays == |processed|
      ensures log == old(log) + IngestLog(processed)
      ensures files == Appended(old(files), csvOut, ArticleRows(written, processed))
    {
      processed, delays := [], 0;
      ghost var first := RestartIndex(Ids(input), restart);
      var found := false;
      for i := 0 to |input|
        invariant found == (first < i)
        invariant 0 < i ==> found == Trace(Ids(input), restart, false)[i - 1]
        invariant !found ==> processed == []
        invariant found ==> processed == Urls(input[first..i])
        invariant delays == |processed|
        invariant log == old(log) + IngestLog(processed)
        invariant files == Appended(old(files), csvOut, ArticleRows(written, processed))
      {
        found := ProcessId(input[i].0, restart, found);
        if found {
          ProcessAndWait(input[i].1, csvOut, old(files), old(log), processed);
          processed, delays := processed + [input[i].1], delays + 1;
          UrlsSnoc(input, first, i);
        }
        TraceStep(Ids(input), restart, false, i);
      }
    }

    /** One processed row of the ingest loop: `process_article` and then the delay.
        Extends the loop's account of the log and the output by one article. */
    method ProcessAndWait(url: string, name: string, ghost files0: map<string, seq<Row>>,
                          ghost log0: seq<Event>, ghost done: seq<string>)
      requires Valid()
      requires log == log0 + IngestLog(done)
      requires files == Appended(files0, name, ArticleRows(written, done))
      modifies this`log, this`files
      ensures log == log0 + IngestLog(done + [url])
      ensures files == Appended(files0, name, ArticleRows(written, done + [url]))
    {
      ProcessArticle(url, name);
      Sleep();
      AppendPair(log0, IngestLog(done), Fetch(url), Event.Sleep(DelaySeconds));
      IngestLogSnoc(done, url);
      ArticleRowsSnoc(written, done, url);
      AppendedTwice(files0, name, ArticleRows(written, done), written(url));
    }

    /** `main`: discovery when no input csv is named, ingest otherwise.
        `completed` is false when discovery ended by the exception out of
        `write_to_csv` rather than at its `break`. */
    method Run(inCsv: string, input: seq<InputRow>, csvOut: string, restart: string,
               nameStamp: string, readmeStamp: string, ghost last: nat)
      returns (completed: bool)
      requires Valid()
      requires inCsv == "" ==> curPage <= last && Stops(Get(site, PageUrl(last)))
      modifies this`curPage, this`log, this`files, this`readmes
      ensures inCsv == "" ==>
        var w := WalkFrom(pages, old(curPage), last);
        && completed == w.completed
        && curPage == w.lastPage
        && log == old(log) + w.log
        && files == Appended(old(files), CsvName(csvOut, nameStamp) + ".csv", w.rows)
        && readmes == old(readmes)[ReadmeName(CsvName(csvOut, nameStamp)) :=
                                   ReadmeText(CsvName(csvOut, nameStamp), readmeStamp)]
      ensures inCsv != "" ==>
        var urls := Urls(Selected(input, restart));
        && completed
        && curPage == old(curPage)
        && log == old(log) + IngestLog(urls)
        && files == Appended(old(files), csvOut, ArticleRows(written, urls))
        && readmes == old(readmes)[ReadmeName(csvOut) := ReadmeText(csvOut, readmeStamp)]
    {
      if inCsv == "" {
        completed := GetListOfArticles(csvOut, nameStamp, readmeStamp, last);
      } else {
        var _, _ := GetDataForArticles(input, restart, csvOut, readmeStamp);
        completed := true;
      }
    }
  }
}
