/** What `get_data_for_articles` does, as functions of its input rows: which rows
    it processes, the events it causes at the site and the rows it writes. */
module Ingest {
  import opened Csv
  import opened Site
  import opened Articles
  import opened Restart

  /** An input csv row `(row[0], row[1])`: the article id and its url. */
  type InputRow = (string, string)

  function Ids(rows: seq<InputRow>): (ids: seq<string>)
    ensures |ids| == |rows| && forall i :: 0 <= i < |rows| ==> ids[i] == rows[i].0
  {
    seq(|rows|, i requires 0 <= i < |rows| => rows[i].0)
  }

  function Urls(rows: seq<InputRow>): (urls: seq<string>)
    ensures |urls| == |rows| && forall i :: 0 <= i < |rows| ==> urls[i] == rows[i].1
  {
    seq(|rows|, i requires 0 <= i < |rows| => rows[i].1)
  }

  lemma UrlsSnoc(rows: seq<InputRow>, a: nat, b: nat)
    requires a <= b < |rows|
    ensures Urls(rows[a..b + 1]) == Urls(rows[a..b]) + [rows[b].1]
  {
    var u := Urls(rows[a..b + 1]);
    var v := Urls(rows[a..b]) + [rows[b].1];
    assert |u| == |v|;
    forall k | 0 <= k < |u|
      ensures u[k] == v[k]
    {
      assert rows[a..b + 1][k] == rows[a + k];
    }
  }

  /** The rows that get processed. Without a restart id, all of them. With one, the
      suffix that starts at the first row carrying that id, all earlier rows being
      skipped; nothing when no row carries it. */
  function Selected(rows: seq<InputRow>, restart: string): (s: seq<InputRow>)
    ensures restart == "" ==> s == rows
    ensures |s| <= |rows| && s == rows[|rows| - |s|..]
    ensures restart != "" ==> forall i :: 0 <= i < |rows| - |s| ==> rows[i].0 != restart
    ensures restart != "" && s != [] ==> s[0].0 == restart
  {
    if restart == "" then rows else rows[RestartIndex(Ids(rows), restart)..]
  }

  /** In restart mode, row i is processed exactly when `found_restart` is true
      after it, and then every later row is processed too. */
  lemma SelectedByFlag(rows: seq<InputRow>, restart: string, i: nat)
    requires restart != "" && i < |rows|
    ensures Trace(Ids(rows), restart, false)[i] <==> i >= |rows| - |Selected(rows, restart)|
  {
    TraceMarksRestart(Ids(rows), restart, i);
  }

  /** The events for processing `urls` in order: event 2k fetches article k and
      event 2k + 1 waits the delay after it. */
  function IngestLog(urls: seq<string>): (log: seq<Event>)
    ensures |log| == 2 * |urls|
  {
    seq(2 * |urls|, i requires 0 <= i < 2 * |urls| =>
      if i % 2 == 0 then Fetch(urls[i / 2]) else Sleep(DelaySeconds))
  }

  lemma IngestLogSnoc(urls: seq<string>, u: string)
    ensures IngestLog(urls + [u]) == IngestLog(urls) + [Fetch(u), Sleep(DelaySeconds)]
  {
    var a := IngestLog(urls + [u]);
    var b := IngestLog(urls) + [Fetch(u), Sleep(DelaySeconds)];
    assert |a| == |b|;
    forall i | 0 <= i < |a|
      ensures a[i] == b[i]
    {
      if i < 2 * |urls| {
        assert i / 2 < |urls|;
      } else {
        assert i / 2 == |urls|;
      }
    }
  }

  /** The rows `write_article_to_csv` leaves for each article url on `site`. */
  function Written(site: string -> Document): string -> seq<Row>
  {
    (u: string) => WrittenArticle(Get(site, u).fields)
  }

  /** `written` gives, for every url, the rows its article leaves on `site`. */
  ghost predicate IsWritten(written: string -> seq<Row>, site: string -> Document)
  {
    forall u: string {:trigger WrittenArticle(Get(site, u).fields)} :: written(u) == WrittenArticle(Get(site, u).fields)
  }

  lemma WrittenIsWritten(site: string -> Document)
    ensures IsWritten(Written(site), site)
  {
  }

  /** The article rows written for `urls`, in order. */
  function ArticleRows(written: string -> seq<Row>, urls: seq<string>): seq<Row>
  {
    if urls == [] then []
    else ArticleRows(written, urls[..|urls| - 1]) + written(urls[|urls| - 1])
  }

  lemma ArticleRowsSnoc(written: string -> seq<Row>, urls: seq<string>, u: string)
    ensures ArticleRows(written, urls + [u]) == ArticleRows(written, urls) + written(u)
  {
    assert (urls + [u])[..|urls|] == urls;
  }

  /** At most one row per processed url: an article whose write raised leaves none. */
  lemma {:induction false} ArticleRowsAtMost(site: string -> Document, urls: seq<string>)
    ensures |ArticleRows(Written(site), urls)| <= |urls|
  {
    if urls != [] {
      ArticleRowsAtMost(site, urls[..|urls| - 1]);
    }
  }

  /** When every article can be written, the output holds exactly one row per
      processed url, the k-th row being the k-th article's. */
  lemma {:induction false} ArticleRowsAllWritten(site: string -> Document, urls: seq<string>)
    requires forall k :: 0 <= k < |urls| ==> RowEncodable(ArticleRow(Get(site, urls[k]).fields))
    ensures |ArticleRows(Written(site), urls)| == |urls|
    ensures forall k :: 0 <= k < |urls| ==> ArticleRows(Written(site), urls)[k] == ArticleRow(Get(site, urls[k]).fields)
  {
    if urls != [] {
      var init := urls[..|urls| - 1];
      ArticleRowsAllWritten(site, init);
    }
  }
}
