/** What `get_list_of_articles` does: the archive walk over pages cur_page,
    cur_page + 1, ... of the fixed category. The walk is stated over what each
    archive page yields (a PageVisit); Archive gives those for a site. */
module Walk {
  import opened Csv
  import opened Site
  import opened Listing

  /** What one pass of the loop gets from one archive page: the URL it requests,
      whether the answer is the not-found page, the rows `write_to_csv` appends for
      it, and whether the walk ends there. */
  datatype PageVisit = PageVisit(url: string, notFound: bool, rows: seq<Row>, stops: bool)

  /** The rows the walk appended, the events it caused at the site, the value
      `cur_page` is left with, and whether the loop ended at its `break`
      (rather than by an exception out of `write_to_csv`). */
  datatype WalkResult = WalkResult(rows: seq<Row>, log: seq<Event>, lastPage: nat, completed: bool)

  /** The rows one fetched page adds to the output: none for the error page,
      otherwise what `write_to_csv` gets out for its listing. */
  function PageOutput(d: Document): seq<Row>
  {
    if ErrorPage(d) then []
    else
      var ids := ListingIds(d);
      PairRows(ids, d.entryHrefs, PairsWritten(ids, d.entryHrefs))
  }

  /** The walk ends at this page: it is the not-found page, or writing its
      listing raises. */
  predicate Stops(d: Document)
  {
    ErrorPage(d) || PairsWritten(ListingIds(d), d.entryHrefs) < |d.articleIds|
  }

  /** One pass of the loop on the document `d` served for `url`. */
  function Visit(url: string, d: Document): PageVisit
  {
    PageVisit(url, ErrorPage(d), PageOutput(d), Stops(d))
  }

  /** The archive pages of the category as the walk sees them on `site`. */
  function Archive(site: string -> Document): nat -> PageVisit
  {
    (p: nat) => Visit(PageUrl(p), Get(site, PageUrl(p)))
  }

  /** `pages` is the archive of `site`: page p is the visit of the document the
      site serves for the page's URL. */
  ghost predicate IsArchive(pages: nat -> PageVisit, site: string -> Document)
  {
    forall p: nat {:trigger PageUrl(p)} :: pages(p) == Visit(PageUrl(p), Get(site, PageUrl(p)))
  }

  lemma ArchiveIsArchive(site: string -> Document)
    ensures IsArchive(Archive(site), site)
  {
  }

  /** Every page of the archive is requested at its own URL, and the not-found
      page always ends the walk. */
  lemma ArchivePage(site: string -> Document, p: nat)
    ensures Archive(site)(p).url == PageUrl(p)
    ensures Archive(site)(p).notFound == ErrorPage(Get(site, PageUrl(p)))
    ensures Archive(site)(p).notFound ==> Archive(site)(p).stops && Archive(site)(p).rows == []
    ensures Archive(site)(p).stops == Stops(Get(site, PageUrl(p)))
    ensures Archive(site)(p).rows == PageOutput(Get(site, PageUrl(p)))
  {
  }

  /** A walk result with `rows` and `log` put in front: the part done before. */
  function Prefixed(rows: seq<Row>, log: seq<Event>, w: WalkResult): WalkResult
  {
    WalkResult(rows + w.rows, log + w.log, w.lastPage, w.completed)
  }

  /** The visit of one page: the delay, then the request. */
  function VisitLog(v: PageVisit): seq<Event>
  {
    [Sleep(DelaySeconds), Fetch(v.url)]
  }

  /** The loop body from `page` on: sleep, fetch, stop at the error page or at a
      failed write, otherwise advance. `last` is a page at which the walk is known
      to stop, which bounds it; the result does not depend on which one is given. */
  function WalkFrom(pages: nat -> PageVisit, page: nat, last: nat): WalkResult
    requires page <= last && pages(last).stops
    decreases last - page
  {
    var v := pages(page);
    if v.stops then WalkResult(v.rows, VisitLog(v), page, v.notFound)
    else Prefixed(v.rows, VisitLog(v), WalkFrom(pages, page + 1, last))
  }

  lemma PrefixedTwice(rows1: seq<Row>, log1: seq<Event>, rows2: seq<Row>, log2: seq<Event>, w: WalkResult)
    ensures Prefixed(rows1, log1, Prefixed(rows2, log2, w)) == Prefixed(rows1 + rows2, log1 + log2, w)
  {
    assert rows1 + (rows2 + w.rows) == rows1 + rows2 + w.rows;
    assert log1 + (log2 + w.log) == log1 + log2 + w.log;
  }

  /** The walk loop's account after one more page that does not stop it: that
      page's listing and visit move from the walk still to do to the part done. */
  lemma WalkAdvance(pages: nat -> PageVisit, start: nat, page: nat, last: nat,
                    rows: seq<Row>, log: seq<Event>)
    requires start <= page <= last && pages(last).stops
    requires WalkFrom(pages, start, last) == Prefixed(rows, log, WalkFrom(pages, page, last))
    requires !pages(page).stops
    ensures page < last
    ensures WalkFrom(pages, start, last) ==
      Prefixed(rows + pages(page).rows, log + VisitLog(pages(page)), WalkFrom(pages, page + 1, last))
  {
    PrefixedTwice(rows, log, pages(page).rows, VisitLog(pages(page)), WalkFrom(pages, page + 1, last));
  }

  /** The walk loop's account at a page that stops it: the whole walk is the part
      done followed by that page. */
  lemma WalkFinish(pages: nat -> PageVisit, start: nat, page: nat, last: nat, rows: seq<Row>, log: seq<Event>)
    requires start <= page <= last && pages(last).stops
    requires WalkFrom(pages, start, last) == Prefixed(rows, log, WalkFrom(pages, page, last))
    requires pages(page).stops
    ensures WalkFrom(pages, start, last) ==
      WalkResult(rows + pages(page).rows, log + VisitLog(pages(page)), page, pages(page).notFound)
  {
  }

  /** Any page past the start at which the walk stops bounds it equally well. */
  lemma {:induction false} WalkBoundIrrelevant(pages: nat -> PageVisit, page: nat, last1: nat, last2: nat)
    requires page <= last1 && pages(last1).stops
    requires page <= last2 && pages(last2).stops
    ensures WalkFrom(pages, page, last1) == WalkFrom(pages, page, last2)
    decreases last1 - page
  {
    if !pages(page).stops {
      WalkBoundIrrelevant(pages, page + 1, last1, last2);
    }
  }

  /** The politeness schedule for pages from..to: event 2k waits the delay and
      event 2k + 1 requests page from + k. */
  function Visits(pages: nat -> PageVisit, from: nat, to: nat): (v: seq<Event>)
    requires from <= to + 1
    ensures |v| == 2 * (to + 1 - from)
  {
    seq(2 * (to + 1 - from), i requires 0 <= i < 2 * (to + 1 - from) =>
      if i % 2 == 0 then Sleep(DelaySeconds) else Fetch(pages(from + i / 2).url))
  }

  /** The outputs of pages from, ..., to - 1, concatenated in page order. */
  function ConcatOutputs(pages: nat -> PageVisit, from: nat, to: nat): seq<Row>
    decreases to - from
  {
    if to <= from then [] else pages(from).rows + ConcatOutputs(pages, from + 1, to)
  }

  /** Extending the range by one page adds that page's output at the end. */
  lemma {:induction false} ConcatOutputsSnoc(pages: nat -> PageVisit, lo: nat, hi: nat)
    requires lo <= hi
    ensures ConcatOutputs(pages, lo, hi + 1) == ConcatOutputs(pages, lo, hi) + pages(hi).rows
    decreases hi - lo
  {
    if lo < hi {
      ConcatOutputsSnoc(pages, lo + 1, hi);
      assert pages(lo).rows + (ConcatOutputs(pages, lo + 1, hi) + pages(hi).rows)
          == pages(lo).rows + ConcatOutputs(pages, lo + 1, hi) + pages(hi).rows;
    } else {
      assert ConcatOutputs(pages, hi + 1, hi + 1) == [];
      assert pages(hi).rows + [] == [] + pages(hi).rows;
    }
  }

  lemma VisitsCons(pages: nat -> PageVisit, from: nat, to: nat)
    requires from <= to
    ensures Visits(pages, from, to) == VisitLog(pages(from)) + Visits(pages, from + 1, to)
  {
    var v := Visits(pages, from, to);
    var w := VisitLog(pages(from)) + Visits(pages, from + 1, to);
    assert |v| == |w|;
    forall i | 0 <= i < |v|
      ensures v[i] == w[i]
    {
      if i >= 2 {
        assert (i - 2) % 2 == i % 2;
        assert from + 1 + (i - 2) / 2 == from + i / 2;
      }
    }
  }

  /** The walk ends at a page that stops it, at or before `last`: the not-found
      page when the walk completed, and a page whose listing could not be written
      when it did not. */
  lemma {:induction false} WalkEndsAtStop(pages: nat -> PageVisit, page: nat, last: nat)
    requires page <= last && pages(last).stops
    ensures var w := WalkFrom(pages, page, last);
      && page <= w.lastPage <= last
      && pages(w.lastPage).stops
      && (w.completed <==> pages(w.lastPage).notFound)
    decreases last - page
  {
    if !pages(page).stops {
      WalkEndsAtStop(pages, page + 1, last);
    }
  }

  /** No page before the last one stops the walk: it ends at the first such page. */
  lemma {:induction false} WalkStopsAtFirst(pages: nat -> PageVisit, page: nat, last: nat)
    requires page <= last && pages(last).stops
    ensures forall p :: page <= p < WalkFrom(pages, page, last).lastPage ==> !pages(p).stops
    decreases last - page
  {
    if !pages(page).stops {
      WalkStopsAtFirst(pages, page + 1, last);
    }
  }

  /** The walk requests pages page, page + 1, ..., lastPage in that order and
      waits the delay before every request, the last one included. */
  lemma {:induction false} WalkSchedule(pages: nat -> PageVisit, page: nat, last: nat)
    requires page <= last && pages(last).stops
    ensures var w := WalkFrom(pages, page, last);
      page <= w.lastPage && w.log == Visits(pages, page, w.lastPage)
    decreases last - page
  {
    var w := WalkFrom(pages, page, last);
    if pages(page).stops {
      VisitsCons(pages, page, page);
    } else {
      WalkSchedule(pages, page + 1, last);
      VisitsCons(pages, page, w.lastPage);
    }
  }

  /** On the site's own archive, event 2k waits the delay and event 2k + 1 requests
      page + k, at that page's URL in the one fixed category. */
  lemma ArchiveSchedule(site: string -> Document, page: nat, last: nat)
    requires page <= last && Stops(Get(site, PageUrl(last)))
    ensures Archive(site)(last).stops
    ensures var w := WalkFrom(Archive(site), page, last);
      && page <= w.lastPage
      && |w.log| == 2 * (w.lastPage + 1 - page)
      && forall i :: 0 <= i < |w.log| ==>
           w.log[i] == if i % 2 == 0 then Sleep(DelaySeconds) else Fetch(ArchiveUrl(Category, page + i / 2))
  {
    ArchivePage(site, last);
    var w := WalkFrom(Archive(site), page, last);
    WalkSchedule(Archive(site), page, last);
    forall i | 0 <= i < |w.log|
      ensures w.log[i] == if i % 2 == 0 then Sleep(DelaySeconds) else Fetch(ArchiveUrl(Category, page + i / 2))
    {
      ArchivePage(site, page + i / 2);
    }
  }

  /** The rows appended are the outputs of the fetched pages in page order: every
      listing before the last page in full, then whatever the last page wrote
      (nothing for the not-found page). */
  lemma {:induction false} WalkRows(pages: nat -> PageVisit, page: nat, last: nat)
    requires page <= last && pages(last).stops
    ensures var w := WalkFrom(pages, page, last);
      page <= w.lastPage && w.rows == ConcatOutputs(pages, page, w.lastPage + 1)
    decreases last - page
  {
    if pages(page).stops {
      assert ConcatOutputs(pages, page + 1, page + 1) == [];
    } else {
      WalkRows(pages, page + 1, last);
    }
  }

  /** On the site's own archive the walk ends at the first page that is the
      not-found page or whose listing cannot be written in full; when it ends at the
      not-found page it writes nothing for it, so the output is the listings of
      all the pages before, in page order. */
  lemma ArchiveEnd(site: string -> Document, page: nat, last: nat)
    requires page <= last && Stops(Get(site, PageUrl(last)))
    ensures Archive(site)(last).stops
    ensures var w := WalkFrom(Archive(site), page, last);
      && page <= w.lastPage <= last
      && Stops(Get(site, PageUrl(w.lastPage)))
      && (w.completed <==> ErrorPage(Get(site, PageUrl(w.lastPage))))
      && (forall p :: page <= p < w.lastPage ==> !Stops(Get(site, PageUrl(p))))
      && (w.completed ==> w.rows == ConcatOutputs(Archive(site), page, w.lastPage))
  {
    ArchivePage(site, last);
    var w := WalkFrom(Archive(site), page, last);
    WalkEndsAtStop(Archive(site), page, last);
    WalkStopsAtFirst(Archive(site), page, last);
    WalkRows(Archive(site), page, last);
    ArchivePage(site, w.lastPage);
    ConcatOutputsSnoc(Archive(site), page, w.lastPage);
    forall p | page <= p < w.lastPage
      ensures !Stops(Get(site, PageUrl(p)))
    {
      ArchivePage(site, p);
    }
    if w.completed {
      assert w.rows == ConcatOutputs(Archive(site), page, w.lastPage) + [];
    }
  }

  /** A page that does not stop the walk contributes all of its listing, the
      pair [ids[i], urls[i]] for every i < |ids|, in index order. */
  lemma PageOutputFull(d: Document)
    requires !Stops(d)
    ensures |PageOutput(d)| == |ListingIds(d)| <= |d.entryHrefs|
    ensures forall i :: 0 <= i < |ListingIds(d)| ==>
              ParsePairRow(PageOutput(d)[i]) == Some((ListingIds(d)[i], d.entryHrefs[i]))
  {
    PairRowsParse(ListingIds(d), d.entryHrefs, |ListingIds(d)|);
  }
}
