/** Discovery output: extracting (id, url) pairs from an archive page (`get_ids`)
    and the rows `write_to_csv` gets into the file before it finishes or raises. */
module Listing {
  import opened Csv
  import opened Site

  /** Python's `id_[5:]`: drop the first five characters; a shorter string
      becomes empty. */
  function StripIdPrefix(s: string): (r: string)
    ensures |s| >= 5 ==> s == s[..5] + r
    ensures |s| < 5 ==> r == []
  {
    if |s| < 5 then [] else s[5..]
  }

  /** An `article` element's id "post-N" gives the article id N. */
  lemma StripPostPrefix(n: string)
    ensures StripIdPrefix("post-" + n) == n
  {
    assert ("post-" + n)[5..] == n;
  }

  /** The ids `get_ids` returns for a document: one per `article` element. */
  function ListingIds(d: Document): (ids: seq<string>)
    ensures |ids| == |d.articleIds|
  {
    seq(|d.articleIds|, i requires 0 <= i < |d.articleIds| => StripIdPrefix(d.articleIds[i]))
  }

  /** `get_ids`: the urls of the entry titles and the stripped article ids, each
      in document order. */
  method GetIds(soup: Document) returns (ids: seq<string>, urls: seq<string>)
    ensures urls == soup.entryHrefs
    ensures |ids| == |soup.articleIds|
    ensures forall i :: 0 <= i < |ids| ==> ids[i] == StripIdPrefix(soup.articleIds[i])
    ensures ids == ListingIds(soup)
  {
    urls := [];
    for i := 0 to |soup.entryHrefs|
      invariant urls == soup.entryHrefs[..i]
    {
      urls := urls + [soup.entryHrefs[i]];
    }
    ids := [];
    for i := 0 to |soup.articleIds|
      invariant |ids| == i
      invariant forall k :: 0 <= k < i ==> ids[k] == StripIdPrefix(soup.articleIds[k])
    {
      ids := ids + [StripIdPrefix(soup.articleIds[i])];
    }
  }

  /** The row `write_to_csv` writes for one article. */
  function PairRow(id: string, url: string): Row
  {
    [Text(id), Text(url)]
  }

  /** Reading a discovery row back; the inverse of PairRow. */
  function ParsePairRow(row: Row): (p: Option<(string, string)>)
    ensures p.Some? ==> PairRow(p.value.0, p.value.1) == row
  {
    if |row| == 2 && row[0].Text? && row[1].Text? then Some((row[0].s, row[1].s)) else None
  }

  /** Every discovery row reads back as the pair it was written from. */
  lemma ParsePairRowOf(id: string, url: string)
    ensures ParsePairRow(PairRow(id, url)) == Some((id, url))
  {
  }

  /** Iteration i of `write_to_csv` writes its row: `urls[i]` exists (otherwise
      IndexError) and the row can be encoded (otherwise UnicodeEncodeError). */
  predicate PairWritable(ids: seq<string>, urls: seq<string>, i: nat)
    requires i < |ids|
  {
    i < |urls| && RowEncodable(PairRow(ids[i], urls[i]))
  }

  /** How many rows `write_to_csv(ids, urls, ...)` writes: it stops at the first
      iteration that raises, and otherwise runs through all of `ids`. */
  function PairsWritten(ids: seq<string>, urls: seq<string>): (n: nat)
    ensures n <= |ids| && n <= |urls|
  {
    if ids == [] || !PairWritable(ids, urls, 0) then 0
    else 1 + PairsWritten(ids[1..], urls[1..])
  }

  /** `write_to_csv` gets exactly the iterations before the first one that raises:
      every row before PairsWritten is written, and the one at PairsWritten is not. */
  lemma {:induction false} PairsWrittenFirstFailure(ids: seq<string>, urls: seq<string>)
    ensures forall i :: 0 <= i < PairsWritten(ids, urls) ==> PairWritable(ids, urls, i)
    ensures PairsWritten(ids, urls) < |ids| ==> !PairWritable(ids, urls, PairsWritten(ids, urls))
  {
    if ids != [] && PairWritable(ids, urls, 0) {
      PairsWrittenFirstFailure(ids[1..], urls[1..]);
      var n := PairsWritten(ids, urls);
      forall i | 1 <= i < n
        ensures PairWritable(ids, urls, i)
      {
        assert PairWritable(ids[1..], urls[1..], i - 1);
      }
      if n < |ids| {
        assert !PairWritable(ids[1..], urls[1..], n - 1);
      }
    }
  }

  /** The first n rows `[ids[i], urls[i]]`, in index order. */
  function PairRows(ids: seq<string>, urls: seq<string>, n: nat): (rows: seq<Row>)
    requires n <= |ids| && n <= |urls|
    ensures |rows| == n
  {
    seq(n, i requires 0 <= i < n => PairRow(ids[i], urls[i]))
  }

  /** Read back, row i of the discovery output is the pair (ids[i], urls[i]). */
  lemma PairRowsParse(ids: seq<string>, urls: seq<string>, n: nat)
    requires n <= |ids| && n <= |urls|
    ensures forall i :: 0 <= i < n ==> ParsePairRow(PairRows(ids, urls, n)[i]) == Some((ids[i], urls[i]))
  {
    forall i | 0 <= i < n
      ensures ParsePairRow(PairRows(ids, urls, n)[i]) == Some((ids[i], urls[i]))
    {
      assert PairRows(ids, urls, n)[i] == PairRow(ids[i], urls[i]);
      ParsePairRowOf(ids[i], urls[i]);
    }
  }

  /** A discovery row can be written exactly when both of its strings are ASCII. */
  lemma PairRowEncodable(id: string, url: string)
    ensures RowEncodable(PairRow(id, url)) <==> Ascii(id) && Ascii(url)
  {
    var row := PairRow(id, url);
    assert row[0] == Text(id) && row[1] == Text(url);
  }

  /** `write_to_csv` finishes without raising exactly when there is a url for every
      id and every row can be encoded; then it has written all |ids| rows. */
  lemma PairsWrittenAll(ids: seq<string>, urls: seq<string>)
    ensures PairsWritten(ids, urls) == |ids| <==>
              |ids| <= |urls| && forall i :: 0 <= i < |ids| ==> RowEncodable(PairRow(ids[i], urls[i]))
  {
    var n := PairsWritten(ids, urls);
    PairsWrittenFirstFailure(ids, urls);
    if n < |ids| {
      assert !PairWritable(ids, urls, n);
    }
  }
}
