/** The crawled site as the scraper sees it: parsed documents, the fixed archive
    category, archive page URLs, and the events the crawl produces at the site. */
module Site {

  /** The fields the article extractors read from a document, in the order of
      the article csv row. */
  datatype Article = Article(tags: seq<string>, sections: seq<string>, author: string, date: string, text: string)

  /** A fetched and parsed page, reduced to what the scraper's queries return:
      whether an element of class "error-404 not-found main-page" exists, the `id`
      attribute of every `article` element and the `href` of the first child of
      every "entry-title" element (both in document order), and the article
      fields. */
  datatype Document = Document(notFound: bool, articleIds: seq<string>, entryHrefs: seq<string>, fields: Article)

  /** `error_page`: the page carries the not-found marker. */
  predicate ErrorPage(d: Document)
  {
    d.notFound
  }

  /** What the crawl does towards the site: wait (`time.sleep`) or request a URL. */
  datatype Event = Sleep(seconds: nat) | Fetch(url: string)

  /** The document the site serves for `url`: the response to one request, parsed. */
  function Get(site: string -> Document, url: string): Document
  {
    site(url)
  }

  lemma AppendAssoc(a: seq<Event>, b: seq<Event>, c: seq<Event>)
    ensures a + b + c == a + (b + c)
  {
  }

  /** Two events recorded one after the other extend a log by the pair. */
  lemma AppendPair(a: seq<Event>, b: seq<Event>, x: Event, y: Event)
    ensures a + b + [x] + [y] == a + (b + [x, y])
  {
    assert b + [x, y] == b + [x] + [y];
  }

  const DelaySeconds: nat := 5

  const BaseUrl: string := "http://www.berkeleyside.com"
  const Categories: seq<string> := ["city", "arts", "business", "community", "crime-safety", "nosh", "real-estate", "schools", "obituaries", "opinion"]
  const ChosenCategory: nat := 0

  /** The category every walk pages through; nothing in the program changes it. */
  const Category: string := Categories[ChosenCategory]

  function DigitChar(d: nat): char
    requires d < 10
  {
    ('0' as int + d) as char
  }

  function DigitValue(c: char): nat
  {
    if '0' <= c <= '9' then c as int - '0' as int else 0
  }

  /** Reads a string of decimal digits back as a number. */
  function ParseDecimal(s: string): nat
  {
    if s == [] then 0 else ParseDecimal(s[..|s| - 1]) * 10 + DigitValue(s[|s| - 1])
  }

  /** Python's `str(n)` on a non-negative int: decimal digits, no leading zero. */
  function NatToString(n: nat): (s: string)
    ensures |s| >= 1
    ensures forall i :: 0 <= i < |s| ==> '0' <= s[i] <= '9'
    ensures s[0] == '0' ==> n == 0
    ensures |s| > 1 ==> s[0] != '0'
    ensures ParseDecimal(s) == n
  {
    if n < 10 then [DigitChar(n)]
    else
      var init := NatToString(n / 10);
      var s := init + [DigitChar(n % 10)];
      assert s[..|s| - 1] == init;
      s
  }

  /** The archive URL of one page of a category. */
  function ArchiveUrl(category: string, page: nat): string
  {
    BaseUrl + "/" + category + "/page/" + NatToString(page)
  }

  function PageUrl(page: nat): string
  {
    ArchiveUrl(Category, page)
  }

  /** Different page numbers give different URLs, so no archive page is requested
      twice under another number. */
  lemma PageUrlInjective(p: nat, q: nat)
    ensures PageUrl(p) == PageUrl(q) ==> p == q
  {
    var prefix := BaseUrl + "/" + Category + "/page/";
    assert PageUrl(p) == prefix + NatToString(p);
    assert PageUrl(q) == prefix + NatToString(q);
    if PageUrl(p) == PageUrl(q) {
      assert NatToString(p) == PageUrl(p)[|prefix|..];
      assert NatToString(q) == PageUrl(q)[|prefix|..];
    }
  }
}
