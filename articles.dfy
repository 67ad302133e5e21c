/** Ingest output: the article row `write_article_to_csv` writes. */
module Articles {
  import opened Csv
  import opened Site

  /** The row `[tags, sections, author, date, text]`. */
  function ArticleRow(a: Article): Row
  {
    [Items(a.tags), Items(a.sections), Text(a.author), Text(a.date), Text(a.text)]
  }

  /** Reading an article row back; the inverse of ArticleRow, so the five fields
      keep their places. */
  function ParseArticleRow(row: Row): (a: Option<Article>)
    ensures a.Some? ==> ArticleRow(a.value) == row
  {
    if |row| == 5 && row[0].Items? && row[1].Items? && row[2].Text? && row[3].Text? && row[4].Text?
    then Some(Article(row[0].items, row[1].items, row[2].s, row[3].s, row[4].s))
    else None
  }

  /** Every article row reads back as the article it was written from. */
  lemma ParseArticleRowOf(a: Article)
    ensures ParseArticleRow(ArticleRow(a)) == Some(a)
  {
  }

  /** The write fails (and is caught) exactly when the author, the date or the body
      text is not ASCII; the two list cells never make it fail. */
  lemma ArticleRowEncodable(a: Article)
    ensures RowEncodable(ArticleRow(a)) <==> Ascii(a.author) && Ascii(a.date) && Ascii(a.text)
  {
    var row := ArticleRow(a);
    assert row[0] == Items(a.tags) && row[1] == Items(a.sections);
    assert row[2] == Text(a.author) && row[3] == Text(a.date) && row[4] == Text(a.text);
  }

  /** The rows the article writes leave behind: one per article, or none where
      the write raised. */
  function WrittenArticle(a: Article): (rows: seq<Row>)
    ensures |rows| <= 1
    ensures rows != [] <==> RowEncodable(ArticleRow(a))
    ensures rows != [] ==> ParseArticleRow(rows[0]) == Some(a)
  {
    ParseArticleRowOf(a);
    if RowEncodable(ArticleRow(a)) then [ArticleRow(a)] else []
  }
}
