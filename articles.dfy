/**
 * The rows of the articles batch. A row holds the eight columns the extract
 * step selects; `transform_data` adds the derived columns. A null cell (SQL
 * NULL, pandas None/NaN/NaT) is `None`.
 */
module Articles {
  import opened Wrappers

  /** A timestamp cell, broken into its calendar and clock fields. */
  datatype Timestamp = Timestamp(year: int, month: int, day: int, hour: int, minute: int, second: int)

  /** The year, month and day columns derived from one timestamp column. */
  datatype DateParts = DateParts(year: Option<int>, month: Option<int>, day: Option<int>)

  /** One extracted row: id, title, content, published_at, author_id, created_at, updated_at, deleted_at. */
  datatype Article = Article(
    id: int,
    title: Option<string>,
    content: Option<string>,
    publishedAt: Option<Timestamp>,
    authorId: Option<int>,
    createdAt: Option<Timestamp>,
    updatedAt: Option<Timestamp>,
    deletedAt: Option<Timestamp>)

  /** A row after `transform_data`: the original columns and the derived ones. */
  datatype EnrichedArticle = EnrichedArticle(
    article: Article,
    isDeleted: bool,
    wordCount: nat,
    titleLength: nat,
    created: DateParts,
    updated: DateParts,
    published: DateParts)

  /** One row of the word-counts table. */
  datatype WordCountRecord = WordCountRecord(articleId: int, word: string, count: nat)

  /** `col.dt.year`, `col.dt.month`, `col.dt.day` on one cell: the date of the timestamp, or null for null. */
  function PartsOf(t: Option<Timestamp>): (p: DateParts)
    ensures t.None? <==> p.year.None?
    ensures t.None? <==> p.month.None?
    ensures t.None? <==> p.day.None?
  {
    match t
    case None => DateParts(None, None, None)
    case Some(ts) => DateParts(Some(ts.year), Some(ts.month), Some(ts.day))
  }

  /**
   * The date parts keep the whole calendar date and nothing else: two cells
   * give the same parts exactly when both are null or both are timestamps on
   * the same day, whatever their time of day.
   */
  lemma PartsOfSameDay(t1: Option<Timestamp>, t2: Option<Timestamp>)
    ensures PartsOf(t1) == PartsOf(t2) <==> SameDay(t1, t2)
  {
  }

  /** Both cells null, or both timestamps with the same year, month and day. */
  predicate SameDay(t1: Option<Timestamp>, t2: Option<Timestamp>) {
    match (t1, t2)
    case (None, None) => true
    case (Some(a), Some(b)) => a.year == b.year && a.month == b.month && a.day == b.day
    case _ => false
  }
}
