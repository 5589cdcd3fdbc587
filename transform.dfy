/**
 * `transform_data(df)`: adds `is_deleted`, `word_count`, `title_length` and
 * the year/month/day columns of `created_at`, `updated_at` and
 * `published_at` to every row, then explodes every live row into one
 * `(article_id, word, count)` record per distinct word of its content.
 */
module Transform {
  import opened Wrappers
  import opened Tokenize
  import opened WordCount
  import opened Articles

  /**
   * What `transform_data` raises on a live row with a null cell:
   * `None.split()` for a null content, `len(None)` for a null title. The
   * number is the position of the offending row in the batch.
   */
  datatype ShapeError = ContentMissing(row: nat) | TitleMissing(row: nat)

  /** The two frames `transform_data` returns. */
  datatype Output = Output(articles: seq<EnrichedArticle>, wordCounts: seq<WordCountRecord>)

  /** `is_deleted`: the row carries a deletion time. */
  predicate IsDeleted(a: Article) {
    a.deletedAt.Some?
  }

  /** A live row whose `word_count` cannot be computed. */
  predicate MissingContent(a: Article) {
    !IsDeleted(a) && a.content.None?
  }

  /** A live row whose `title_length` cannot be computed. */
  predicate MissingTitle(a: Article) {
    !IsDeleted(a) && a.title.None?
  }

  /** The first row on which `p` holds: the row where a row-wise `apply` raises. */
  function FirstWhere(rows: seq<Article>, p: Article -> bool): (r: Option<nat>)
    ensures r.Some? ==> r.value < |rows| && p(rows[r.value])
    ensures r.Some? ==> forall j :: 0 <= j < r.value ==> !p(rows[j])
    ensures r.None? ==> forall j :: 0 <= j < |rows| ==> !p(rows[j])
  {
    if rows == [] then None
    else if p(rows[0]) then Some(0)
    else
      match FirstWhere(rows[1..], p)
      case None => None
      case Some(k) =>
        assert forall j :: 1 <= j < |rows| ==> rows[j] == rows[1..][j - 1];
        Some(k + 1)
  }

  /** One row with its derived columns, for a row on which nothing raises. */
  function Enrich(a: Article): EnrichedArticle
    requires !MissingContent(a) && !MissingTitle(a)
  {
    var deleted := IsDeleted(a);
    EnrichedArticle(
      a,
      deleted,
      if deleted then 0 else |Split(a.content.value)|,
      if deleted then 0 else |a.title.value|,
      PartsOf(a.createdAt),
      PartsOf(a.updatedAt),
      PartsOf(a.publishedAt))
  }

  /** One record per key of `keys`, in that order, with the count `m` holds for it. */
  function Records(id: int, keys: seq<string>, m: map<string, nat>): seq<WordCountRecord>
    requires forall k :: k in keys ==> k in m
  {
    if keys == [] then []
    else Records(id, keys[..|keys| - 1], m) + [WordCountRecord(id, keys[|keys| - 1], m[keys[|keys| - 1]])]
  }

  /** The word-count records of one row: none for a deleted row. */
  function ExplodeRow(a: Article): seq<WordCountRecord> {
    if IsDeleted(a) then []
    else Records(a.id, WordOrder(a.content), WordCountDict(a.content))
  }

  /** `f` applied to every element of `xs`, the results concatenated in order. */
  function FlatMap<T, U>(f: T -> seq<U>, xs: seq<T>): seq<U> {
    if xs == [] then [] else FlatMap(f, xs[..|xs| - 1]) + f(xs[|xs| - 1])
  }

  /** The word-count records of a batch, row after row. */
  function Explode(rows: seq<Article>): seq<WordCountRecord> {
    FlatMap(ExplodeRow, rows)
  }

  /** What `transform_data(df)` returns or raises, row by row. */
  function TransformSpec(rows: seq<Article>): Result<Output, ShapeError> {
    match FirstWhere(rows, MissingContent)
    case Some(i) => Err(ContentMissing(i))
    case None =>
      match FirstWhere(rows, MissingTitle)
      case Some(i) => Err(TitleMissing(i))
      case None =>
        Ok(Output(seq(|rows|, i requires 0 <= i < |rows| => Enrich(rows[i])), Explode(rows)))
  }

  /**
   * `transform_data(df)`: the derived columns are computed one after the
   * other over the whole frame, then the records are appended row by row and,
   * within a row, in the order the word-count dict yields its items.
   */
  method TransformData(df: seq<Article>) returns (r: Result<Output, ShapeError>)
    ensures r == TransformSpec(df)
  {
    var n := |df|;
    var isDeleted := seq(n, i requires 0 <= i < n => df[i].deletedAt.Some?);

    var badContent := FirstWhere(df, MissingContent);
    if badContent.Some? {
      return Err(ContentMissing(badContent.value));
    }
    var wordCount := seq(n, i requires 0 <= i < n => if !isDeleted[i] then |Split(df[i].content.value)| else 0);

    var badTitle := FirstWhere(df, MissingTitle);
    if badTitle.Some? {
      return Err(TitleMissing(badTitle.value));
    }
    var titleLength := seq(n, i requires 0 <= i < n => if !isDeleted[i] then |df[i].title.value| else 0);

    var created := seq(n, i requires 0 <= i < n => PartsOf(df[i].createdAt));
    var updated := seq(n, i requires 0 <= i < n => PartsOf(df[i].updatedAt));
    var published := seq(n, i requires 0 <= i < n => PartsOf(df[i].publishedAt));

    var articles := seq(n, i requires 0 <= i < n =>
      EnrichedArticle(df[i], isDeleted[i], wordCount[i], titleLength[i], created[i], updated[i], published[i]));

    var wordCounts := ExplodeRows(df, isDeleted);
    assert articles == seq(n, i requires 0 <= i < n => Enrich(df[i])) by {
      forall k | 0 <= k < n ensures articles[k] == Enrich(df[k]) {
        assert !MissingContent(df[k]) && !MissingTitle(df[k]);
        assert isDeleted[k] == IsDeleted(df[k]);
        assert wordCount[k] == Enrich(df[k]).wordCount;
        assert titleLength[k] == Enrich(df[k]).titleLength;
      }
    }
    r := Ok(Output(articles, wordCounts));
  }

  /**
   * The loop that builds `word_counts_list`: for every row not flagged in the
   * `is_deleted` column, one record per item of its word-count dict.
   */
  method ExplodeRows(df: seq<Article>, isDeleted: seq<bool>) returns (wordCounts: seq<WordCountRecord>)
    requires |isDeleted| == |df|
    requires forall i :: 0 <= i < |df| ==> isDeleted[i] == IsDeleted(df[i])
    ensures wordCounts == Explode(df)
  {
    var n := |df|;
    wordCounts := [];
    var i := 0;
    while i < n
      invariant 0 <= i <= n
      invariant wordCounts == Explode(df[..i])
    {
      if !isDeleted[i] {
        wordCounts := AppendRowRecords(wordCounts, df[i]);
      }
      ExplodeStep(df, i);
      i := i + 1;
    }
    assert df[..n] == df;
  }

  /**
   * The body of the loop for one live row: its word-count dict is computed
   * and one record per item is appended, in the dict's order.
   */
  method AppendRowRecords(acc: seq<WordCountRecord>, row: Article) returns (out: seq<WordCountRecord>)
    requires !IsDeleted(row)
    ensures out == acc + ExplodeRow(row)
  {
    var counts := WordCountDict(row.content);
    var words := WordOrder(row.content);
    out := AppendRecords(acc, row.id, words, counts);
  }

  /** `for word, count in word_counts.items(): word_counts_list.append(...)`. */
  method AppendRecords(acc: seq<WordCountRecord>, id: int, words: seq<string>, counts: map<string, nat>)
    returns (out: seq<WordCountRecord>)
    requires forall w :: w in words ==> w in counts
    ensures out == acc + Records(id, words, counts)
  {
    out := acc;
    var j := 0;
    while j < |words|
      invariant 0 <= j <= |words|
      invariant out == acc + Records(id, words[..j], counts)
    {
      assert words[..j + 1][..j] == words[..j];
      out := out + [WordCountRecord(id, words[j], counts[words[j]])];
      j := j + 1;
    }
    assert words[..j] == words;
  }

  lemma ExplodeStep(rows: seq<Article>, i: nat)
    requires i < |rows|
    ensures Explode(rows[..i + 1]) == Explode(rows[..i]) + ExplodeRow(rows[i])
  {
    assert rows[..i + 1][..i] == rows[..i];
  }
}
