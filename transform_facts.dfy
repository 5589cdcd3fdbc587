/**
 * What `transform_data` guarantees, proved about `TransformSpec`, the
 * function that `TransformData` is shown to compute.
 */
module TransformFacts {
  import opened Wrappers
  import opened Tokenize
  import opened WordCount
  import opened Articles
  import opened Transform

  /** The total of the `count` column of a list of word-count records. */
  function TotalCount(recs: seq<WordCountRecord>): nat {
    if recs == [] then 0 else TotalCount(recs[..|recs| - 1]) + recs[|recs| - 1].count
  }

  /** Record `k` of `Records(id, keys, m)` is key `k` with its count. */
  lemma {:induction false} RecordsAt(id: int, keys: seq<string>, m: map<string, nat>)
    requires forall k :: k in keys ==> k in m
    ensures |Records(id, keys, m)| == |keys|
    ensures forall k :: 0 <= k < |keys| ==> Records(id, keys, m)[k] == WordCountRecord(id, keys[k], m[keys[k]])
  {
    if keys != [] {
      RecordsAt(id, keys[..|keys| - 1], m);
    }
  }

  lemma {:induction false} RecordsTotal(id: int, keys: seq<string>, m: map<string, nat>)
    requires forall k :: k in keys ==> k in m
    ensures TotalCount(Records(id, keys, m)) == SumOver(keys, m)
  {
    if keys != [] {
      var pre := Records(id, keys[..|keys| - 1], m);
      var last := WordCountRecord(id, keys[|keys| - 1], m[keys[|keys| - 1]]);
      assert (pre + [last])[..|pre|] == pre;
      RecordsTotal(id, keys[..|keys| - 1], m);
    }
  }

  /**
   * `Records` over distinct keys of `m`: one record per key, with the given
   * id and the key's count, and no word twice.
   */
  lemma RecordsMatch(id: int, keys: seq<string>, m: map<string, nat>)
    requires forall k :: k in keys ==> k in m
    requires forall i, j :: 0 <= i < j < |keys| ==> keys[i] != keys[j]
    ensures var recs := Records(id, keys, m);
      && (forall k :: 0 <= k < |recs| ==> recs[k].articleId == id && recs[k].word in m && recs[k].count == m[recs[k].word])
      && (forall w :: w in keys ==> exists k :: 0 <= k < |recs| && recs[k].word == w)
      && (forall k, l :: 0 <= k < l < |recs| ==> recs[k].word != recs[l].word)
  {
    RecordsAt(id, keys, m);
    var recs := Records(id, keys, m);
    forall w | w in keys ensures exists k :: 0 <= k < |recs| && recs[k].word == w {
      var k :| 0 <= k < |keys| && keys[k] == w;
      assert recs[k].word == w;
    }
  }

  /**
   * The records of one row: none for a deleted row; for a live row exactly
   * one record per key of `word_count_dict(content)`, carrying the row's id
   * and the key's count, and no word twice.
   */
  lemma ExplodeRowMatchesDict(a: Article)
    ensures IsDeleted(a) ==> ExplodeRow(a) == []
    ensures !IsDeleted(a) ==>
      var recs, d := ExplodeRow(a), WordCountDict(a.content);
      && (forall k :: 0 <= k < |recs| ==>
            recs[k].articleId == a.id && recs[k].word in d && recs[k].count == d[recs[k].word])
      && (forall w :: w in d ==> exists k :: 0 <= k < |recs| && recs[k].word == w)
      && (forall k, l :: 0 <= k < l < |recs| ==> recs[k].word != recs[l].word)
  {
    if !IsDeleted(a) {
      RecordsMatch(a.id, WordOrder(a.content), WordCountDict(a.content));
    }
  }

  /** The counts of a live row's records add up to the number of tokens of its content. */
  lemma ExplodeRowTotal(a: Article)
    requires !IsDeleted(a) && a.content.Some?
    ensures TotalCount(ExplodeRow(a)) == |Split(a.content.value)|
  {
    RecordsTotal(a.id, WordOrder(a.content), WordCountDict(a.content));
    WordCountDictSum(a.content.value);
  }

  /** `FlatMap` turns concatenation of its input into concatenation of its output. */
  lemma {:induction false} FlatMapAppend<T, U>(f: T -> seq<U>, xs: seq<T>, ys: seq<T>)
    ensures FlatMap(f, xs + ys) == FlatMap(f, xs) + FlatMap(f, ys)
  {
    if ys == [] {
      assert xs + ys == xs;
    } else {
      var init := ys[..|ys| - 1];
      assert (xs + ys)[..|xs + ys| - 1] == xs + init;
      FlatMapAppend(f, xs, init);
    }
  }

  /** An element of `FlatMap(f, xs)` is an element of `f(x)` for some `x` of `xs`, and conversely. */
  lemma {:induction false} FlatMapMembers<T, U>(f: T -> seq<U>, xs: seq<T>, u: U)
    ensures u in FlatMap(f, xs) <==> exists i :: 0 <= i < |xs| && u in f(xs[i])
  {
    if xs != [] {
      var init := xs[..|xs| - 1];
      FlatMapMembers(f, init, u);
      if exists i :: 0 <= i < |init| && u in f(init[i]) {
        var i :| 0 <= i < |init| && u in f(init[i]);
        assert xs[i] == init[i];
      }
      if exists i :: 0 <= i < |xs| && u in f(xs[i]) {
        var i :| 0 <= i < |xs| && u in f(xs[i]);
        if i < |init| {
          assert init[i] == xs[i];
        }
      }
    }
  }

  /**
   * Every word-count record comes from a live row of the batch: it carries
   * that row's id, a key of the row's word-count dict and the key's count,
   * which is at least 1.
   */
  lemma ExplodeFromLiveRows(rows: seq<Article>, rec: WordCountRecord)
    ensures rec in Explode(rows) ==> exists i :: 0 <= i < |rows| && FromRow(rec, rows[i])
  {
    if rec in Explode(rows) {
      FlatMapMembers(ExplodeRow, rows, rec);
      var i :| 0 <= i < |rows| && rec in ExplodeRow(rows[i]);
      var a := rows[i];
      ExplodeRowMatchesDict(a);
      assert !IsDeleted(a);
      var k :| 0 <= k < |ExplodeRow(a)| && ExplodeRow(a)[k] == rec;
      assert FromRow(rec, a);
    }
  }

  /** `rec` is a record of the live row `a`: its id, one of its words, that word's count. */
  predicate FromRow(rec: WordCountRecord, a: Article) {
    && !IsDeleted(a)
    && rec.articleId == a.id
    && rec.word in WordCountDict(a.content)
    && rec.count == WordCountDict(a.content)[rec.word]
    && rec.count >= 1
  }

  /**
   * `transform_data` raises exactly when some live row has a null content or
   * a null title; a null content anywhere is reported first, each at the
   * first row where it occurs.
   */
  lemma TransformFails(rows: seq<Article>)
    ensures TransformSpec(rows).Err? <==>
      exists i :: 0 <= i < |rows| && (MissingContent(rows[i]) || MissingTitle(rows[i]))
    ensures TransformSpec(rows).Err? && TransformSpec(rows).error.ContentMissing? ==>
      var k := TransformSpec(rows).error.row;
      k < |rows| && MissingContent(rows[k]) && forall j :: 0 <= j < k ==> !MissingContent(rows[j])
    ensures TransformSpec(rows).Err? && TransformSpec(rows).error.TitleMissing? ==>
      var k := TransformSpec(rows).error.row;
      && k < |rows| && MissingTitle(rows[k]) && (forall j :: 0 <= j < k ==> !MissingTitle(rows[j]))
      && (forall j :: 0 <= j < |rows| ==> !MissingContent(rows[j]))
  {
    var c, t := FirstWhere(rows, MissingContent), FirstWhere(rows, MissingTitle);
    if c.Some? {
      assert MissingContent(rows[c.value]);
    } else if t.Some? {
      assert MissingTitle(rows[t.value]);
    }
  }

  /**
   * The article frame keeps the batch: no row is added, dropped or
   * reordered and the original columns are unchanged. The word-count frame
   * holds the records of the rows, in row order.
   */
  lemma TransformKeepsRows(rows: seq<Article>)
    requires TransformSpec(rows).Ok?
    ensures |TransformSpec(rows).value.articles| == |rows|
    ensures forall i :: 0 <= i < |rows| ==> TransformSpec(rows).value.articles[i].article == rows[i]
    ensures forall i :: 0 <= i <= |rows| ==>
      TransformSpec(rows).value.wordCounts == Explode(rows[..i]) + Explode(rows[i..])
  {
    forall i | 0 <= i <= |rows|
      ensures TransformSpec(rows).value.wordCounts == Explode(rows[..i]) + Explode(rows[i..])
    {
      assert rows == rows[..i] + rows[i..];
      FlatMapAppend(ExplodeRow, rows[..i], rows[i..]);
    }
  }

  /**
   * The derived columns of row `i`: `is_deleted` holds exactly when
   * `deleted_at` is set; a deleted row has `word_count` and `title_length`
   * 0 and no records; a live row has the token count of its content, which
   * is also the sum of its records' counts and of its word-count dict, and
   * the length of its title; the date parts are those of the timestamps.
   */
  lemma TransformDerived(rows: seq<Article>, i: nat)
    requires TransformSpec(rows).Ok? && i < |rows|
    ensures var e, a := TransformSpec(rows).value.articles[i], rows[i];
      && (e.isDeleted <==> a.deletedAt.Some?)
      && (e.isDeleted ==> e.wordCount == 0 && e.titleLength == 0 && ExplodeRow(a) == [])
      && (!e.isDeleted ==>
            && a.content.Some? && a.title.Some?
            && e.wordCount == |Split(a.content.value)|
            && e.wordCount == SumOver(WordOrder(a.content), WordCountDict(a.content))
            && e.wordCount == TotalCount(ExplodeRow(a))
            && e.titleLength == |a.title.value|)
      && e.created == PartsOf(a.createdAt)
      && e.updated == PartsOf(a.updatedAt)
      && e.published == PartsOf(a.publishedAt)
  {
    var a := rows[i];
    assert !MissingContent(a) && !MissingTitle(a);
    if !IsDeleted(a) {
      WordCountDictSum(a.content.value);
      ExplodeRowTotal(a);
    }
  }

  /** The total of the `word_count` column. */
  function TotalWords(articles: seq<EnrichedArticle>): nat {
    if articles == [] then 0 else TotalWords(articles[..|articles| - 1]) + articles[|articles| - 1].wordCount
  }

  lemma {:induction false} TotalCountAppend(a: seq<WordCountRecord>, b: seq<WordCountRecord>)
    ensures TotalCount(a + b) == TotalCount(a) + TotalCount(b)
  {
    if b == [] {
      assert a + b == a;
    } else {
      assert (a + b)[..|a + b| - 1] == a + b[..|b| - 1];
      TotalCountAppend(a, b[..|b| - 1]);
    }
  }

  lemma {:induction false} ExplodeTotal(rows: seq<Article>)
    requires forall i :: 0 <= i < |rows| ==> !MissingContent(rows[i]) && !MissingTitle(rows[i])
    ensures TotalCount(Explode(rows)) == TotalWords(seq(|rows|, i requires 0 <= i < |rows| => Enrich(rows[i])))
  {
    if rows != [] {
      var init, last := rows[..|rows| - 1], rows[|rows| - 1];
      var es := seq(|rows|, i requires 0 <= i < |rows| => Enrich(rows[i]));
      assert es[..|es| - 1] == seq(|init|, i requires 0 <= i < |init| => Enrich(init[i]));
      ExplodeTotal(init);
      TotalCountAppend(Explode(init), ExplodeRow(last));
      if !IsDeleted(last) {
        ExplodeRowTotal(last);
      }
    }
  }

  /**
   * Over a whole batch, the counts in the word-count frame add up to the
   * total of the `word_count` column.
   */
  lemma TransformTotal(rows: seq<Article>)
    requires TransformSpec(rows).Ok?
    ensures TotalCount(TransformSpec(rows).value.wordCounts) == TotalWords(TransformSpec(rows).value.articles)
  {
    ExplodeTotal(rows);
  }
}
