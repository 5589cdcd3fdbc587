/**
 * The loader's own logic: which ids it deletes and the order of the
 * statements it sends to the warehouse. What the warehouse does with an
 * export or a DELETE is not modelled.
 */
module Load {
  import opened Wrappers
  import opened Articles
  import opened Transform
  import opened TransformFacts

  /** A statement sent to the warehouse, in the order the loader issues them. */
  datatype Statement =
    | ExportArticles(rows: seq<EnrichedArticle>)
    | ExportWordCounts(records: seq<WordCountRecord>)
    | DeleteArticles(ids: seq<int>)
    | DeleteWordCounts(articleIds: seq<int>)

  /** `articles_df[articles_df['is_deleted']]['id'].tolist()`: the ids of the flagged rows, in row order. */
  function DeletedIds(articles: seq<EnrichedArticle>): (ids: seq<int>)
    ensures |ids| <= |articles|
    ensures forall x :: x in ids <==> exists i :: 0 <= i < |articles| && articles[i].isDeleted && articles[i].article.id == x
  {
    if articles == [] then []
    else
      var init, last := articles[..|articles| - 1], articles[|articles| - 1];
      assert forall i :: 0 <= i < |init| ==> init[i] == articles[i];
      DeletedIds(init) + if last.isDeleted then [last.article.id] else []
  }

  /**
   * `load_to_bigquery`: both frames are exported, articles first; then, only
   * when some row is flagged deleted, its ids are deleted from the articles
   * table and from the word-counts table, in that order.
   */
  function LoadPlan(out: Output): (plan: seq<Statement>)
    ensures |plan| >= 2
    ensures plan[0] == ExportArticles(out.articles) && plan[1] == ExportWordCounts(out.wordCounts)
    ensures |plan| > 2 <==> exists i :: 0 <= i < |out.articles| && out.articles[i].isDeleted
    ensures |plan| > 2 ==> plan[2..] == [DeleteArticles(DeletedIds(out.articles)), DeleteWordCounts(DeletedIds(out.articles))]
  {
    var ids := DeletedIds(out.articles);
    var exports := [ExportArticles(out.articles), ExportWordCounts(out.wordCounts)];
    if ids != [] then
      assert ids[0] in ids;
      exports + [DeleteArticles(ids), DeleteWordCounts(ids)]
    else
      assert forall i :: 0 <= i < |out.articles| ==> !(out.articles[i].isDeleted && out.articles[i].article.id in ids);
      exports
  }

  /** After a successful transform, the deleted ids are exactly the ids of the rows with a `deleted_at`. */
  lemma DeletedIdsOfBatch(rows: seq<Article>, x: int)
    requires TransformSpec(rows).Ok?
    ensures x in DeletedIds(TransformSpec(rows).value.articles) <==>
      exists i :: 0 <= i < |rows| && rows[i].deletedAt.Some? && rows[i].id == x
  {
    var arts := TransformSpec(rows).value.articles;
    TransformKeepsRows(rows);
    if exists i :: 0 <= i < |rows| && rows[i].deletedAt.Some? && rows[i].id == x {
      var i :| 0 <= i < |rows| && rows[i].deletedAt.Some? && rows[i].id == x;
      TransformDerived(rows, i);
      assert arts[i].isDeleted && arts[i].article.id == x;
    }
    if x in DeletedIds(arts) {
      var i :| 0 <= i < |arts| && arts[i].isDeleted && arts[i].article.id == x;
      TransformDerived(rows, i);
    }
  }

  /**
   * When no id occurs twice in the batch, none of the word-count records the
   * batch exports is removed again by the batch's own deletes.
   */
  lemma DeletesSpareExportedRecords(rows: seq<Article>, rec: WordCountRecord)
    requires TransformSpec(rows).Ok?
    requires forall i, j :: 0 <= i < j < |rows| ==> rows[i].id != rows[j].id
    ensures rec in TransformSpec(rows).value.wordCounts ==>
      rec.articleId !in DeletedIds(TransformSpec(rows).value.articles)
  {
    if rec in TransformSpec(rows).value.wordCounts {
      TransformKeepsRows(rows);
      ExplodeFromLiveRows(rows, rec);
      var i :| 0 <= i < |rows| && FromRow(rec, rows[i]);
      forall j | 0 <= j < |rows| && rows[j].deletedAt.Some? ensures rows[j].id != rec.articleId {
        assert j != i;
      }
      DeletedIdsOfBatch(rows, rec.articleId);
    }
  }
}
