# Articles ETL transform step, modelled in Dafny

The repository syncs an `articles` table from Postgres to BigQuery in three
steps: extract, transform and load. The only logic of its own is in the
transform step, `custom/transform_data.py`. This project models that step.

- `word_count_dict(text)` cuts a text with Python's `str.split()` and counts
  each distinct token with a `Counter`. A null or empty text gives `{}`.
- `transform_data(df)` adds derived columns to every row of the batch:
  - `is_deleted` is set when `deleted_at` is set;
  - `word_count` and `title_length` are 0 for deleted rows;
  - year, month and day columns come from `created_at`, `updated_at` and
    `published_at`.
  It then explodes every live row into one `(article_id, word, count)` record
  per distinct word of its content.

From the loader, the model keeps the list of deleted ids
(`custom/load_data_py.py:28`) and the order of the statements it sends.

Modules, one per concern:

- `Wrappers` (`wrappers.dfy`): `Option` for null cells, `Result` for raised exceptions.
- `Tokenize` (`tokenize.dfy`): `str.split()`, over Python's exact whitespace set.
- `WordCount` (`word_count.dfy`): `Counter` and `word_count_dict`, plus the order of the dict's keys.
- `Articles` (`articles.dfy`): the row types and the date decomposition.
- `Transform` (`transform.dfy`): `TransformSpec`, the row-by-row meaning of
  `transform_data`, and `TransformData`, the method. The method builds the
  derived columns over the whole frame, then runs the nested append loop.
  Its postcondition says it computes `TransformSpec`.
- `TransformFacts` (`transform_facts.dfy`): what the transform guarantees, proved about `TransformSpec`.
- `Load` (`load.dfy`): `deleted_ids` and the loader's statement sequence.

Null cells on live rows. Line 23 calls `row['content'].split()` with no null
guard, and line 24 calls `len(row['title'])` the same way. A live row with a
null content or title therefore raises. The model returns
`Err(ContentMissing(i))` or `Err(TitleMissing(i))`, where `i` is the position
of the first such row. The `word_count` column is computed for the whole frame
before `title_length`, so a null content anywhere is reported before a null
title anywhere.

Records come out in row order. Within a row, each word's record comes in the
order of the word's first occurrence in the content, which is the order in
which the dict yields its items. The model keeps this order and proves it.

## Model

| member | source | states |
|---|---|---|
| `Tokenize.Split` | custom/transform_data.py:13 | every token of `text.split()` is non-empty and contains no whitespace character |
| `Tokenize.SplitOfToken` | custom/transform_data.py:13 | a token on its own splits to exactly that token |
| `Tokenize.SplitCons` | custom/transform_data.py:13 | a token followed by any non-empty run of whitespace characters splits off as the first token, and the rest splits on its own |
| `Tokenize.SplitKeepsCharacters` | custom/transform_data.py:13 | the tokens written one after another are exactly the non-whitespace characters of the text, in order: none is lost or invented |
| `Tokenize.SplitJoin` | custom/transform_data.py:13 | for any list of tokens, splitting the tokens joined with single spaces gives back exactly that list |
| `Tokenize.SplitIgnoresLeadingSpace` | custom/transform_data.py:13 | leading whitespace, of any kind and length, does not change the tokens |
| `Tokenize.SplitEmptyIff` | custom/transform_data.py:13 | a text has no tokens if and only if every character of it is whitespace |
| `WordCount.Distinct` | custom/transform_data.py:14-15 | the dict's keys in insertion order have no duplicates and are exactly the words that occur |
| `WordCount.DistinctFirstOccurrence` | custom/transform_data.py:14-15 | the keys come in first-occurrence order: when one key precedes another, every occurrence of the later key in the word list is preceded by an occurrence of the earlier one |
| `WordCount.Tally` | custom/transform_data.py:14 | `Counter(words)` has as keys exactly the words that occur |
| `WordCount.TallyCounts` | custom/transform_data.py:14 | each value of `Counter(words)` is its word's number of occurrences in `words`, so at least 1 |
| `WordCount.WordCountDict` | custom/transform_data.py:10-15 | null or empty text gives `{}`; otherwise the keys are exactly the tokens of `text.split()`, case-sensitive and not normalised, each mapped to its number of occurrences; every key is a token and every count is at least 1 |
| `WordCount.WordOrder` | custom/transform_data.py:14-15 | the keys `items()` yields are distinct and are exactly the keys of `word_count_dict(text)` |
| `WordCount.TallySum` | custom/transform_data.py:14 | the counts of `Counter(words)` add up to `len(words)` |
| `WordCount.WordCountDictSum` | custom/transform_data.py:13-15 | the counts in `word_count_dict(s)` add up to `len(s.split())`, the number line 23 stores as `word_count` |
| `WordCount.WordCountDictEmptyIff` | custom/transform_data.py:11-15 | the dict is empty if and only if the text is null or all whitespace |
| `Articles.PartsOf` | custom/transform_data.py:27-37 | the year, month and day of a cell are all null exactly when the timestamp is null |
| `Articles.PartsOfSameDay` | custom/transform_data.py:27-37 | two cells give the same date parts exactly when both are null or both fall on the same calendar day, whatever the time of day |
| `Transform.FirstWhere` | custom/transform_data.py:23-24 | a row-wise `apply` fails at the first row where its lambda fails; no earlier row fails, and it returns nothing when no row fails |
| `Transform.TransformData` | custom/transform_data.py:17-53 | the column-by-column computation and the nested append loop give exactly `TransformSpec(df)`: the same error or the same two frames |
| `Transform.ExplodeRows` | custom/transform_data.py:40-49 | the outer loop over the rows, driven by the `is_deleted` column, builds exactly the records of the live rows, in row order |
| `Transform.AppendRowRecords` | custom/transform_data.py:42-49 | for a live row, appends exactly that row's records to the list built so far |
| `Transform.AppendRecords` | custom/transform_data.py:44-49 | the inner loop over the dict's items appends one record per key, in key order, and changes nothing already in the list |
| `TransformFacts.RecordsAt` | custom/transform_data.py:44-49 | record `k` of a row is key `k` of the dict, with the row's id and the key's count; there are as many records as keys |
| `TransformFacts.RecordsMatch` | custom/transform_data.py:44-49 | over distinct keys, each record carries the id and a key with its count; every key has a record; no word appears twice |
| `TransformFacts.ExplodeRowMatchesDict` | custom/transform_data.py:42-49 | a deleted row has no records; a live row's records match `word_count_dict(content)` one-for-one, with the row's id and no duplicate word |
| `TransformFacts.ExplodeRowTotal` | custom/transform_data.py:23 | the counts of a live row's records add up to the number of tokens of its content |
| `TransformFacts.FlatMapAppend` | custom/transform_data.py:41-49 | the records of a concatenation of batches are the records of the first batch followed by those of the second |
| `TransformFacts.FlatMapMembers` | custom/transform_data.py:41-49 | a value is among the concatenated results if and only if it is in the result for some element |
| `TransformFacts.ExplodeFromLiveRows` | custom/transform_data.py:40-49 | every word-count record comes from a live row of the batch; it carries that row's id and a word of its dict with that word's count, which is at least 1 |
| `TransformFacts.TransformFails` | custom/transform_data.py:23-24 | the transform raises if and only if some live row has a null content or a null title; a null content is reported at its first row and before any null title; a null title is reported at its first row |
| `TransformFacts.TransformKeepsRows` | custom/transform_data.py:20-53 | no row is added, dropped or reordered; the original columns are unchanged; the word-count frame is, for every split point, the records of the rows before it followed by those of the rows after it |
| `TransformFacts.TransformDerived` | custom/transform_data.py:20-37 | `is_deleted` holds exactly when `deleted_at` is set. A deleted row has `word_count` 0, `title_length` 0 and no records. A live row has a non-null content and title. Its `word_count` is its token count, which equals both the sum of its dict's counts and the sum of its records' counts. Its `title_length` is the title's length. The date parts are those of the three timestamps |
| `TransformFacts.TransformTotal` | custom/transform_data.py:23-49 | over a whole batch, the counts in the word-count frame add up to the total of the `word_count` column |
| `Load.DeletedIds` | custom/load_data_py.py:28 | no more ids than rows; an id is listed exactly when some row with that id is flagged `is_deleted` |
| `Load.LoadPlan` | custom/load_data_py.py:20-40 | the articles frame is exported first, then the word counts; the two deletes follow, articles table first, exactly when some row is flagged deleted, and both use the deleted ids |
| `Load.DeletedIdsOfBatch` | custom/load_data_py.py:28 | after a successful transform, an id is deleted exactly when some input row with that id has a `deleted_at` |
| `Load.DeletesSpareExportedRecords` | custom/load_data_py.py:28-40 | when ids are unique in the batch, no exported word-count record has an `article_id` among the deleted ids |

## Left out

- Extraction (`custom/extract_data_py.py`, `custom/extract_historical_data.py`). This is SQL run in Postgres. The batch is a parameter of the model.
- Warehouse effects (`custom/load_data_py.py`, `custom/load_historical_data.py`). What BigQuery does with an export (including `if_exists='replace'`) or with a `DELETE` is not modelled. Neither are the idempotence and deletion-completeness of the warehouse end state that follow from it. `LoadPlan` only gives the statements and their order.
- Configuration loading (`ConfigFileLoader`, `get_repo_path`), the scoping of connections by `with`, and the `@test` hooks, which only check that the output is not `None`. `custom/load_data_py.py:17` uses `path` and `get_repo_path`, which no file imports. `LoadPlan` assumes the host framework supplies both names; without them the loader raises before issuing any statement.
- The DataFrame is mutated in place. `transform_data` adds its columns to the caller's `df`, so the caller sees them too. The model returns new sequences and does not capture that aliasing.
- pandas representation. A null cell of `transform_data`'s input is `None`, whether pandas holds it as None, NaN or NaT. Column dtypes are not modelled.
- `WordCountDict`: for a null text it returns `{}`, as `word_count_dict(None)` does. `word_count_dict(NaN)` would instead raise, because `not NaN` is false and `NaN.split()` fails. `transform_data` never reaches that call with a null content, because line 23 raises first on such a row.
- `TransformData`, empty batch: the model returns two empty frames. In pandas, `apply(axis=1)` on an empty frame likely returns an empty frame rather than a column, so the assignment at line 23 would likely raise on an empty batch. That behaviour depends on pandas internals and is not modelled. An empty `word_counts_df` has no columns; it is modelled as an empty sequence.
- Timestamps are records of year, month, day, hour, minute and second. Calendar validity, time zones and parsing are not modelled. `.dt.year`, `.dt.month` and `.dt.day` are projections.
- Text is a sequence of Unicode scalar values. A lone surrogate code point, which a Python `str` can hold, has no counterpart.
- `ShapeError` carries the position of the failing row. The Python exceptions (`AttributeError`, `TypeError`) carry no such field.
