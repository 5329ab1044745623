# Top-N movie recommendation, modelled in Dafny

This project models `get_top_n` from the movie recommender's web app
(`webapp/recommend_utils.py`, lines 47-59). For one user it proceeds in these steps:

1. It takes the distinct movie ids of the catalog in order of first
   appearance (`Series.unique()`).
2. It drops the movies that user has rated.
3. It scores each remaining movie with the trained model.
4. It sorts the `(movie, score)` pairs by score, highest first. Python's
   `list.sort` is stable.
5. It keeps the first `n` pairs and joins them with the catalog to add
   the titles.

The project has three modules:

- `Sequences` (`sequences.dfy`) holds the generic sequence facts:
  - `Filter`, the list comprehension at line 51;
  - `Unique`, which deduplicates in first-appearance order;
  - `FirstIndex`, the first position of a value;
  - `Before`, relative order in a sequence;
  - distinctness.
- `Ranking` (`ranking.dfy`) covers the scored pairs and the sort at line 54.
  - `SortDesc` is the reference definition of the sort: a stable insertion
    sort on values.
  - `SortByScoreDescending` sorts an `array` in place. It is proved to
    leave exactly `SortDesc` of the array's old contents.
  - Stability is proved for `SortDesc`: for every score, the pairs with
    that score keep their input order.
- `RecommendUtils` (`recommend_utils.dfy`) holds `get_top_n`'s steps:
  - `TopN` is the whole function as a value. Like the source, it defaults
    `n` to 5, and so does `GetTopN`.
  - The method `GetTopN` follows the source step by step. It builds an
    array of predictions, sorts it in place and slices it. It is proved
    to return `TopN` and to keep every promise below.
  - The promises are: no rated movie is returned; every returned
    (movie, title) pair is a catalog row; no movie is returned twice; the
    length is `min(n, |unrated catalog movies|)`; each rating is the
    model's prediction; ratings never increase; no candidate that was
    left out scores higher than one that was kept; equal ratings come
    back in the catalog's first-appearance order.

The trained model is a parameter `predict: (UserId, MovieId) -> real`,
standing for `model.predict(user_id, movie).est`. The ratings table, which
line 49 reads from disk, is a parameter `ratings: seq<Rating>`. The
catalog `movies_df` is a `seq<Movie>`.

### Ordering of ties, and `n = 0`

- **Tie-breaking.** Line 54 sorts by the score alone, and Python's sort is
  stable. Equal scores therefore stay in the order of the candidate list,
  which is the catalog's first-appearance order (line 48), not movie id
  order.
  - `TopNTiesInCatalogOrder` states the order the code produces.
  - `TieKeepsCatalogOrderExample` shows a catalog where two tied movies
    come back with id 3 before id 2.
- **`n = 0`.** The code accepts any non-negative `n`, and `n = 0` returns
  an empty table. The model takes `n: nat` and needs no precondition on it.

## Model

| member | source | states |
|---|---|---|
| Sequences.Unique | webapp/recommend_utils.py:48 | the result has no repetitions, and contains exactly the elements of the input column |
| Sequences.UniqueOrder | webapp/recommend_utils.py:48 | `unique()` lists ids in order of their first occurrence in the catalog |
| Sequences.FirstIndex | webapp/recommend_utils.py:48 | the position returned holds the value, and no earlier position does |
| Sequences.Filter | webapp/recommend_utils.py:51 | the comprehension keeps exactly the elements satisfying the condition, each from the input, never more elements than the input has |
| Sequences.FilterMember | webapp/recommend_utils.py:51 | an element is kept if and only if it is in the input and satisfies the condition |
| Sequences.FilterBefore | webapp/recommend_utils.py:51 | filtering keeps the relative order of kept elements and creates no new order: x before y after filtering if and only if x before y before it and both are kept |
| Sequences.FilterDistinct | webapp/recommend_utils.py:51 | filtering a list without repetitions gives a list without repetitions |
| Sequences.FilterAppend | webapp/recommend_utils.py:51 | filtering a concatenation is the concatenation of the filtered parts |
| Sequences.PermutationDistinct | webapp/recommend_utils.py:54 | reordering a list without repetitions (any permutation) leaves none |
| RecommendUtils.MovieIds | webapp/recommend_utils.py:48 | no contract of its own (the catalog's `movieId` column); stated by `UnseenIsCandidates`, `LookupTitle` and `TopNTiesInCatalogOrder` |
| RecommendUtils.Watched | webapp/recommend_utils.py:49-50 | a movie is in the watched set if and only if the ratings table has a row for this user and that movie |
| RecommendUtils.UnseenIsCandidates | webapp/recommend_utils.py:48-51 | the unseen list has no repetitions, and its elements are exactly the catalog movies the user has not rated |
| RecommendUtils.Unseen | webapp/recommend_utils.py:51 | no contract of its own; stated by `UnseenIsCandidates` |
| RecommendUtils.Predictions | webapp/recommend_utils.py:53 | no contract of its own; stated by `RankedScoresCandidates`, `RankedCoversCandidates` and `TopNIsRankingPrefix` |
| RecommendUtils.Ranked | webapp/recommend_utils.py:53-54 | no contract of its own; stated by `RankedIsCandidatesByScore`, `RankedTiesInCatalogOrder` and `TopNIsRankingPrefix` |
| Ranking.SortDesc | webapp/recommend_utils.py:54 | the sorted list has the input's length and elements (same multiset), with scores non-increasing |
| Ranking.InsertSorted | webapp/recommend_utils.py:54 | inserting one pair into a descending list keeps it descending |
| Ranking.InsertPermutes | webapp/recommend_utils.py:54 | inserting adds exactly the inserted pair to the multiset of elements |
| Ranking.ScoreClassInsert | webapp/recommend_utils.py:54 | inserting a pair appends it after all pairs of equal score already present |
| Ranking.SortDescStable | webapp/recommend_utils.py:54 | the sort is stable: for every score, the pairs with that score appear in the same order as in the input |
| Ranking.TiesKeepInputOrder | webapp/recommend_utils.py:54 | two equally scored pairs come out of the sort in the order in which they went in |
| Ranking.InsertAt | webapp/recommend_utils.py:54 | a pair is inserted at the first position whose element scores strictly lower |
| Ranking.ShiftIntoPlace | webapp/recommend_utils.py:54 | one insertion step on the array: a[i] moves left past the strictly lower-scored prefix elements, which shift right; the prefix becomes the old prefix with a[i] at the returned position; later cells are unchanged |
| Ranking.SortByScoreDescending | webapp/recommend_utils.py:54 | after the in-place sort the array holds exactly the stable descending sort of its old contents, so it is sorted and a permutation of them |
| RecommendUtils.LookupTitle | webapp/recommend_utils.py:57-58 | a title is found if and only if the catalog has a row with that movie id, and a found title belongs to such a row |
| RecommendUtils.Merge | webapp/recommend_utils.py:57-58 | the join never yields more rows than pairs; when every pair's movie has a catalog row, none is dropped and each row keeps the pair's movie and predicted rating, in the same order, with that movie's catalog title |
| RecommendUtils.RankedScoresCandidates | webapp/recommend_utils.py:48-54 | every ranked pair is an unrated catalog movie with exactly the model's prediction as score |
| RecommendUtils.RankedCoversCandidates | webapp/recommend_utils.py:48-54 | every unrated catalog movie appears in the ranking |
| RecommendUtils.RankedDistinctMovies | webapp/recommend_utils.py:48-54 | no movie appears twice in the ranking |
| RecommendUtils.RankedIsCandidatesByScore | webapp/recommend_utils.py:48-54 | the ranking lists each unrated catalog movie exactly once with its model score, scores non-increasing |
| RecommendUtils.RankedTiesInCatalogOrder | webapp/recommend_utils.py:48-54 | two equally scored ranked movies are ranked in the order in which the catalog first lists them |
| RecommendUtils.TopN | webapp/recommend_utils.py:47-59 | no contract of its own (`get_top_n` as a value, `n` defaulting to 5); stated by the `TopN…` lemmas below and by `GetTopN` |
| RecommendUtils.TopNIsRankingPrefix | webapp/recommend_utils.py:53-58 | the sorted predictions are a permutation of the scored candidates, and the result is their first min(n, count) entries joined with titles |
| RecommendUtils.TopNExcludesRated | webapp/recommend_utils.py:49-51 | no returned movie was rated by the user |
| RecommendUtils.TopNFromCatalog | webapp/recommend_utils.py:48-58 | every returned (movie, title) pair is a catalog row, and no movie is returned twice |
| RecommendUtils.TopNLength | webapp/recommend_utils.py:51-55 | the result has exactly min(n, number of unrated catalog movies) rows; no candidates gives an empty result |
| RecommendUtils.TopNScoredByModel | webapp/recommend_utils.py:53-54 | each returned rating is the model's prediction for that user and movie, and ratings never increase down the table |
| RecommendUtils.TopNIsBest | webapp/recommend_utils.py:54-55 | no unrated catalog movie left out of the result is predicted higher than any returned movie |
| RecommendUtils.TopNAllWhenFew | webapp/recommend_utils.py:51-55 | when n is at least the number of candidates, every candidate is returned |
| RecommendUtils.TopNTiesInCatalogOrder | webapp/recommend_utils.py:48-54 | equally rated returned movies appear in the catalog's first-appearance order |
| RecommendUtils.GetTopN | webapp/recommend_utils.py:47-59 | the step-by-step procedure (in-place array sort, slice, join) returns the specified table, and that table has every property above |
| RecommendUtils.ThreeMovieCandidates | webapp/recommend_utils.py:48-51 | a catalog of one rated and two other movies leaves exactly those two as candidates |
| RecommendUtils.TwoCandidateRows | webapp/recommend_utils.py:47-59 | in that case the result has the two other movies, once each, with their titles and predictions, the higher one first |
| RecommendUtils.RatedMovieSkippedExample | webapp/recommend_utils.py:47-59 | catalog A, B, C with A rated and predictions 4.0 for B and 3.5 for C: asking for 2 gives B (4.0), then C (3.5) |
| RecommendUtils.TiedCandidatesInCatalogOrder | webapp/recommend_utils.py:47-59 | two tied candidates come back in the catalog's order of first appearance |
| RecommendUtils.TieKeepsCatalogOrderExample | webapp/recommend_utils.py:47-59 | catalog C(3), A(1), B(2) with 1 rated and movies 2 and 3 tied at 4.0: the result lists 3 before 2, by catalog order and not by id |

## Left out

- `load_movies`, `load_ratings` (lines 11-18): CSV reading from disk. The catalog and the ratings table are parameters, including the ratings table that line 49 loads.
- `train_model` (lines 21-43): the model is loaded with `joblib` or trained with the library's SVD, then saved. The trained model is the abstract `predict` parameter. Its internals are not modelled: biases, factor vectors and clipping to the rating scale.
- The `rating` column of the ratings table and the catalog's columns other than `movieId` and `title` are not read by `get_top_n`, so they are not modelled.
- Scores are Dafny `real`, not floating point. NaN scores and rounding are not modelled.
- RecommendUtils.LookupTitle: a catalog with several rows for one movie id makes `pd.merge` emit one row per match. The model returns the first matching row's title only.
- RecommendUtils.TopN: line 58 projects the result to its `title` and `predicted_rating` columns. The model keeps `movieId` in each row so that the properties can name the movie.
- RecommendUtils.TopN: `n` is a `nat`. A negative `n` in Python slices off elements from the end, and that case is not modelled.
- Ranking.SortByScoreDescending: Python's `list.sort` is Timsort. The model sorts by insertion instead. Only the result is modelled, and any stable sort by score gives the same result.
- The Streamlit front end (`app.py`) is not part of this model. It covers user selection, display and score formatting.
- Model persistence and training are not part of this model. They live outside `get_top_n`.
