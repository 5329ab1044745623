/** Top-N recommendation for one user (`get_top_n`): take the distinct
    movie ids of the catalog in order of first appearance, drop the ones the
    user has rated, score the rest with the trained model, sort the scored
    pairs by score (stable, highest first), keep the first `n` and attach
    the catalog titles.

    The trained model is the parameter `predict`, a total function standing
    for `model.predict(user_id, movie).est`; the catalog and the ratings table
    are passed in as sequences of rows. */
module RecommendUtils {
  import opened Sequences
  import opened Ranking

  type UserId = int

  /** `model.predict(user_id, movie).est` of a trained model. */
  type Predictor = (UserId, MovieId) -> real

  /** A row of the movie catalog (`movies.csv`). */
  datatype Movie = Movie(movieId: MovieId, title: string)

  /** A row of the ratings table (`ratings.csv`), as far as `get_top_n` reads it. */
  datatype Rating = Rating(userId: UserId, movieId: MovieId)

  /** A row of the returned table. */
  datatype Recommendation = Recommendation(movieId: MovieId, title: string, predictedRating: real)

  datatype Option<T> = None | Some(value: T)

  function Min(a: nat, b: nat): nat {
    if a <= b then a else b
  }

  /** The catalog's `movieId` column, with repetitions. */
  function MovieIds(catalog: seq<Movie>): seq<MovieId> {
    seq(|catalog|, i requires 0 <= i < |catalog| => catalog[i].movieId)
  }

  /** The movies `user` has rated. */
  function Watched(ratings: seq<Rating>, user: UserId): (w: set<MovieId>)
    ensures forall m :: m in w <==> Rating(user, m) in ratings
  {
    set r | r in ratings && r.userId == user :: r.movieId
  }

  function NotIn(w: set<MovieId>): MovieId -> bool {
    (m: MovieId) => m !in w
  }

  /** The distinct catalog movies `user` has not rated, in catalog order. */
  function Unseen(catalog: seq<Movie>, ratings: seq<Rating>, user: UserId): seq<MovieId> {
    Filter(Unique(MovieIds(catalog)), NotIn(Watched(ratings, user)))
  }

  /** Reference definition of the candidates: catalog movies minus history. */
  function CandidateSet(catalog: seq<Movie>, ratings: seq<Rating>, user: UserId): set<MovieId> {
    set m | m in MovieIds(catalog) && Rating(user, m) !in ratings
  }

  /** One prediction per candidate, in candidate order. */
  function Predictions(predict: Predictor, user: UserId, unseen: seq<MovieId>): seq<Prediction> {
    seq(|unseen|, i requires 0 <= i < |unseen| => Prediction(unseen[i], predict(user, unseen[i])))
  }

  /** All candidates, scored and sorted by score (stable, highest first). */
  function Ranked(predict: Predictor, user: UserId, catalog: seq<Movie>, ratings: seq<Rating>): seq<Prediction> {
    SortDesc(Predictions(predict, user, Unseen(catalog, ratings, user)))
  }

  /** The title of the first catalog row with id `m`, if any. */
  function LookupTitle(catalog: seq<Movie>, m: MovieId): (t: Option<string>)
    ensures t.Some? ==> Movie(m, t.value) in catalog
    ensures t.None? <==> m !in MovieIds(catalog)
  {
    if catalog == [] then None
    else if catalog[0].movieId == m then
      assert catalog[0] == Movie(m, catalog[0].title) && MovieIds(catalog)[0] == m;
      Some(catalog[0].title)
    else
      assert MovieIds(catalog) == [catalog[0].movieId] + MovieIds(catalog[1..]);
      LookupTitle(catalog[1..], m)
  }

  /** Inner join of the selected pairs with the catalog on `movieId`, in the
      order of the selected pairs; a pair whose movie has no catalog row
      is dropped. */
  function Merge(top: seq<Prediction>, catalog: seq<Movie>): (r: seq<Recommendation>)
    ensures |r| <= |top|
    ensures (forall i :: 0 <= i < |top| ==> top[i].movie in MovieIds(catalog)) ==>
              |r| == |top| &&
              forall i :: 0 <= i < |r| ==>
                r[i].movieId == top[i].movie && r[i].predictedRating == top[i].score &&
                LookupTitle(catalog, top[i].movie) == Some(r[i].title)
  {
    if top == [] then []
    else
      var rest := Merge(top[1..], catalog);
      match LookupTitle(catalog, top[0].movie)
      case None => rest
      case Some(t) => [Recommendation(top[0].movie, t, top[0].score)] + rest
  }

  /** The table `get_top_n(model, user_id, movies_df, n)` returns. */
  function TopN(predict: Predictor, user: UserId, catalog: seq<Movie>, ratings: seq<Rating>, n: nat := 5)
    : seq<Recommendation>
  {
    var ranked := Ranked(predict, user, catalog, ratings);
    Merge(ranked[..Min(n, |ranked|)], catalog)
  }

  // What `get_top_n` promises about a result table `r`.

  /** No returned movie was rated by `user`. */
  ghost predicate ExcludesRated(r: seq<Recommendation>, ratings: seq<Rating>, user: UserId) {
    forall i :: 0 <= i < |r| ==> Rating(user, r[i].movieId) !in ratings
  }

  /** Every returned (movie, title) pair is a row of the catalog. */
  ghost predicate FromCatalog(r: seq<Recommendation>, catalog: seq<Movie>) {
    forall i :: 0 <= i < |r| ==> Movie(r[i].movieId, r[i].title) in catalog
  }

  /** No movie is returned twice. */
  ghost predicate DistinctMovies(r: seq<Recommendation>) {
    forall i, j :: 0 <= i < j < |r| ==> r[i].movieId != r[j].movieId
  }

  /** Each returned rating is the model's prediction for that movie. */
  ghost predicate ScoredBy(r: seq<Recommendation>, predict: Predictor, user: UserId) {
    forall i :: 0 <= i < |r| ==> r[i].predictedRating == predict(user, r[i].movieId)
  }

  /** Predicted ratings never increase down the table. */
  ghost predicate RatingsDescending(r: seq<Recommendation>) {
    forall i, j :: 0 <= i < j < |r| ==> r[i].predictedRating >= r[j].predictedRating
  }

  /** A candidate left out of the table scores no higher than any movie in it. */
  ghost predicate BestOf(r: seq<Recommendation>, candidates: set<MovieId>, predict: Predictor, user: UserId) {
    forall m, i :: m in candidates && 0 <= i < |r| &&
                   (forall k :: 0 <= k < |r| ==> r[k].movieId != m) ==>
                   predict(user, m) <= r[i].predictedRating
  }

  /** Movies with equal predicted ratings appear in the order in which they
      first appear in the catalog. */
  ghost predicate TiesInCatalogOrder(r: seq<Recommendation>, catalog: seq<Movie>) {
    forall i, j :: 0 <= i < j < |r| && r[i].predictedRating == r[j].predictedRating ==>
      r[i].movieId in MovieIds(catalog) && r[j].movieId in MovieIds(catalog) &&
      FirstIndex(MovieIds(catalog), r[i].movieId) < FirstIndex(MovieIds(catalog), r[j].movieId)
  }

  /** The candidates are exactly the unrated catalog movies, each once. */
  lemma UnseenIsCandidates(catalog: seq<Movie>, ratings: seq<Rating>, user: UserId)
    ensures Distinct(Unseen(catalog, ratings, user))
    ensures Elements(Unseen(catalog, ratings, user)) == CandidateSet(catalog, ratings, user)
    ensures |Unseen(catalog, ratings, user)| == |CandidateSet(catalog, ratings, user)|
  {
    var ids := Unique(MovieIds(catalog));
    var f := NotIn(Watched(ratings, user));
    var unseen := Unseen(catalog, ratings, user);
    FilterDistinct(ids, f);
    forall m ensures m in unseen <==> m in CandidateSet(catalog, ratings, user) {
      FilterMember(ids, f, m);
    }
    DistinctCardinality(unseen);
  }

  /** Every ranked pair is a candidate with its model score. */
  lemma RankedScoresCandidates(predict: Predictor, user: UserId, catalog: seq<Movie>, ratings: seq<Rating>)
    ensures var ranked := Ranked(predict, user, catalog, ratings);
      forall i :: 0 <= i < |ranked| ==>
        ranked[i].movie in CandidateSet(catalog, ratings, user) &&
        ranked[i].score == predict(user, ranked[i].movie)
  {
    var unseen := Unseen(catalog, ratings, user);
    var preds := Predictions(predict, user, unseen);
    var ranked := Ranked(predict, user, catalog, ratings);
    UnseenIsCandidates(catalog, ratings, user);
    forall i | 0 <= i < |ranked|
      ensures ranked[i].movie in CandidateSet(catalog, ratings, user)
      ensures ranked[i].score == predict(user, ranked[i].movie)
    {
      assert ranked[i] in multiset(preds);
      var k :| 0 <= k < |preds| && preds[k] == ranked[i];
      assert unseen[k] in Elements(unseen);
    }
  }

  /** Every candidate is ranked. */
  lemma RankedCoversCandidates(predict: Predictor, user: UserId, catalog: seq<Movie>, ratings: seq<Rating>)
    ensures var ranked := Ranked(predict, user, catalog, ratings);
      forall m :: m in CandidateSet(catalog, ratings, user) ==>
        exists i :: 0 <= i < |ranked| && ranked[i].movie == m
  {
    var unseen := Unseen(catalog, ratings, user);
    var preds := Predictions(predict, user, unseen);
    var ranked := Ranked(predict, user, catalog, ratings);
    UnseenIsCandidates(catalog, ratings, user);
    forall m | m in CandidateSet(catalog, ratings, user)
      ensures exists i :: 0 <= i < |ranked| && ranked[i].movie == m
    {
      assert m in Elements(unseen);
      var k :| 0 <= k < |unseen| && unseen[k] == m;
      assert preds[k] in multiset(ranked);
      var i :| 0 <= i < |ranked| && ranked[i] == preds[k];
    }
  }

  /** No movie is ranked twice. */
  lemma RankedDistinctMovies(predict: Predictor, user: UserId, catalog: seq<Movie>, ratings: seq<Rating>)
    ensures var ranked := Ranked(predict, user, catalog, ratings);
      forall i, j :: 0 <= i < j < |ranked| ==> ranked[i].movie != ranked[j].movie
  {
    var unseen := Unseen(catalog, ratings, user);
    var preds := Predictions(predict, user, unseen);
    var ranked := Ranked(predict, user, catalog, ratings);
    UnseenIsCandidates(catalog, ratings, user);
    assert Distinct(preds);
    PermutationDistinct(preds, ranked);
    RankedScoresCandidates(predict, user, catalog, ratings);
  }

  /** The ranking lists every candidate exactly once, with its model score,
      scores never increasing. */
  lemma RankedIsCandidatesByScore(predict: Predictor, user: UserId, catalog: seq<Movie>, ratings: seq<Rating>)
    ensures var ranked := Ranked(predict, user, catalog, ratings);
      && SortedDesc(ranked)
      && |ranked| == |CandidateSet(catalog, ratings, user)|
      && (forall i :: 0 <= i < |ranked| ==>
            ranked[i].movie in CandidateSet(catalog, ratings, user) &&
            ranked[i].score == predict(user, ranked[i].movie))
      && (forall i, j :: 0 <= i < j < |ranked| ==> ranked[i].movie != ranked[j].movie)
      && (forall m :: m in CandidateSet(catalog, ratings, user) ==>
            exists i :: 0 <= i < |ranked| && ranked[i].movie == m)
  {
    UnseenIsCandidates(catalog, ratings, user);
    RankedScoresCandidates(predict, user, catalog, ratings);
    RankedCoversCandidates(predict, user, catalog, ratings);
    RankedDistinctMovies(predict, user, catalog, ratings);
  }

  /** Two equally scored ranked pairs are ranked in the catalog's
      first-appearance order of their movies. */
  lemma RankedTiesInCatalogOrder(predict: Predictor, user: UserId, catalog: seq<Movie>, ratings: seq<Rating>,
                                 x: Prediction, y: Prediction)
    requires x.score == y.score
    requires Before(Ranked(predict, user, catalog, ratings), x, y)
    ensures x.movie in MovieIds(catalog) && y.movie in MovieIds(catalog)
    ensures FirstIndex(MovieIds(catalog), x.movie) < FirstIndex(MovieIds(catalog), y.movie)
  {
    var ids := Unique(MovieIds(catalog));
    var unseen := Unseen(catalog, ratings, user);
    var preds := Predictions(predict, user, unseen);
    TiesKeepInputOrder(preds, x, y);
    var p, q :| 0 <= p < q < |preds| && preds[p] == x && preds[q] == y;
    assert unseen[p] == x.movie && unseen[q] == y.movie;
    assert Before(unseen, x.movie, y.movie);
    FilterBefore(ids, NotIn(Watched(ratings, user)), x.movie, y.movie);
    var a, b :| 0 <= a < b < |ids| && ids[a] == x.movie && ids[b] == y.movie;
    UniqueOrder(MovieIds(catalog));
  }

  /** Facts about `get_top_n` shared by the lemmas below: the result is the
      ranking's prefix of length `min(n, |candidates|)`, joined with titles. */
  lemma TopNIsRankingPrefix(predict: Predictor, user: UserId, catalog: seq<Movie>, ratings: seq<Rating>, n: nat)
    ensures var ranked := Ranked(predict, user, catalog, ratings);
            var r := TopN(predict, user, catalog, ratings, n);
      && multiset(ranked) == multiset(Predictions(predict, user, Unseen(catalog, ratings, user)))
      && |r| == Min(n, |ranked|)
      && (forall i :: 0 <= i < |r| ==>
            r[i].movieId == ranked[i].movie && r[i].predictedRating == ranked[i].score &&
            LookupTitle(catalog, r[i].movieId) == Some(r[i].title))
  {
    var ranked := Ranked(predict, user, catalog, ratings);
    RankedIsCandidatesByScore(predict, user, catalog, ratings);
    var top := ranked[..Min(n, |ranked|)];
    assert forall i :: 0 <= i < |top| ==> top[i] == ranked[i];
  }

  lemma TopNExcludesRated(predict: Predictor, user: UserId, catalog: seq<Movie>, ratings: seq<Rating>, n: nat)
    ensures ExcludesRated(TopN(predict, user, catalog, ratings, n), ratings, user)
  {
    TopNIsRankingPrefix(predict, user, catalog, ratings, n);
    RankedIsCandidatesByScore(predict, user, catalog, ratings);
  }

  lemma TopNFromCatalog(predict: Predictor, user: UserId, catalog: seq<Movie>, ratings: seq<Rating>, n: nat)
    ensures FromCatalog(TopN(predict, user, catalog, ratings, n), catalog)
    ensures DistinctMovies(TopN(predict, user, catalog, ratings, n))
  {
    TopNIsRankingPrefix(predict, user, catalog, ratings, n);
    RankedIsCandidatesByScore(predict, user, catalog, ratings);
  }

  lemma TopNLength(predict: Predictor, user: UserId, catalog: seq<Movie>, ratings: seq<Rating>, n: nat)
    ensures |TopN(predict, user, catalog, ratings, n)| == Min(n, |CandidateSet(catalog, ratings, user)|)
    ensures CandidateSet(catalog, ratings, user) == {} ==> TopN(predict, user, catalog, ratings, n) == []
  {
    TopNIsRankingPrefix(predict, user, catalog, ratings, n);
    RankedIsCandidatesByScore(predict, user, catalog, ratings);
  }

  lemma TopNScoredByModel(predict: Predictor, user: UserId, catalog: seq<Movie>, ratings: seq<Rating>, n: nat)
    ensures ScoredBy(TopN(predict, user, catalog, ratings, n), predict, user)
    ensures RatingsDescending(TopN(predict, user, catalog, ratings, n))
  {
    TopNIsRankingPrefix(predict, user, catalog, ratings, n);
    RankedIsCandidatesByScore(predict, user, catalog, ratings);
  }

  /** The top-n property: nothing left out beats anything kept. */
  lemma TopNIsBest(predict: Predictor, user: UserId, catalog: seq<Movie>, ratings: seq<Rating>, n: nat)
    ensures BestOf(TopN(predict, user, catalog, ratings, n), CandidateSet(catalog, ratings, user), predict, user)
  {
    var ranked := Ranked(predict, user, catalog, ratings);
    var r := TopN(predict, user, catalog, ratings, n);
    TopNIsRankingPrefix(predict, user, catalog, ratings, n);
    RankedIsCandidatesByScore(predict, user, catalog, ratings);
    forall m, i | m in CandidateSet(catalog, ratings, user) && 0 <= i < |r| &&
                  (forall k :: 0 <= k < |r| ==> r[k].movieId != m)
      ensures predict(user, m) <= r[i].predictedRating
    {
      var q :| 0 <= q < |ranked| && ranked[q].movie == m;
      // `m` is not among the first |r| ranked movies, so it is ranked later
      assert |r| <= q;
    }
  }

  /** When `n` covers all candidates, every candidate is returned. */
  lemma TopNAllWhenFew(predict: Predictor, user: UserId, catalog: seq<Movie>, ratings: seq<Rating>, n: nat)
    requires n >= |CandidateSet(catalog, ratings, user)|
    ensures forall m :: m in CandidateSet(catalog, ratings, user) ==>
              exists i :: 0 <= i < |TopN(predict, user, catalog, ratings, n)| &&
                          TopN(predict, user, catalog, ratings, n)[i].movieId == m
  {
    var ranked := Ranked(predict, user, catalog, ratings);
    var r := TopN(predict, user, catalog, ratings, n);
    TopNIsRankingPrefix(predict, user, catalog, ratings, n);
    RankedIsCandidatesByScore(predict, user, catalog, ratings);
    forall m | m in CandidateSet(catalog, ratings, user)
      ensures exists i :: 0 <= i < |r| && r[i].movieId == m
    {
      var q :| 0 <= q < |ranked| && ranked[q].movie == m;
      assert r[q].movieId == m;
    }
  }

  /** Stability: equally scored movies keep the catalog's first-appearance order. */
  lemma TopNTiesInCatalogOrder(predict: Predictor, user: UserId, catalog: seq<Movie>, ratings: seq<Rating>, n: nat)
    ensures TiesInCatalogOrder(TopN(predict, user, catalog, ratings, n), catalog)
  {
    var ranked := Ranked(predict, user, catalog, ratings);
    var r := TopN(predict, user, catalog, ratings, n);
    TopNIsRankingPrefix(predict, user, catalog, ratings, n);
    forall i, j | 0 <= i < j < |r| && r[i].predictedRating == r[j].predictedRating
      ensures r[i].movieId in MovieIds(catalog) && r[j].movieId in MovieIds(catalog) &&
              FirstIndex(MovieIds(catalog), r[i].movieId) < FirstIndex(MovieIds(catalog), r[j].movieId)
    {
      assert Before(ranked, ranked[i], ranked[j]);
      RankedTiesInCatalogOrder(predict, user, catalog, ratings, ranked[i], ranked[j]);
    }
  }

  /** `get_top_n`: filter, score, sort in place, keep `n`, join titles. */
  method GetTopN(predict: Predictor, user: UserId, catalog: seq<Movie>, ratings: seq<Rating>, n: nat := 5)
    returns (result: seq<Recommendation>)
    ensures result == TopN(predict, user, catalog, ratings, n)
    ensures ExcludesRated(result, ratings, user)
    ensures FromCatalog(result, catalog) && DistinctMovies(result)
    ensures |result| == Min(n, |CandidateSet(catalog, ratings, user)|)
    ensures ScoredBy(result, predict, user) && RatingsDescending(result)
    ensures BestOf(result, CandidateSet(catalog, ratings, user), predict, user)
    ensures TiesInCatalogOrder(result, catalog)
  {
    var movieIds := Unique(MovieIds(catalog));
    var watched := Watched(ratings, user);
    var unseen := Filter(movieIds, NotIn(watched));
    var predictions := Predictions(predict, user, unseen);
    var a := new Prediction[|predictions|](i requires 0 <= i < |predictions| => predictions[i]);
    assert a[..] == predictions;
    SortByScoreDescending(a);
    var topN := a[..Min(n, a.Length)];
    result := Merge(topN, catalog);
    TopNExcludesRated(predict, user, catalog, ratings, n);
    TopNFromCatalog(predict, user, catalog, ratings, n);
    TopNLength(predict, user, catalog, ratings, n);
    TopNScoredByModel(predict, user, catalog, ratings, n);
    TopNIsBest(predict, user, catalog, ratings, n);
    TopNTiesInCatalogOrder(predict, user, catalog, ratings, n);
  }

  /** The candidates when the catalog holds one movie the user rated and
      two others, `x` and `y`. */
  lemma ThreeMovieCandidates(catalog: seq<Movie>, ratings: seq<Rating>, user: UserId, rated: Movie, x: Movie, y: Movie)
    requires x.movieId != y.movieId && rated.movieId != x.movieId && rated.movieId != y.movieId
    requires forall c :: c in catalog <==> c == rated || c == x || c == y
    requires ratings == [Rating(user, rated.movieId)]
    ensures CandidateSet(catalog, ratings, user) == {x.movieId, y.movieId}
    ensures |CandidateSet(catalog, ratings, user)| == 2
  {
    forall m ensures m in CandidateSet(catalog, ratings, user) <==> m == x.movieId || m == y.movieId {
      if m in MovieIds(catalog) {
        var k :| 0 <= k < |catalog| && MovieIds(catalog)[k] == m;
        assert catalog[k] in catalog;
      }
      if m == x.movieId || m == y.movieId {
        var c := if m == x.movieId then x else y;
        assert c in catalog;
        var k :| 0 <= k < |catalog| && catalog[k] == c;
        assert MovieIds(catalog)[k] == m;
      }
    }
  }

  /** The returned rows in that case: each is `x` or `y` with its score. */
  lemma TwoCandidateRows(predict: Predictor, user: UserId, catalog: seq<Movie>, ratings: seq<Rating>,
                         n: nat, rated: Movie, x: Movie, y: Movie)
    requires n >= 2
    requires x.movieId != y.movieId && rated.movieId != x.movieId && rated.movieId != y.movieId
    requires forall c :: c in catalog <==> c == rated || c == x || c == y
    requires ratings == [Rating(user, rated.movieId)]
    ensures var r := TopN(predict, user, catalog, ratings, n);
      && |r| == 2
      && (forall i :: 0 <= i < |r| ==>
            r[i] == Recommendation(x.movieId, x.title, predict(user, x.movieId)) ||
            r[i] == Recommendation(y.movieId, y.title, predict(user, y.movieId)))
      && r[0].movieId != r[1].movieId
      && r[0].predictedRating >= r[1].predictedRating
  {
    var r := TopN(predict, user, catalog, ratings, n);
    ThreeMovieCandidates(catalog, ratings, user, rated, x, y);
    TopNLength(predict, user, catalog, ratings, n);
    TopNExcludesRated(predict, user, catalog, ratings, n);
    TopNFromCatalog(predict, user, catalog, ratings, n);
    TopNScoredByModel(predict, user, catalog, ratings, n);
    forall i | 0 <= i < |r|
      ensures r[i] == Recommendation(x.movieId, x.title, predict(user, x.movieId)) ||
              r[i] == Recommendation(y.movieId, y.title, predict(user, y.movieId))
    {
      var row := Movie(r[i].movieId, r[i].title);
      assert row in catalog;
      assert row != rated;
    }
  }

  /** A client of the promises above: three movies, movie 1 already rated,
      movie 2 predicted 4.0 and movie 3 predicted 3.5, whatever the model
      says of the rated movie; asking for two gives B then C. */
  lemma RatedMovieSkippedExample(predict: Predictor, user: UserId, catalog: seq<Movie>, ratings: seq<Rating>)
    requires catalog == [Movie(1, "A"), Movie(2, "B"), Movie(3, "C")]
    requires ratings == [Rating(user, 1)]
    requires predict(user, 2) == 4.0 && predict(user, 3) == 3.5
    ensures TopN(predict, user, catalog, ratings, 2)
            == [Recommendation(2, "B", 4.0), Recommendation(3, "C", 3.5)]
  {
    TwoCandidateRows(predict, user, catalog, ratings, 2, Movie(1, "A"), Movie(2, "B"), Movie(3, "C"));
  }

  /** Two candidates that tie come back in the order in which the catalog
      first lists them. */
  lemma TiedCandidatesInCatalogOrder(predict: Predictor, user: UserId, catalog: seq<Movie>, ratings: seq<Rating>,
                                     n: nat, rated: Movie, x: Movie, y: Movie)
    requires n >= 2
    requires x.movieId != y.movieId && rated.movieId != x.movieId && rated.movieId != y.movieId
    requires forall c :: c in catalog <==> c == rated || c == x || c == y
    requires ratings == [Rating(user, rated.movieId)]
    requires predict(user, x.movieId) == predict(user, y.movieId)
    requires x.movieId in MovieIds(catalog) && y.movieId in MovieIds(catalog)
    requires FirstIndex(MovieIds(catalog), x.movieId) < FirstIndex(MovieIds(catalog), y.movieId)
    ensures TopN(predict, user, catalog, ratings, n)
            == [Recommendation(x.movieId, x.title, predict(user, x.movieId)),
                Recommendation(y.movieId, y.title, predict(user, y.movieId))]
  {
    TwoCandidateRows(predict, user, catalog, ratings, n, rated, x, y);
    TopNTiesInCatalogOrder(predict, user, catalog, ratings, n);
  }

  /** A client of the stability promise: movies 3 and 2 tie at 4.0 and come
      back in catalog order, 3 before 2, not in id order. */
  lemma TieKeepsCatalogOrderExample(predict: Predictor, user: UserId, catalog: seq<Movie>, ratings: seq<Rating>)
    requires catalog == [Movie(3, "C"), Movie(1, "A"), Movie(2, "B")]
    requires ratings == [Rating(user, 1)]
    requires predict(user, 2) == 4.0 && predict(user, 3) == 4.0
    ensures TopN(predict, user, catalog, ratings, 5)
            == [Recommendation(3, "C", 4.0), Recommendation(2, "B", 4.0)]
  {
    var ids := MovieIds(catalog);
    assert ids == [3, 1, 2];
    FirstIndexAt(ids, 3, 0);
    FirstIndexAt(ids, 2, 2);
    TiedCandidatesInCatalogOrder(predict, user, catalog, ratings, 5, Movie(1, "A"), Movie(3, "C"), Movie(2, "B"));
  }
}
