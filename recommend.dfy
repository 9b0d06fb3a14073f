/**
  The dataset recommender: the preprocessed records are held by a
  recommender object; a query's nearest-neighbour hits are scored by
  similarity, rating and distance from the user, stably sorted by final
  score (highest first) and cut to `k`.
 */
module DatasetRecommend {
  import opened Preprocess
  import opened Ranking

  /** A record with the five scores added to its copy. */
  datatype DatasetResult = DatasetResult(
    record: Record, similarity: real, distanceKm: real,
    ratingScore: real, distanceScore: real, finalScore: real)

  /** The default `r.get(col, ...)` uses for a missing coordinate. */
  const NoCoordinate: real := 999.0

  /** The distance given to a record without usable coordinates. */
  const FarAway: real := 9999.0

  /** The cells read with `float(...)` hold numbers wherever they are present. */
  predicate Numeric(r: Record) {
    forall c :: c in r && (c == Latitude || c == Longitude || c == AggregateRating) ==> r[c].Num?
  }

  /** `float(r.get(col, default))`. */
  function NumberOr(r: Record, col: Column, default: real): (x: real)
    requires Numeric(r) && (col == Latitude || col == Longitude || col == AggregateRating)
    ensures col !in r ==> x == default
    ensures col in r ==> x == r[col].value
  {
    if col in r then r[col].value else default
  }

  /**
    `distance_km`: the far-away distance when either coordinate is missing
    or equals 999, otherwise the Haversine distance from the user, which
    `haversine` gives for the record's latitude and longitude.
   */
  function DistanceKm(r: Record, haversine: (real, real) -> real): (d: real)
    requires Numeric(r)
  {
    var lat := NumberOr(r, Latitude, NoCoordinate);
    var lon := NumberOr(r, Longitude, NoCoordinate);
    if lat == NoCoordinate || lon == NoCoordinate then FarAway else haversine(lat, lon)
  }

  /** `max(0, 1 - distance_km / 100)`: 1 at the user, falling linearly to 0 at 100 km and beyond. */
  function DistanceScore(distanceKm: real): (s: real)
    ensures s >= 0.0
    ensures distanceKm >= 0.0 ==> s <= 1.0
    ensures distanceKm >= 100.0 ==> s == 0.0
    ensures distanceKm <= 100.0 ==> s == 1.0 - distanceKm / 100.0
  {
    Max0(1.0 - distanceKm / 100.0)
  }

  /** `rating / 5.0`, a missing rating counting as 0. */
  function RatingScore(r: Record): real
    requires Numeric(r)
  {
    NumberOr(r, AggregateRating, 0.0) / 5.0
  }

  /** `0.4 * sim + 0.25 * rating_score + 0.35 * distance_score`. */
  function FinalScore(sim: real, ratingScore: real, distanceScore: real): real {
    0.4 * sim + 0.25 * ratingScore + 0.35 * distanceScore
  }

  predicate AllNumeric(db: seq<Record>) {
    forall i :: 0 <= i < |db| ==> Numeric(db[i])
  }

  /** One iteration of the scoring loop. */
  function ScoreHit(db: seq<Record>, h: Hit, haversine: (real, real) -> real): DatasetResult
    requires -|db| <= h.index < |db| && AllNumeric(db)
  {
    var r := At(db, h.index);
    var d := DistanceKm(r, haversine);
    var ds := DistanceScore(d);
    var rs := RatingScore(r);
    DatasetResult(r, h.similarity, d, rs, ds, FinalScore(h.similarity, rs, ds))
  }

  /** The scored hits in search order, before sorting. */
  function ScoreAll(db: seq<Record>, hits: seq<Hit>, haversine: (real, real) -> real): seq<DatasetResult>
    requires HitsInRange(hits, |db|) && AllNumeric(db)
  {
    seq(|hits|, j requires 0 <= j < |hits| => ScoreHit(db, hits[j], haversine))
  }

  function FinalKey(x: DatasetResult): real {
    x.finalScore
  }

  /** The recommender: the records of the processed dataset, loaded once and never changed. */
  class RestaurantRecommender {
    const db: seq<Record>

    constructor(db: seq<Record>)
      ensures this.db == db
    {
      this.db := db;
    }

    /**
      `recommend_restaurants`: `hits` are the `k` search results for the
      query over the indexed descriptions and `haversine` gives the distance
      from the user's position; both are inputs. Each hit's record is scored,
      the results are stably sorted by final score, highest first, and the
      first `k` kept.
     */
    method RecommendRestaurants(hits: seq<Hit>, haversine: (real, real) -> real, k: int)
      returns (results: seq<DatasetResult>)
      requires k > 0
      requires HitsInRange(hits, |db|)
      requires AllNumeric(db)
      ensures results == TopK(ScoreAll(db, hits, haversine), FinalKey, k)
      ensures |results| == if k < |hits| then k else |hits|
      ensures SortedDesc(results, FinalKey)
      ensures forall v :: IsPrefix(WithKey(results, FinalKey, v), WithKey(ScoreAll(db, hits, haversine), FinalKey, v))
      ensures forall x :: x in results ==> x in ScoreAll(db, hits, haversine)
      ensures forall x, y :: x in results && y in multiset(ScoreAll(db, hits, haversine)) - multiset(results) ==>
        FinalKey(y) <= FinalKey(x)
    {
      var scored: seq<DatasetResult> := [];
      for i := 0 to |hits|
        invariant |scored| == i
        invariant forall j :: 0 <= j < i ==> scored[j] == ScoreHit(db, hits[j], haversine)
      {
        var h := hits[i];
        var r := At(db, h.index);
        var distanceKm := DistanceKm(r, haversine);
        var distanceScore := DistanceScore(distanceKm);
        var ratingScore := RatingScore(r);
        var finalScore := FinalScore(h.similarity, ratingScore, distanceScore);
        scored := scored + [DatasetResult(r, h.similarity, distanceKm, ratingScore, distanceScore, finalScore)];
      }
      ghost var all := ScoreAll(db, hits, haversine);
      assert scored == all;
      results := TopK(scored, FinalKey, k);
      TopKKeepsBest(scored, FinalKey, k);
    }
  }

  /** Each result is a copy of the record the hit names, with the hit's similarity; a padding `-1` names the last record. */
  lemma ResultKeepsRecord(db: seq<Record>, hits: seq<Hit>, haversine: (real, real) -> real, j: int)
    requires HitsInRange(hits, |db|) && AllNumeric(db) && 0 <= j < |hits|
    ensures ScoreAll(db, hits, haversine)[j].similarity == hits[j].similarity
    ensures hits[j].index >= 0 ==> ScoreAll(db, hits, haversine)[j].record == db[hits[j].index]
    ensures hits[j].index == -1 ==> ScoreAll(db, hits, haversine)[j].record == db[|db| - 1]
  {
  }

  /** A record missing a coordinate is placed 9999 km away and gets no distance score. */
  lemma MissingCoordinateIsFar(r: Record, haversine: (real, real) -> real)
    requires Numeric(r) && (Latitude !in r || Longitude !in r)
    ensures DistanceKm(r, haversine) == FarAway
    ensures DistanceScore(DistanceKm(r, haversine)) == 0.0
  {
  }

  /** A coordinate equal to 999 also places the record 9999 km away, with no distance score. */
  lemma PlaceholderCoordinateIsFar(r: Record, haversine: (real, real) -> real)
    requires Numeric(r)
    requires (Latitude in r && r[Latitude].value == NoCoordinate) || (Longitude in r && r[Longitude].value == NoCoordinate)
    ensures DistanceKm(r, haversine) == FarAway
    ensures DistanceScore(DistanceKm(r, haversine)) == 0.0
  {
  }

  /** A record without a rating gets a rating score of 0. */
  lemma MissingRatingScoresZero(r: Record)
    requires Numeric(r) && AggregateRating !in r
    ensures RatingScore(r) == 0.0
  {
  }

  /** A record with both coordinates, neither equal to 999, is placed at its Haversine distance. */
  lemma PresentCoordinatesUseHaversine(r: Record, haversine: (real, real) -> real)
    requires Numeric(r) && Latitude in r && Longitude in r
    requires r[Latitude].value != NoCoordinate && r[Longitude].value != NoCoordinate
    ensures DistanceKm(r, haversine) == haversine(r[Latitude].value, r[Longitude].value)
  {
  }

  /** A rating on the 0 to 5 scale gives a rating score between 0 and 1. */
  lemma RatingScoreInUnit(r: Record)
    requires Numeric(r)
    requires 0.0 <= NumberOr(r, AggregateRating, 0.0) <= 5.0
    ensures 0.0 <= RatingScore(r) <= 1.0
  {
  }

  /** The weights add up to 1, so scores in [0, 1] give a final score in [0, 1]. */
  lemma FinalScoreInUnit(sim: real, ratingScore: real, distanceScore: real)
    requires 0.0 <= sim <= 1.0 && 0.0 <= ratingScore <= 1.0 && 0.0 <= distanceScore <= 1.0
    ensures 0.0 <= FinalScore(sim, ratingScore, distanceScore) <= 1.0
  {
  }

  /** With equal similarity and distance, the better-rated record ranks strictly higher. */
  lemma BetterRatedRanksHigher(sim: real, rating1: real, rating2: real, distanceKm: real)
    requires rating1 > rating2
    ensures FinalScore(sim, rating1 / 5.0, DistanceScore(distanceKm))
          > FinalScore(sim, rating2 / 5.0, DistanceScore(distanceKm))
  {
  }

  /** With equal similarity and rating, a nearer record never ranks lower, and strictly higher within 100 km. */
  lemma NearerNeverRanksLower(sim: real, ratingScore: real, d1: real, d2: real)
    requires d1 <= d2
    ensures FinalScore(sim, ratingScore, DistanceScore(d1)) >= FinalScore(sim, ratingScore, DistanceScore(d2))
    ensures d1 < d2 && d1 < 100.0 ==>
      FinalScore(sim, ratingScore, DistanceScore(d1)) > FinalScore(sim, ratingScore, DistanceScore(d2))
  {
  }

  /** With equal rating and distance, a more similar record ranks strictly higher. */
  lemma MoreSimilarRanksHigher(sim1: real, sim2: real, ratingScore: real, distanceScore: real)
    requires sim1 > sim2
    ensures FinalScore(sim1, ratingScore, distanceScore) > FinalScore(sim2, ratingScore, distanceScore)
  {
  }
}
