# Restaurant recommendation core, modelled in Dafny

This project models the ranking core of a restaurant recommendation API.
The API has two recommenders:

- **The live recommender** (`OSMRecommender`) queries OpenStreetMap through Overpass. It normalises every element with a `name` into a fixed record, builds a description for each record, and scores each search hit as `0.6 * similarity + 0.4 * max(0, 1 - distance_km / (radius / 1000))`; the radius is in metres and the distance in kilometres. It then stably sorts by that score, highest first, and keeps `k`.
- **The dataset recommender** (`RestaurantRecommender`) works on records prepared offline. The offline preprocessing step does the following, in order:
  1. removes U+FFFD replacement characters
  2. selects twelve columns and drops incomplete rows
  3. coerces the coordinates to numbers and drops rows whose coordinates do not parse
  4. cleans the cuisines and rating text with `clean_text`
  5. builds one description per record, which is embedded and indexed in record order.

  At query time each hit is scored as `0.4 * similarity + 0.25 * rating / 5 + 0.35 * max(0, 1 - distance / 100)`. A record without coordinates, or with a coordinate equal to 999, counts as 9,999 km away. The results are sorted and cut like the live ones.

The `/chat` endpoint answers with a fixed apology when the live recommender finds nothing. Otherwise it cuts the assistant's answer out of the decoded generation: the stripped text after the last `<|im_start|>assistant`, then the stripped text before the first `<|im_end|>`.

## Modules

Each module has one file:

- `Wrappers`: `Option`.
- `PyStr`: the Python `str` operations the core relies on: `isspace`, `strip`, `in`/`find`, `split` and `join`.
- `SplitPieces`: the first and last pieces of a `split`.
- `Seqs`: map, filter, keeping the `Some` values, and `InOrder`. `InOrder` says a text shows a list of fields in order.
- `Ranking`: search hits, Python indexing, `max(0, x)`, and the stable descending sort with `[:k]`. Both recommenders use these.
- `TextCleaning`: `clean_text`.
- `OsmRecommend`: the live recommender.
- `Preprocess`: the offline preprocessing step.
- `DatasetRecommend`: the dataset recommender. It is a class whose `db` is fixed at construction.
- `ChatEndpoint`: the string logic of `/chat`.

`clean_text` replaces each character outside its class with a space; it does not delete it. The class holds only `a-z`, digits, space and `áéíóúãõç`.

## Model

| member | source | states |
|---|---|---|
| TextCleaning.Lower | app/utils/text_cleaning.py:4 | lower-casing leaves characters of the class unchanged, maps `A`-`Z` and the Latin-1 capitals `À`-`Þ` (except `×`) to their lower case, and the Kelvin sign to `k` |
| TextCleaning.Blank | app/utils/text_cleaning.py:5 | a character of `[a-z0-9áéíóúãõç ]` is kept and any other becomes a space |
| TextCleaning.CollapseSpaces | app/utils/text_cleaning.py:6 | the result never has two spaces in a row and turns whitespace into spaces; every other character comes from the input |
| TextCleaning.CollapseRun | app/utils/text_cleaning.py:6 | each maximal run of whitespace becomes exactly one space, with the collapsed text before and after it on either side |
| PyStr.Strip | app/utils/text_cleaning.py:7 | `strip()` removes exactly the leading and trailing whitespace and keeps the middle |
| PyStr.StripUnique | app/utils/text_cleaning.py:7 | the stripped form of a text is unique |
| TextCleaning.CleanText | app/utils/text_cleaning.py:3-7 | the output contains only characters of the class, has no doubled space and no space at either end, and is no longer than the input |
| TextCleaning.CleanTextFixesClean | app/utils/text_cleaning.py:3-7 | a text that is already clean comes back unchanged |
| TextCleaning.CleanTextIdempotent | app/utils/text_cleaning.py:3-7 | cleaning twice is cleaning once |
| TextCleaning.DisallowedSeparates | app/utils/text_cleaning.py:5-7 | a disallowed character between two clean words becomes exactly one space |
| TextCleaning.HyphenBecomesSpace | app/utils/text_cleaning.py:5 | `clean_text("a-b")` is `"a b"` |
| OsmRecommend.NormalizeOsm | app/osm_recommend.py:75-97 | `None` exactly when the tags, empty when absent, lack `name`; otherwise `id`/`lat`/`lon` come from the node and every other field is its tag or `"unknown"` |
| OsmRecommend.NormalizeRoundTrip | app/osm_recommend.py:75-97 | normalising the node rebuilt from a record gives back that record |
| OsmRecommend.NamedRecords | app/osm_recommend.py:64-65 | every record comes from a named element and no named element is lost |
| OsmRecommend.NamedRecordsAppend | app/osm_recommend.py:64-65 | the records keep the order of the elements |
| OsmRecommend.NamedRecordsSingle | app/osm_recommend.py:64-65 | one element gives its record exactly when it has a name |
| OsmRecommend.FetchOsmRestaurants | app/osm_recommend.py:41-73 | a timeout, transport error, status other than 200, non-JSON body or missing `elements` gives no records; otherwise the named elements, normalised, in order |
| OsmRecommend.DescriptionLayout | app/osm_recommend.py:99-113 | the description shows name, cuisine, opening hours, latitude, longitude, city, street, neighbourhood and amenity in that order; its length is 94 plus their lengths |
| OsmRecommend.BuildDescription | app/osm_recommend.py:99-113 | the eight f-string pieces joined as written: no separator after the street or the neighbourhood, and no space after `.` before `City:` and `Street:`; DescriptionLayout states the field order it yields |
| OsmRecommend.DistScore | app/osm_recommend.py:177 | for a positive radius and a distance of at least 0, the score lies in [0, 1]; it is 0 at or beyond the radius in km |
| OsmRecommend.CloserNeverLower | app/osm_recommend.py:177-180 | with equal similarity, a nearer candidate never scores lower |
| OsmRecommend.CloserInsideRadiusWins | app/osm_recommend.py:177-180 | with equal similarity, a candidate strictly inside the radius beats any farther one |
| OsmRecommend.LiveScore | app/osm_recommend.py:180 | `0.6 * sim + 0.4 * dist_score`; a similarity and a distance score in [0, 1] give a final score in [0, 1]. CloserNeverLower and CloserInsideRadiusWins state how it orders candidates |
| OsmRecommend.ScoreHits | app/osm_recommend.py:170-187 | one scored copy per hit, in search order (as many results as hits); ScoredHitSource states what each one holds |
| OsmRecommend.ScoredHitSource | app/osm_recommend.py:170-187 | each scored hit copies the candidate its index names, with its similarity and distance; a `-1` index names the last candidate |
| OsmRecommend.Recommend | app/osm_recommend.py:143-192 | no candidates gives `[]`, whatever `k` is. Otherwise the result is the scored hits stably sorted by final score, highest first, and cut to `k`. It holds `min(k, hits)` elements in non-increasing order, all drawn from the scored hits. No hit left out scores higher than a kept one, and equal scores keep search order. |
| OsmRecommend.RankHits | app/osm_recommend.py:169-192 | the loop appends one scored copy per hit, and the result is those copies stably sorted by final score, highest first, and cut to `k` |
| Ranking.SortDesc | app/osm_recommend.py:190 | the sort returns a permutation of its input in non-increasing key order |
| Ranking.SortDescStable | app/osm_recommend.py:190 | elements with equal keys keep their original order |
| Ranking.TopK | app/recommend.py:69-71 | `sorted(..., reverse=True)[:k]` has `min(k, n)` elements, sorted, drawn from the input, and keeps the first ones of each key in order |
| Ranking.TopKKeepsBest | app/recommend.py:69-71 | no element left out by the cut has a higher key than a kept one |
| Ranking.At | app/recommend.py:33 | Python indexing: a negative index counts from the end |
| Preprocess.RemoveReplacementChars | app/preprocess.py:14-17 | a text cell loses every U+FFFD, keeps its other characters and gains none: it shrinks by exactly its number of U+FFFD; any other cell is returned unchanged |
| Preprocess.RemoveReplacementCharsDeletes | app/preprocess.py:16 | a lone U+FFFD is deleted, not replaced |
| Preprocess.RemoveReplacementCharsKeeps | app/preprocess.py:14-17 | any other lone character is kept |
| Preprocess.RemoveReplacementCharsIdempotent | app/preprocess.py:14-17 | removing twice is removing once |
| Preprocess.RemoveReplacementCharsAppend | app/preprocess.py:14-17 | removal works piece by piece, so the kept characters stay in order |
| Preprocess.CleanCells | app/preprocess.py:28 | every cell of a row is cleaned and the columns are kept |
| Preprocess.SelectRequired | app/preprocess.py:31-43 | a selected row holds exactly the required columns present in the raw row, with their cells |
| Preprocess.ToNumeric | app/preprocess.py:47-48 | a text cell becomes its number when it parses and missing otherwise; numbers and missing cells stay |
| Preprocess.FilteredFrame | app/preprocess.py:28-50 | the table after the column-wise steps; FilteredRowwise states that it keeps exactly the rows ProcessRow accepts, in order |
| Preprocess.ProcessRow | app/preprocess.py:28-50 | one row through the cleaning, selection, drop of missing cells and coercion; SurvivesIff and SurvivorShape state when it survives and what it holds |
| Preprocess.FilteredRowwise | app/preprocess.py:28-50 | the column-wise table steps keep exactly the rows that survive one by one, in their original order |
| Preprocess.SurvivorsAppend | app/preprocess.py:28-50 | survival is decided per row, so order is kept |
| Preprocess.SurvivesIff | app/preprocess.py:31-50 | a row survives exactly when all twelve required columns have a value and both coordinates are numbers or parse as numbers |
| Preprocess.SurvivorShape | app/preprocess.py:31-50 | a survivor holds exactly the twelve columns; its coordinates are numbers and every other cell is the raw cell with U+FFFD removed |
| Preprocess.FinishedColumns | app/preprocess.py:53-54 | `clean_cuisines` and `clean_rating_text` are `clean_text` of the raw cells with replacement characters removed |
| Preprocess.Template | app/preprocess.py:57-63 | the description template, written once; TemplateLayout states that it shows its nine fields in order |
| Preprocess.Description | app/preprocess.py:57-63 | a row's rendered fields put into the template; DescriptionLayout states their order |
| Preprocess.TemplateLayout | app/preprocess.py:57-63 | the description template shows its nine fields in order |
| Preprocess.DescriptionLayout | app/preprocess.py:57-63 | a description shows name, city, cleaned cuisines, cost for two, price range, rating, cleaned rating text, votes and address in that order |
| Preprocess.RunPreprocess | app/preprocess.py:28-75 | a KeyError exactly when a required column is missing. An AttributeError exactly when a survivor's cuisines or rating text is not text. NoRecords exactly when no row survives, since no index can be built from an empty corpus. Otherwise the records are the survivors in order, never none, with the added columns; the corpus is their descriptions one for one, and one vector is indexed per record. |
| Preprocess.Corpus | app/preprocess.py:69 | the corpus has one entry per record, and entry `i` is the description of record `i` |
| DatasetRecommend.DistanceScore | app/recommend.py:45-46 | a distance of at least 0 scores in [0, 1], falling linearly to 0 at 100 km and staying 0 beyond |
| DatasetRecommend.DistanceKm | app/recommend.py:36-42 | 9999 km for a missing or 999 coordinate, otherwise the Haversine distance; stated by MissingCoordinateIsFar, PlaceholderCoordinateIsFar and PresentCoordinatesUseHaversine |
| DatasetRecommend.RatingScore | app/recommend.py:49-50 | `rating / 5`, with 0 for a missing rating; stated by MissingRatingScoresZero and RatingScoreInUnit |
| DatasetRecommend.FinalScore | app/recommend.py:53-57 | `0.4 * sim + 0.25 * rating_score + 0.35 * distance_score`; FinalScoreInUnit and the three ranking lemmas below state its bounds and order |
| DatasetRecommend.MissingCoordinateIsFar | app/recommend.py:36-40 | a record missing a coordinate is 9999 km away with distance score 0 |
| DatasetRecommend.PlaceholderCoordinateIsFar | app/recommend.py:36-46 | a record with a coordinate equal to 999 is 9999 km away with distance score 0 |
| DatasetRecommend.MissingRatingScoresZero | app/recommend.py:49-50 | a record without a rating gets rating score 0 |
| DatasetRecommend.PresentCoordinatesUseHaversine | app/recommend.py:36-42 | a record with both coordinates, neither equal to 999, gets the Haversine distance to them |
| DatasetRecommend.RatingScoreInUnit | app/recommend.py:49-50 | a rating between 0 and 5 gives a rating score between 0 and 1 |
| DatasetRecommend.FinalScoreInUnit | app/recommend.py:53-57 | the weights add to 1, so sub-scores in [0, 1] give a final score in [0, 1] |
| DatasetRecommend.BetterRatedRanksHigher | app/recommend.py:49-57 | with equal similarity and distance, the better-rated record scores strictly higher |
| DatasetRecommend.NearerNeverRanksLower | app/recommend.py:44-57 | with equal similarity and rating, a nearer record never scores lower, and scores strictly higher within 100 km |
| DatasetRecommend.MoreSimilarRanksHigher | app/recommend.py:53-57 | with equal rating and distance, the more similar record scores strictly higher |
| DatasetRecommend.ResultKeepsRecord | app/recommend.py:32-33 | each result copies the record its hit names, with the hit's similarity; a `-1` index names the last record |
| DatasetRecommend.RestaurantRecommender.constructor | app/recommend.py:13-19 | the recommender holds the processed records it is given |
| DatasetRecommend.RestaurantRecommender.RecommendRestaurants | app/recommend.py:21-71 | the result is the scored hits, stably sorted by final score highest first and cut to `k`. It holds `min(k, hits)` elements in non-increasing order, all drawn from the scored hits. No hit left out scores higher than a kept one, and equal scores keep search order. |
| PyStr.Split | app/main.py:104 | `split` gives one piece exactly when the separator does not occur |
| PyStr.SplitJoin | app/main.py:104 | joining the pieces with the separator gives back the text |
| PyStr.SplitPiecesFree | app/main.py:104 | no piece contains the separator |
| ChatEndpoint.AfterAssistantTag | app/main.py:103-104 | when the tag occurs, the result is the stripped text after its last occurrence. It never contains the tag and is part of the input. |
| ChatEndpoint.BeforeEndTag | app/main.py:106-107 | when the end tag occurs, the result is the stripped text before its first occurrence. It never contains the tag and is part of the input. |
| ChatEndpoint.ExtractResponse | app/main.py:102-109 | the answer contains neither tag and is a contiguous part of the decoded text; a text with neither tag comes back unchanged |
| ChatEndpoint.ChatResponse | app/main.py:55-109 | no results gives the fixed apology; otherwise exactly the extracted answer, so free of both tags and a part of the decoded text |

## Left out

- HTTP routes, the FastAPI application, static files and JSON serialisation are not modelled. Only the string logic of `/chat` and the record logic are.
- The Overpass request is a parameter. The outcome of the POST is an input (`Reply`): timeout, transport error, or status with parsed body.
- Embedding, L2 normalisation and the FAISS index are not modelled. The search hits (index and similarity) are an input. A padding `-1` index is modelled through Python indexing.
- Haversine distance is not modelled because it is floating-point trigonometry. The live recommender takes each candidate's distance as an input. The dataset recommender takes a distance function of the record's coordinates.
- Floating point: scores are exact reals, so rounding and `float32` storage are not modelled.
- The rendering of coordinates is not modelled. The live record carries `lat`/`lon` as the text they render to. A dataset number carries the text it is shown as (`Num.shown`); the default `{:.1f}` of prompt lines is not modelled either.
- CSV loading, the `latin1` decoding, the header clean-up (`ï»¿` and `strip`), `pd.to_numeric`'s number syntax and writing the output files are not modelled. The table is given as rows with their column names, and the number parser is a parameter.
- The LLM prompt, tokenisation and generation are not modelled. The decoded generation is an input.
- TextCleaning.Lower: maps one character to one. It is exact for every capital whose lower case falls in the class: ASCII, Latin-1 and the Kelvin sign. It does not cover U+0130. Python lower-cases U+0130 to `i` plus a combining dot, which cleaning turns into `i` and a space; the model turns it into a single space.
- Preprocess.RunPreprocess: a cuisines or rating-text cell that is not text is modelled as an AttributeError. A numeric cell would in fact raise in `lower()`, which is the same outcome. A table where no row survives is the outcome `NoRecords`. The source fails there on the empty table, in the description step or when it builds the index from an empty corpus; the model does not say which error is raised.
- DatasetRecommend.RestaurantRecommender.RecommendRestaurants: requires the latitude, longitude and rating cells, when present, to be numbers. `float()` of a text or NaN cell is not modelled, and neither is the IndexError of an index outside the records. It requires `k > 0`, because a FAISS search with no positive `k` is not modelled.
- OsmRecommend.Recommend: requires `k > 0` when there are candidates, because a FAISS search with no positive `k` is not modelled. It also requires a non-zero radius when there are hits; a zero radius raises ZeroDivisionError in the source. It requires every hit to name a candidate with both `lat` and `lon`; without one, the source's Haversine raises TypeError on `None`.
- OsmRecommend.NormalizeOsm: the `"Unknown"` default for `name` can never be taken, because the function returns `None` without a name.
- The `number` field of a live record is normalised but not part of its description, as in the source.
