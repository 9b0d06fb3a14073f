/**
  The live recommender `OSMRecommender`: the post-processing of an Overpass
  reply into restaurant records, the description each record is embedded
  from, and the scoring, stable sort and truncation of the search hits.
 */
module OsmRecommend {
  import opened Wrappers
  import opened Seqs
  import opened Ranking

  /**
    One element of the Overpass `elements` array. `id`, `lat` and `lon` are
    carried as the text they render to; `tags` is `None` when the element has
    no `tags` object.
   */
  datatype OsmNode = OsmNode(
    id: Option<string>,
    lat: Option<string>,
    lon: Option<string>,
    tags: Option<map<string, string>>)

  /** The fixed record `__normalize_osm` builds. */
  datatype OsmRecord = OsmRecord(
    id: Option<string>,
    name: string,
    cuisine: string,
    openingHours: string,
    lat: Option<string>,
    lon: Option<string>,
    city: string,
    street: string,
    neighborhood: string,
    number: string,
    amenity: string)

  const Unknown: string := "unknown"

  /** `node.get("tags", {})`. */
  function TagsOf(node: OsmNode): map<string, string> {
    if node.tags.Some? then node.tags.value else map[]
  }

  /** `tags.get(key, default)`. */
  function TagOr(tags: map<string, string>, key: string, default: string): string {
    if key in tags then tags[key] else default
  }

  /** The tag each defaulted record field is read from, in `DefaultedFields` order. */
  const DefaultedKeys: seq<string> :=
    ["cuisine", "opening_hours", "addr:city", "addr:street", "addr:suburb", "addr:housenumber", "amenity"]

  function DefaultedFields(r: OsmRecord): seq<string> {
    [r.cuisine, r.openingHours, r.city, r.street, r.neighborhood, r.number, r.amenity]
  }

  /**
    `__normalize_osm`: `None` exactly when the tags (empty when absent) have
    no `name`; otherwise the name tag, `id`/`lat`/`lon` copied from the node,
    and each other field its tag or `"unknown"`.
   */
  function NormalizeOsm(node: OsmNode): (r: Option<OsmRecord>)
    ensures r.None? <==> "name" !in TagsOf(node)
    ensures r.Some? ==> r.value.name == TagsOf(node)["name"]
    ensures r.Some? ==> r.value.id == node.id && r.value.lat == node.lat && r.value.lon == node.lon
    ensures r.Some? ==> forall j :: 0 <= j < |DefaultedKeys| ==>
      DefaultedFields(r.value)[j] == TagOr(TagsOf(node), DefaultedKeys[j], Unknown)
  {
    var tags := TagsOf(node);
    if "name" !in tags then None
    else
      Some(OsmRecord(
        id := node.id,
        name := TagOr(tags, "name", "Unknown"),
        cuisine := TagOr(tags, "cuisine", Unknown),
        openingHours := TagOr(tags, "opening_hours", Unknown),
        lat := node.lat,
        lon := node.lon,
        city := TagOr(tags, "addr:city", Unknown),
        street := TagOr(tags, "addr:street", Unknown),
        neighborhood := TagOr(tags, "addr:suburb", Unknown),
        number := TagOr(tags, "addr:housenumber", Unknown),
        amenity := TagOr(tags, "amenity", Unknown)))
  }

  /** An element that carries every field of `r` as a tag. */
  function AsNode(r: OsmRecord): OsmNode {
    OsmNode(r.id, r.lat, r.lon, Some(map[
      "name" := r.name, "cuisine" := r.cuisine, "opening_hours" := r.openingHours,
      "addr:city" := r.city, "addr:street" := r.street, "addr:suburb" := r.neighborhood,
      "addr:housenumber" := r.number, "amenity" := r.amenity]))
  }

  /** Normalising loses nothing the record holds: re-encoded as an element, it normalises to itself. */
  lemma NormalizeRoundTrip(r: OsmRecord)
    ensures NormalizeOsm(AsNode(r)) == Some(r)
  {
    var tags := TagsOf(AsNode(r));
    assert tags["name"] == r.name;
    assert tags["cuisine"] == r.cuisine && tags["opening_hours"] == r.openingHours;
    assert tags["addr:city"] == r.city && tags["addr:street"] == r.street;
    assert tags["addr:suburb"] == r.neighborhood && tags["addr:housenumber"] == r.number;
    assert tags["amenity"] == r.amenity;
  }

  /** `data["elements"]` once the reply has been parsed; `elements` is `None` when the key is absent. */
  datatype OverpassJson = OverpassJson(elements: Option<seq<OsmNode>>)

  /**
    The outcome of the POST to Overpass: a timeout, any other transport
    exception, or a reply with its status and its body parsed as JSON
    (`None` when the body is not JSON).
   */
  datatype Reply =
    | Timeout
    | TransportError
    | Received(status: int, json: Option<OverpassJson>)

  predicate Usable(reply: Reply) {
    reply.Received? && reply.status == 200 && reply.json.Some? && reply.json.value.elements.Some?
  }

  /**
    Normalise every element and keep the records of the named ones, in
    element order.
    Every record comes from an element with a name, and no named element is
    lost.
   */
  function NamedRecords(elements: seq<OsmNode>): (rs: seq<OsmRecord>)
    ensures |rs| <= |elements|
    ensures forall j :: 0 <= j < |rs| ==> NamedSource(elements, rs[j])
    ensures forall e :: e in elements && "name" in TagsOf(e) ==> NormalizeOsm(e).value in rs
  {
    var normalized := Map(elements, NormalizeOsm);
    var rs := Somes(normalized);
    forall j | 0 <= j < |rs| ensures NamedSource(elements, rs[j]) {
      var m :| 0 <= m < |normalized| && normalized[m] == Some(rs[j]);
      NamedSourceAt(elements, m, rs[j]);
    }
    forall e | e in elements && "name" in TagsOf(e) ensures NormalizeOsm(e).value in rs {
      var m :| 0 <= m < |elements| && elements[m] == e;
      assert normalized[m] == NormalizeOsm(e);
    }
    rs
  }

  /** `r` is the record of a named element of `elements`. */
  ghost predicate NamedSource(elements: seq<OsmNode>, r: OsmRecord) {
    exists e :: e in elements && "name" in TagsOf(e) && NormalizeOsm(e) == Some(r) && r.name == TagsOf(e)["name"]
  }

  lemma NamedSourceAt(elements: seq<OsmNode>, m: int, r: OsmRecord)
    requires 0 <= m < |elements| && NormalizeOsm(elements[m]) == Some(r)
    ensures NamedSource(elements, r)
  {
    assert elements[m] in elements;
  }

  /** The named records keep the order of the elements: the result distributes over concatenation. */
  lemma NamedRecordsAppend(a: seq<OsmNode>, b: seq<OsmNode>)
    ensures NamedRecords(a + b) == NamedRecords(a) + NamedRecords(b)
  {
    MapAppend(a, b, NormalizeOsm);
    SomesAppend(Map(a, NormalizeOsm), Map(b, NormalizeOsm));
  }

  /** One element gives its record when it has a name, and nothing otherwise. */
  lemma NamedRecordsSingle(e: OsmNode)
    ensures NamedRecords([e]) == if "name" in TagsOf(e) then [NormalizeOsm(e).value] else []
  {
    assert Map([e], NormalizeOsm) == [NormalizeOsm(e)];
    assert Somes([NormalizeOsm(e)]) == (if NormalizeOsm(e).Some? then [NormalizeOsm(e).value] else []) + Somes([]);
  }

  /**
    The post-response decision tree of `__fetch_osm_restaurants`: a timeout, a
    transport error, a status other than 200, a body that is not JSON or a
    body without `elements` yields no records; otherwise the named elements,
    normalised, in order.
   */
  function FetchOsmRestaurants(reply: Reply): (rs: seq<OsmRecord>)
    ensures !Usable(reply) ==> rs == []
    ensures Usable(reply) ==> rs == NamedRecords(reply.json.value.elements.value)
    ensures forall j :: 0 <= j < |rs| ==> exists e :: e in reply.json.value.elements.value && NormalizeOsm(e) == Some(rs[j])
  {
    match reply
    case Timeout => []
    case TransportError => []
    case Received(status, json) =>
      if status != 200 then []
      else if json.None? then []
      else if json.value.elements.None? then []
      else NamedRecords(json.value.elements.value)
  }

  /** `f"{x}"` for a value that may be `None`. */
  function Show(o: Option<string>): string {
    if o.Some? then o.value else "None"
  }

  /**
    `__build_description`, with its adjacent literals joined: no separator
    follows the street or the neighbourhood, no space comes before "City:",
    and the house number is not part of it.
   */
  function BuildDescription(r: OsmRecord): string {
    r.name + ". Cuisine: " + r.cuisine + ". Opening hours: " + r.openingHours
    + ". Located at coordinates " + Show(r.lat) + ", " + Show(r.lon)
    + ".City: " + r.city + ".Street: " + r.street
    + "Neighborhood: " + r.neighborhood + "Amenity: " + r.amenity
  }

  /** The values the description is built from, in the order it shows them. */
  function DescribedFields(r: OsmRecord): seq<string> {
    [r.name, r.cuisine, r.openingHours, Show(r.lat), Show(r.lon), r.city, r.street, r.neighborhood, r.amenity]
  }

  /**
    The description shows the record's fields one after another in the fixed
    order, and adds only the template's 94 characters of labels.
   */
  lemma DescriptionLayout(r: OsmRecord)
    ensures InOrder(BuildDescription(r), DescribedFields(r))
    ensures |BuildDescription(r)| == 94 + |r.name| + |r.cuisine| + |r.openingHours| + |Show(r.lat)|
      + |Show(r.lon)| + |r.city| + |r.street| + |r.neighborhood| + |r.amenity|
  {
    var d := r.name;
    var fs := [r.name];
    InOrderSingle(d);
    InOrderSnoc(d, fs, ". Cuisine: ", r.cuisine);
    d, fs := d + ". Cuisine: " + r.cuisine, fs + [r.cuisine];
    InOrderSnoc(d, fs, ". Opening hours: ", r.openingHours);
    d, fs := d + ". Opening hours: " + r.openingHours, fs + [r.openingHours];
    InOrderSnoc(d, fs, ". Located at coordinates ", Show(r.lat));
    d, fs := d + ". Located at coordinates " + Show(r.lat), fs + [Show(r.lat)];
    InOrderSnoc(d, fs, ", ", Show(r.lon));
    d, fs := d + ", " + Show(r.lon), fs + [Show(r.lon)];
    InOrderSnoc(d, fs, ".City: ", r.city);
    d, fs := d + ".City: " + r.city, fs + [r.city];
    InOrderSnoc(d, fs, ".Street: ", r.street);
    d, fs := d + ".Street: " + r.street, fs + [r.street];
    InOrderSnoc(d, fs, "Neighborhood: ", r.neighborhood);
    d, fs := d + "Neighborhood: " + r.neighborhood, fs + [r.neighborhood];
    InOrderSnoc(d, fs, "Amenity: ", r.amenity);
    d, fs := d + "Amenity: " + r.amenity, fs + [r.amenity];
    assert fs == DescribedFields(r);
  }

  /** One scored hit: the record's copy with `similarity`, `distance_km` and `final_score` added. */
  datatype LiveResult = LiveResult(record: OsmRecord, similarity: real, distanceKm: real, finalScore: real)

  /** `max(0, 1 - dist_km / (radius / 1000))`, the radius given in metres. */
  function DistScore(distKm: real, radius: real): (s: real)
    requires radius != 0.0
    ensures radius > 0.0 && distKm >= 0.0 ==> 0.0 <= s <= 1.0
    ensures radius > 0.0 && distKm >= radius / 1000.0 ==> s == 0.0
  {
    var ref := radius / 1000.0;
    DivFacts(distKm, ref);
    Max0(1.0 - distKm / ref)
  }

  lemma DivFacts(x: real, y: real)
    ensures x >= 0.0 && y > 0.0 ==> x / y >= 0.0
    ensures x >= y > 0.0 ==> x / y >= 1.0
  {
    if y > 0.0 {
      assert x / y * y == x;
    }
  }

  lemma DivMonotone(x1: real, x2: real, y: real)
    requires x1 <= x2 && y > 0.0
    ensures x1 / y <= x2 / y
  {
    assert x1 / y * y == x1 && x2 / y * y == x2;
  }

  /** `final_score = 0.6 * sim + 0.4 * dist_score`. */
  function LiveScore(sim: real, distScore: real): (r: real)
    ensures 0.0 <= sim <= 1.0 && 0.0 <= distScore <= 1.0 ==> 0.0 <= r <= 1.0
  {
    0.6 * sim + 0.4 * distScore
  }

  /** With equal similarity, a smaller distance never gives a lower final score. */
  lemma CloserNeverLower(sim: real, d1: real, d2: real, radius: real)
    requires radius > 0.0 && d1 <= d2
    ensures LiveScore(sim, DistScore(d1, radius)) >= LiveScore(sim, DistScore(d2, radius))
  {
    DivMonotone(d1, d2, radius / 1000.0);
  }

  /**
    With equal similarity, a candidate strictly inside the radius beats any
    farther one (5 km against 50 km with a 100 km radius, say).
   */
  lemma CloserInsideRadiusWins(sim: real, d1: real, d2: real, radius: real)
    requires radius > 0.0 && d1 < d2 && d1 < radius / 1000.0
    ensures LiveScore(sim, DistScore(d1, radius)) > LiveScore(sim, DistScore(d2, radius))
  {
    var ref := radius / 1000.0;
    assert d1 / ref * ref == d1 && d2 / ref * ref == d2;
    assert d1 / ref < 1.0;
    assert d1 / ref < d2 / ref;
  }

  /** One iteration of the scoring loop, for the hit's record and its distance. */
  function ScoreHit(restaurants: seq<OsmRecord>, distKm: seq<real>, radius: real, h: Hit): LiveResult
    requires -|restaurants| <= h.index < |restaurants| && |distKm| == |restaurants| && radius != 0.0
  {
    var d := At(distKm, h.index);
    LiveResult(At(restaurants, h.index), h.similarity, d, LiveScore(h.similarity, DistScore(d, radius)))
  }

  /** The scored hits in search order, before sorting. */
  function ScoreHits(restaurants: seq<OsmRecord>, distKm: seq<real>, radius: real, hits: seq<Hit>): (xs: seq<LiveResult>)
    requires HitsInRange(hits, |restaurants|) && |distKm| == |restaurants|
    requires hits != [] ==> radius != 0.0
    ensures |xs| == |hits|
  {
    seq(|hits|, j requires 0 <= j < |hits| => ScoreHit(restaurants, distKm, radius, hits[j]))
  }

  /**
    Each scored hit is a copy of the candidate the hit names, with the
    hit's similarity and that candidate's distance; a padding `-1` names
    the last candidate.
   */
  lemma ScoredHitSource(restaurants: seq<OsmRecord>, distKm: seq<real>, radius: real, hits: seq<Hit>, j: int)
    requires HitsInRange(hits, |restaurants|) && |distKm| == |restaurants|
    requires hits != [] ==> radius != 0.0
    requires 0 <= j < |hits|
    ensures var x := ScoreHits(restaurants, distKm, radius, hits)[j];
      x.similarity == hits[j].similarity
      && (hits[j].index >= 0 ==> x.record == restaurants[hits[j].index] && x.distanceKm == distKm[hits[j].index])
      && (hits[j].index == -1 ==> x.record == restaurants[|restaurants| - 1] && x.distanceKm == distKm[|distKm| - 1])
  {
  }

  /**
    Every hit names a candidate with both coordinates: the source passes
    `lat` and `lon` to its Haversine, which fails on a missing one.
   */
  predicate HitsLocated(restaurants: seq<OsmRecord>, hits: seq<Hit>)
    requires HitsInRange(hits, |restaurants|)
  {
    forall j :: 0 <= j < |hits| ==> At(restaurants, hits[j].index).lat.Some? && At(restaurants, hits[j].index).lon.Some?
  }

  function LiveKey(x: LiveResult): real {
    x.finalScore
  }

  /**
    `recommend` from the fetched reply on: nothing when there are no
    candidates; otherwise each hit's record scored, stably sorted by final
    score (highest first) and cut to `k`. `hits` are the search results over
    the candidates' descriptions and `distKm[i]` is the Haversine distance
    from the user to candidate `i`; both are inputs.
   */
  method Recommend(reply: Reply, hits: seq<Hit>, distKm: seq<real>, radius: real, k: int)
    returns (ranked: seq<LiveResult>)
    requires FetchOsmRestaurants(reply) != [] ==> k > 0
    requires |distKm| == |FetchOsmRestaurants(reply)|
    requires HitsInRange(hits, |FetchOsmRestaurants(reply)|)
    requires HitsLocated(FetchOsmRestaurants(reply), hits)
    requires hits != [] ==> radius != 0.0
    ensures FetchOsmRestaurants(reply) == [] ==> ranked == []
    ensures FetchOsmRestaurants(reply) != [] ==>
      ranked == TopK(ScoreHits(FetchOsmRestaurants(reply), distKm, radius, hits), LiveKey, k) && |ranked| <= k
    ensures SortedDesc(ranked, LiveKey)
    ensures forall v :: IsPrefix(WithKey(ranked, LiveKey, v), WithKey(ScoreHits(FetchOsmRestaurants(reply), distKm, radius, hits), LiveKey, v))
    ensures forall x :: x in ranked ==> x in ScoreHits(FetchOsmRestaurants(reply), distKm, radius, hits)
    ensures forall x, y :: x in ranked && y in multiset(ScoreHits(FetchOsmRestaurants(reply), distKm, radius, hits)) - multiset(ranked) ==>
      LiveKey(y) <= LiveKey(x)
  {
    var restaurants := FetchOsmRestaurants(reply);
    if |restaurants| == 0 {
      return [];
    }
    ranked := RankHits(restaurants, distKm, radius, hits, k);
    TopKKeepsBest(ScoreHits(restaurants, distKm, radius, hits), LiveKey, k);
  }

  /** The scoring loop of `recommend`, then the stable sort and the cut to `k`. */
  method RankHits(restaurants: seq<OsmRecord>, distKm: seq<real>, radius: real, hits: seq<Hit>, k: int)
    returns (ranked: seq<LiveResult>)
    requires k > 0
    requires HitsInRange(hits, |restaurants|) && |distKm| == |restaurants|
    requires hits != [] ==> radius != 0.0
    ensures ranked == TopK(ScoreHits(restaurants, distKm, radius, hits), LiveKey, k)
  {
    var scored: seq<LiveResult> := [];
    for i := 0 to |hits|
      invariant |scored| == i
      invariant forall j :: 0 <= j < i ==> scored[j] == ScoreHit(restaurants, distKm, radius, hits[j])
    {
      var h := hits[i];
      var r := At(restaurants, h.index);
      var d := At(distKm, h.index);
      var distScore := DistScore(d, radius);
      var finalScore := LiveScore(h.similarity, distScore);
      scored := scored + [LiveResult(r, h.similarity, d, finalScore)];
    }
    assert scored == ScoreHits(restaurants, distKm, radius, hits);
    ranked := TopK(scored, LiveKey, k);
  }
}
