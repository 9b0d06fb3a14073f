/**
  The row logic of the offline preprocessing step: replacement characters
  are removed from every text cell, the twelve required columns are selected
  and rows with a missing value dropped, the coordinates are coerced to
  numbers and rows whose coordinates do not parse dropped, the cuisines and
  the rating text are cleaned, and each surviving row gets a description.
  The descriptions form the corpus that is embedded and indexed, one vector
  per record, in record order.
 */
module Preprocess {
  import opened Wrappers
  import opened Seqs
  import opened TextCleaning

  /** One table cell: missing (`NaN`), text, or a number with the text it is shown as. */
  datatype Cell = Missing | Str(s: string) | Num(value: real, shown: string)

  /** U+FFFD, the character a failed decoding leaves behind. */
  const Replacement: char := '\U{FFFD}'

  /** `s.replace(x, "")` for a one-character `x`: every `x` deleted, nothing else changed. */
  function DropChar(s: string, x: char): (r: string)
    ensures forall i :: 0 <= i < |r| ==> r[i] != x && r[i] in s
    ensures forall i :: 0 <= i < |s| && s[i] != x ==> s[i] in r
    ensures |r| + multiset(s)[x] == |s|
    ensures x !in s ==> r == s
  {
    DropCount(s, x);
    if x !in s then
      FilterAllPass(s, Other(x));
      Filter(s, Other(x))
    else
      Filter(s, Other(x))
  }

  /** The test that keeps every character but `x`. */
  function Other(x: char): char -> bool {
    (c: char) => c != x
  }

  /** Filtering out `x` shortens the text by the number of its `x`s. */
  lemma {:induction false} DropCount(s: string, x: char)
    ensures |Filter(s, Other(x))| + multiset(s)[x] == |s|
    decreases |s|
  {
    if s != [] {
      assert s == [s[0]] + s[1..];
      assert multiset(s) == multiset([s[0]]) + multiset(s[1..]);
      DropCount(s[1..], x);
    }
  }

  /** Dropping a character works piece by piece, so the kept characters stay in order. */
  lemma DropCharAppend(a: string, b: string, x: char)
    ensures DropChar(a + b, x) == DropChar(a, x) + DropChar(b, x)
  {
    FilterAppend(a, b, Other(x));
  }

  /**
    `remove_replacement_chars`: a text cell loses every U+FFFD (the second
    `replace` of the same character finds none left); any other cell is
    returned as it is.
   */
  function RemoveReplacementChars(c: Cell): (r: Cell)
    ensures !c.Str? ==> r == c
    ensures c.Str? ==> r.Str? && Replacement !in r.s
    ensures c.Str? ==> forall i :: 0 <= i < |c.s| && c.s[i] != Replacement ==> c.s[i] in r.s
    ensures c.Str? ==> forall i :: 0 <= i < |r.s| ==> r.s[i] in c.s
    ensures c.Str? ==> |r.s| + multiset(c.s)[Replacement] == |c.s|
  {
    if c.Str? then
      var once := DropChar(c.s, Replacement);
      assert Replacement !in multiset(once);
      Str(DropChar(once, Replacement))
    else c
  }

  /** A lone U+FFFD is deleted, not replaced. */
  lemma RemoveReplacementCharsDeletes()
    ensures RemoveReplacementChars(Str([Replacement])).s == []
  {
  }

  /** Any other lone character is kept. */
  lemma RemoveReplacementCharsKeeps(x: char)
    requires x != Replacement
    ensures RemoveReplacementChars(Str([x])).s == [x]
  {
  }

  /** Removing twice is removing once. */
  lemma RemoveReplacementCharsIdempotent(c: Cell)
    ensures RemoveReplacementChars(RemoveReplacementChars(c)) == RemoveReplacementChars(c)
  {
  }

  /** The text of a cell with replacement characters removed is the concatenation of its parts' texts. */
  lemma RemoveReplacementCharsAppend(a: string, b: string)
    ensures RemoveReplacementChars(Str(a + b)).s
      == RemoveReplacementChars(Str(a)).s + RemoveReplacementChars(Str(b)).s
  {
    DropCharAppend(a, b, Replacement);
    DropCharAppend(DropChar(a, Replacement), DropChar(b, Replacement), Replacement);
  }

  /** The columns a record can hold: the twelve selected ones and the three added ones. */
  datatype Column =
    | RestaurantId | RestaurantName | City | Address | Cuisines | CostForTwo | PriceRange
    | AggregateRating | RatingText | Votes | Latitude | Longitude
    | CleanCuisines | CleanRatingText | DescriptionColumn

  /** The column's name in the table and in the records. */
  function Name(c: Column): string {
    match c
    case RestaurantId => "Restaurant ID"
    case RestaurantName => "Restaurant Name"
    case City => "City"
    case Address => "Address"
    case Cuisines => "Cuisines"
    case CostForTwo => "Average Cost for two"
    case PriceRange => "Price range"
    case AggregateRating => "Aggregate rating"
    case RatingText => "Rating text"
    case Votes => "Votes"
    case Latitude => "Latitude"
    case Longitude => "Longitude"
    case CleanCuisines => "clean_cuisines"
    case CleanRatingText => "clean_rating_text"
    case DescriptionColumn => "description"
  }

  /** The twelve columns `df[[...]]` selects. */
  const RequiredColumns: set<Column> := {
    RestaurantId, RestaurantName, City, Address, Cuisines, CostForTwo, PriceRange,
    AggregateRating, RatingText, Votes, Latitude, Longitude}

  /** A row of the loaded table, from column name to cell. */
  type RawRow = map<string, Cell>

  /** A row once its columns are selected. */
  type Record = map<Column, Cell>

  /** `df.map(remove_replacement_chars)` on one row. */
  function CleanCells(row: RawRow): (r: RawRow)
    ensures r.Keys == row.Keys
    ensures forall c :: c in row ==> r[c] == RemoveReplacementChars(row[c])
  {
    map c | c in row :: RemoveReplacementChars(row[c])
  }

  /** `df[[...]]` on one row: the required columns and nothing else. */
  function SelectRequired(row: RawRow): (r: Record)
    ensures forall c :: c in r <==> c in RequiredColumns && Name(c) in row
    ensures forall c :: c in r ==> r[c] == row[Name(c)]
  {
    map c | c in RequiredColumns && Name(c) in row :: row[Name(c)]
  }

  /** `dropna()` keeps a row when every required column holds a value. */
  predicate Complete(r: Record) {
    forall c :: c in RequiredColumns ==> c in r && r[c] != Missing
  }

  /** `pd.to_numeric(..., errors="coerce")` on one cell, with the string parser as a parameter. */
  function ToNumeric(c: Cell, parse: string -> Option<real>): (r: Cell)
    ensures c.Num? || c.Missing? ==> r == c
    ensures c.Str? ==> (parse(c.s).Some? <==> r.Num?) && (parse(c.s).None? <==> r.Missing?)
    ensures c.Str? && parse(c.s).Some? ==> r.value == parse(c.s).value
  {
    match c
    case Str(s) => if parse(s).Some? then Num(parse(s).value, s) else Missing
    case _ => c
  }

  /** `df[col] = pd.to_numeric(df[col], errors="coerce")` on one row. */
  function CoerceColumn(r: Record, col: Column, parse: string -> Option<real>): Record {
    if col in r then r[col := ToNumeric(r[col], parse)] else r
  }

  /** `dropna(subset=["Latitude", "Longitude"])` keeps a row whose coordinates are both present. */
  predicate HasCoordinates(r: Record) {
    Latitude in r && Longitude in r && r[Latitude] != Missing && r[Longitude] != Missing
  }

  function CleanFrame(df: seq<RawRow>): seq<RawRow> {
    Map(df, CleanCells)
  }

  function SelectFrame(df: seq<RawRow>): seq<Record> {
    Map(df, SelectRequired)
  }

  function CoerceFrame(df: seq<Record>, col: Column, parse: string -> Option<real>): seq<Record> {
    Map(df, Coercer(col, parse))
  }

  /** `CoerceColumn` with the column and the number parser fixed. */
  function Coercer(col: Column, parse: string -> Option<real>): Record -> Record {
    (r: Record) => CoerceColumn(r, col, parse)
  }

  /** The frame after the last `dropna`, computed from the raw rows by the pandas steps in order. */
  function FilteredFrame(raw: seq<RawRow>, parse: string -> Option<real>): seq<Record> {
    var df := CleanFrame(raw);
    var df := Filter(SelectFrame(df), Complete);
    var df := CoerceFrame(df, Latitude, parse);
    var df := CoerceFrame(df, Longitude, parse);
    Filter(df, HasCoordinates)
  }

  /** The same steps for one row: the cleaned, selected and coerced row, if it survives both filters. */
  function ProcessRow(row: RawRow, parse: string -> Option<real>): Option<Record> {
    var selected := SelectRequired(CleanCells(row));
    if !Complete(selected) then None
    else
      var coerced := CoerceColumn(CoerceColumn(selected, Latitude, parse), Longitude, parse);
      if HasCoordinates(coerced) then Some(coerced) else None
  }

  /** `ProcessRow` with the number parser fixed. */
  function Processor(parse: string -> Option<real>): RawRow -> Option<Record> {
    (row: RawRow) => ProcessRow(row, parse)
  }

  /** The surviving rows, processed row by row, in their original order. */
  function Survivors(raw: seq<RawRow>, parse: string -> Option<real>): seq<Record> {
    Somes(Map(raw, Processor(parse)))
  }

  /** Survival of the rows of `a + b` is decided for each row on its own, so the order is kept. */
  lemma SurvivorsAppend(a: seq<RawRow>, b: seq<RawRow>, parse: string -> Option<real>)
    ensures Survivors(a + b, parse) == Survivors(a, parse) + Survivors(b, parse)
  {
    MapAppend(a, b, Processor(parse));
    SomesAppend(Map(a, Processor(parse)), Map(b, Processor(parse)));
  }

  /** One row survives as its processed form, or not at all. */
  lemma SurvivorsSingle(x: RawRow, parse: string -> Option<real>)
    ensures Survivors([x], parse) == if ProcessRow(x, parse).Some? then [ProcessRow(x, parse).value] else []
  {
    assert Map([x], Processor(parse)) == [ProcessRow(x, parse)];
    assert Somes([ProcessRow(x, parse)]) ==
      (if ProcessRow(x, parse).Some? then [ProcessRow(x, parse).value] else []) + Somes([]);
  }

  /** The frame steps applied to a single row. */
  lemma FilteredSingle(x: RawRow, parse: string -> Option<real>)
    ensures FilteredFrame([x], parse) == Survivors([x], parse)
  {
    var cleaned := CleanCells(x);
    var selected := SelectRequired(cleaned);
    MapSingle(x, CleanCells);
    MapSingle(cleaned, SelectRequired);
    FilterSingle(selected, Complete);
    if Complete(selected) {
      var lat := CoerceColumn(selected, Latitude, parse);
      MapSingle(selected, Coercer(Latitude, parse));
      MapSingle(lat, Coercer(Longitude, parse));
      FilterSingle(CoerceColumn(lat, Longitude, parse), HasCoordinates);
    }
    SurvivorsSingle(x, parse);
  }

  /** Each pandas step distributes over concatenation of frames. */
  lemma FilteredAppend(a: seq<RawRow>, b: seq<RawRow>, parse: string -> Option<real>)
    ensures FilteredFrame(a + b, parse) == FilteredFrame(a, parse) + FilteredFrame(b, parse)
  {
    MapAppend(a, b, CleanCells);
    var ca, cb := CleanFrame(a), CleanFrame(b);
    MapAppend(ca, cb, SelectRequired);
    var sa, sb := SelectFrame(ca), SelectFrame(cb);
    FilterAppend(sa, sb, Complete);
    var fa, fb := Filter(sa, Complete), Filter(sb, Complete);
    MapAppend(fa, fb, Coercer(Latitude, parse));
    var la, lb := CoerceFrame(fa, Latitude, parse), CoerceFrame(fb, Latitude, parse);
    MapAppend(la, lb, Coercer(Longitude, parse));
    FilterAppend(CoerceFrame(la, Longitude, parse), CoerceFrame(lb, Longitude, parse), HasCoordinates);
  }

  /** The column-wise pandas steps keep exactly the rows that survive on their own, in order. */
  lemma {:induction false} FilteredRowwise(raw: seq<RawRow>, parse: string -> Option<real>)
    ensures FilteredFrame(raw, parse) == Survivors(raw, parse)
  {
    if raw != [] {
      assert raw == [raw[0]] + raw[1..];
      FilteredAppend([raw[0]], raw[1..], parse);
      FilteredSingle(raw[0], parse);
      FilteredRowwise(raw[1..], parse);
      SurvivorsAppend([raw[0]], raw[1..], parse);
    }
  }

  /** `pd.to_numeric` turns a cell into a number exactly when it is one or its text parses. */
  predicate Coerces(c: Cell, parse: string -> Option<real>) {
    c.Num? || (c.Str? && parse(c.s).Some?)
  }

  /** The raw row has a value in every required column. */
  predicate RawComplete(row: RawRow) {
    forall c :: c in RequiredColumns ==> Name(c) in row && row[Name(c)] != Missing
  }

  /**
    A raw row survives exactly when all twelve required columns hold a value
    and latitude and longitude, once cleaned, are numbers or parse as numbers.
   */
  lemma SurvivesIff(row: RawRow, parse: string -> Option<real>)
    ensures ProcessRow(row, parse).Some? <==>
      RawComplete(row)
      && Coerces(RemoveReplacementChars(row[Name(Latitude)]), parse)
      && Coerces(RemoveReplacementChars(row[Name(Longitude)]), parse)
  {
    if RawComplete(row) {
      SurvivesWhenComplete(row, parse);
    } else {
      SelectedComplete(row);
    }
  }

  /** A complete row survives exactly when both cleaned coordinates coerce. */
  lemma SurvivesWhenComplete(row: RawRow, parse: string -> Option<real>)
    requires RawComplete(row)
    ensures ProcessRow(row, parse).Some? <==>
      Coerces(RemoveReplacementChars(row[Name(Latitude)]), parse)
      && Coerces(RemoveReplacementChars(row[Name(Longitude)]), parse)
  {
    var selected := SelectRequired(CleanCells(row));
    SelectedComplete(row);
    var lat := CoerceColumn(selected, Latitude, parse);
    var coerced := CoerceColumn(lat, Longitude, parse);
    CoerceFacts(selected, Latitude, parse);
    CoerceFacts(lat, Longitude, parse);
    var latCell, lonCell := selected[Latitude], selected[Longitude];
    assert latCell == RemoveReplacementChars(row[Name(Latitude)]) && latCell != Missing;
    assert lonCell == RemoveReplacementChars(row[Name(Longitude)]) && lonCell != Missing;
    assert coerced[Latitude] == ToNumeric(latCell, parse);
    assert coerced[Longitude] == ToNumeric(lonCell, parse);
    CoercedPresent(latCell, parse);
    CoercedPresent(lonCell, parse);
    assert ProcessRow(row, parse).Some? <==> HasCoordinates(coerced);
  }

  /** The selected row is complete exactly when the raw row is; its cells are the cleaned raw cells. */
  lemma SelectedComplete(row: RawRow)
    ensures Complete(SelectRequired(CleanCells(row))) <==> RawComplete(row)
    ensures RawComplete(row) ==> SelectRequired(CleanCells(row)).Keys == RequiredColumns
    ensures forall c :: c in SelectRequired(CleanCells(row)) ==>
      Name(c) in row && SelectRequired(CleanCells(row))[c] == RemoveReplacementChars(row[Name(c)])
  {
    var cleaned := CleanCells(row);
    var selected := SelectRequired(cleaned);
    if RawComplete(row) {
      forall c | c in RequiredColumns ensures c in selected && selected[c] != Missing {
        assert Name(c) in cleaned;
        assert !row[Name(c)].Missing?;
      }
    } else {
      var c :| c in RequiredColumns && !(Name(c) in row && row[Name(c)] != Missing);
      assert !(c in selected && selected[c] != Missing);
    }
  }

  /** Coercing one column changes that column's cell and nothing else. */
  lemma CoerceFacts(r: Record, col: Column, parse: string -> Option<real>)
    ensures CoerceColumn(r, col, parse).Keys == r.Keys
    ensures forall c :: c in r && c != col ==> CoerceColumn(r, col, parse)[c] == r[c]
    ensures col in r ==> CoerceColumn(r, col, parse)[col] == ToNumeric(r[col], parse)
  {
  }

  /** A present cell stays present under coercion exactly when it coerces, and is then a number. */
  lemma CoercedPresent(c: Cell, parse: string -> Option<real>)
    requires c != Missing
    ensures ToNumeric(c, parse) != Missing <==> Coerces(c, parse)
    ensures ToNumeric(c, parse) != Missing ==> ToNumeric(c, parse).Num?
  {
  }

  /**
    A surviving row holds exactly the required columns; every column but the
    coordinates is the raw cell with replacement characters removed, and the
    coordinates are numbers.
   */
  lemma SurvivorShape(row: RawRow, parse: string -> Option<real>)
    requires ProcessRow(row, parse).Some?
    ensures var r := ProcessRow(row, parse).value;
      r.Keys == RequiredColumns
      && (forall c :: c in r && c != Latitude && c != Longitude ==> r[c] == RemoveReplacementChars(row[Name(c)]))
      && r[Latitude].Num? && r[Longitude].Num?
  {
    var selected := SelectRequired(CleanCells(row));
    var lat := CoerceColumn(selected, Latitude, parse);
    var coerced := CoerceColumn(lat, Longitude, parse);
    assert Complete(selected) && HasCoordinates(coerced);
    assert ProcessRow(row, parse).value == coerced;
    SelectedComplete(row);
    CoerceFacts(selected, Latitude, parse);
    CoerceFacts(lat, Longitude, parse);
    assert coerced.Keys == RequiredColumns;
    assert coerced[Latitude] == ToNumeric(selected[Latitude], parse);
    assert coerced[Longitude] == ToNumeric(selected[Longitude], parse);
    CoercedPresent(selected[Latitude], parse);
    CoercedPresent(selected[Longitude], parse);
  }

  /** The text of a cell, for columns that `clean_text` is applied to. */
  function TextOf(c: Cell): string {
    if c.Str? then c.s else []
  }

  /** `f"{x}"`: a text as it is, a number as shown, a missing value as `nan`. */
  function Render(c: Cell): string {
    match c
    case Missing => "nan"
    case Str(s) => s
    case Num(_, shown) => shown
  }

  function Get(r: Record, col: Column): Cell {
    if col in r then r[col] else Missing
  }

  /** `clean_text` is applied to both columns; it raises unless each cell is text. */
  predicate TextColumns(r: Record) {
    Get(r, Cuisines).Str? && Get(r, RatingText).Str?
  }

  function AddCleanCuisines(r: Record): Record {
    r[CleanCuisines := Str(CleanText(TextOf(Get(r, Cuisines))))]
  }

  function AddCleanRatingText(r: Record): Record {
    r[CleanRatingText := Str(CleanText(TextOf(Get(r, RatingText))))]
  }

  /** The description template, for any nine rendered field values. */
  function Template(name: string, city: string, cuisines: string, cost: string, price: string,
                    rating: string, ratingText: string, votes: string, address: string): string {
    name + " in " + city
    + ". Cuisines: " + cuisines
    + ". Average cost for two: " + cost
    + " (" + price
    + "/5 price level). Rating: " + rating
    + " (" + ratingText
    + ") with " + votes
    + " votes. Address: " + address + "."
  }

  /** The description of a row: its fields rendered and put into the template. */
  function Description(r: Record): string {
    Template(Render(Get(r, RestaurantName)), Render(Get(r, City)), Render(Get(r, CleanCuisines)),
             Render(Get(r, CostForTwo)), Render(Get(r, PriceRange)), Render(Get(r, AggregateRating)),
             Render(Get(r, CleanRatingText)), Render(Get(r, Votes)), Render(Get(r, Address)))
  }

  function AddDescription(r: Record): Record {
    r[DescriptionColumn := Str(Description(r))]
  }

  /** The columns added to a surviving row. */
  function Finish(r: Record): Record {
    AddDescription(AddCleanRatingText(AddCleanCuisines(r)))
  }

  /** The outcome of the whole step. */
  datatype Outcome =
    | KeyError                // a required column is not in the table
    | AttributeError          // `clean_text` met a cuisines or rating-text cell that is not text
    | NoRecords               // no row survived: the index cannot be built from an empty corpus
    | Done(records: seq<Record>, corpus: seq<string>, indexed: nat)

  predicate HasColumns(columns: set<string>) {
    forall c :: c in RequiredColumns ==> Name(c) in columns
  }

  predicate AllText(df: seq<Record>) {
    forall j :: 0 <= j < |df| ==> TextColumns(df[j])
  }

  /**
    `preprocess()` from the loaded table on: `columns` are the table's
    column names after the header fix and every raw row has exactly those
    keys; `parse` is the number parser of `pd.to_numeric`. The records are
    the surviving rows, in order, with the cleaned columns and the
    description added; the corpus is their descriptions, and one vector is
    indexed per record. With no survivors there is nothing to index, and the
    step fails.
   */
  method RunPreprocess(columns: set<string>, raw: seq<RawRow>, parse: string -> Option<real>)
    returns (out: Outcome)
    requires forall j :: 0 <= j < |raw| ==> raw[j].Keys == columns
    ensures out.KeyError? <==> !HasColumns(columns)
    ensures out.AttributeError? <==> HasColumns(columns) && !AllText(Survivors(raw, parse))
    ensures out.NoRecords? <==> HasColumns(columns) && Survivors(raw, parse) == []
    ensures out.Done? ==> out.records != []
    ensures out.Done? ==> out.records == Map(Survivors(raw, parse), Finish)
    ensures out.Done? ==> |out.corpus| == |out.records| == out.indexed
    ensures out.Done? ==> forall i :: 0 <= i < |out.records| ==>
      out.corpus[i] == Render(Get(out.records[i], DescriptionColumn))
  {
    if !HasColumns(columns) {
      return KeyError;
    }
    var df := FilteredFrame(raw, parse);
    FilteredRowwise(raw, parse);
    if !AllText(df) {
      return AttributeError;
    }
    if df == [] {
      return NoRecords;
    }
    var records := AddColumns(df);
    FinishSteps(df);
    var corpus := Corpus(records);
    out := Done(records, corpus, |corpus|);
  }

  /** The three column assignments, in the order the step makes them. */
  function AddColumns(df: seq<Record>): seq<Record> {
    Map(Map(Map(df, AddCleanCuisines), AddCleanRatingText), AddDescription)
  }

  /** `[r["description"] for r in records]`. */
  function Corpus(records: seq<Record>): (corpus: seq<string>)
    ensures |corpus| == |records|
    ensures forall i :: 0 <= i < |records| ==> corpus[i] == Render(Get(records[i], DescriptionColumn))
  {
    seq(|records|, i requires 0 <= i < |records| => Render(Get(records[i], DescriptionColumn)))
  }

  /** The three column assignments together add the finished columns. */
  lemma FinishSteps(df: seq<Record>)
    ensures AddColumns(df) == Map(df, Finish)
  {
  }

  /**
    `clean_cuisines` and `clean_rating_text` are `clean_text` of the
    surviving row's cells, which are the raw cells with replacement
    characters removed.
   */
  lemma FinishedColumns(row: RawRow, parse: string -> Option<real>)
    requires ProcessRow(row, parse).Some?
    ensures Name(Cuisines) in row && Name(RatingText) in row
    ensures Get(Finish(ProcessRow(row, parse).value), CleanCuisines)
      == Str(CleanText(TextOf(RemoveReplacementChars(row[Name(Cuisines)]))))
    ensures Get(Finish(ProcessRow(row, parse).value), CleanRatingText)
      == Str(CleanText(TextOf(RemoveReplacementChars(row[Name(RatingText)]))))
  {
    SurvivesIff(row, parse);
    SurvivorShape(row, parse);
    var r := ProcessRow(row, parse).value;
    var cu, rt := RemoveReplacementChars(row[Name(Cuisines)]), RemoveReplacementChars(row[Name(RatingText)]);
    assert Get(r, Cuisines) == cu && Get(r, RatingText) == rt;
    FinishedCuisines(r);
    FinishedRatingText(r);
  }

  lemma FinishedCuisines(r: Record)
    ensures Get(Finish(r), CleanCuisines) == Str(CleanText(TextOf(Get(r, Cuisines))))
  {
    var a := AddCleanCuisines(r);
    CuisinesSets(r);
    RatingKeeps(a, CleanCuisines);
    DescriptionKeeps(AddCleanRatingText(a), CleanCuisines);
  }

  lemma FinishedRatingText(r: Record)
    ensures Get(Finish(r), CleanRatingText) == Str(CleanText(TextOf(Get(r, RatingText))))
  {
    var a := AddCleanCuisines(r);
    CuisinesKeeps(r, RatingText);
    RatingSets(a);
    DescriptionKeeps(AddCleanRatingText(a), CleanRatingText);
  }

  // The next five lemmas each state what one column assignment does to a
  // record; they are kept apart so that each proof looks at one map update.

  /** Adding the cleaned cuisines sets that column. */
  lemma CuisinesSets(r: Record)
    ensures Get(AddCleanCuisines(r), CleanCuisines) == Str(CleanText(TextOf(Get(r, Cuisines))))
  {
  }

  /** Adding the cleaned rating text sets that column. */
  lemma RatingSets(r: Record)
    ensures Get(AddCleanRatingText(r), CleanRatingText) == Str(CleanText(TextOf(Get(r, RatingText))))
  {
  }

  /** Adding the cleaned cuisines leaves every other column as it was. */
  lemma CuisinesKeeps(r: Record, c: Column)
    ensures c != CleanCuisines ==> Get(AddCleanCuisines(r), c) == Get(r, c)
  {
  }

  /** Adding the description leaves every other column as it was. */
  lemma DescriptionKeeps(r: Record, c: Column)
    ensures c != DescriptionColumn ==> Get(AddDescription(r), c) == Get(r, c)
  {
  }

  /** Adding the cleaned rating text leaves every other column as it was. */
  lemma RatingKeeps(r: Record, c: Column)
    ensures c != CleanRatingText ==> Get(AddCleanRatingText(r), c) == Get(r, c)
  {
  }

  /** The values a description is built from, in the order it shows them. */
  function DescribedFields(r: Record): seq<string> {
    [Render(Get(r, RestaurantName)), Render(Get(r, City)), Render(Get(r, CleanCuisines)),
     Render(Get(r, CostForTwo)), Render(Get(r, PriceRange)), Render(Get(r, AggregateRating)),
     Render(Get(r, CleanRatingText)), Render(Get(r, Votes)), Render(Get(r, Address))]
  }

  /**
    A description shows name, city, cleaned cuisines, cost for two, price
    range, rating, cleaned rating text, votes and address, in that order.
   */
  lemma DescriptionLayout(r: Record)
    ensures InOrder(Description(r), DescribedFields(r))
  {
    var f := DescribedFields(r);
    TemplateLayout(f[0], f[1], f[2], f[3], f[4], f[5], f[6], f[7], f[8]);
    assert f == [f[0], f[1], f[2], f[3], f[4], f[5], f[6], f[7], f[8]];
  }

  /** The template, for any nine field values, shows them in order. */
  lemma TemplateLayout(name: string, city: string, cuisines: string, cost: string, price: string,
                       rating: string, ratingText: string, votes: string, address: string)
    ensures InOrder(Template(name, city, cuisines, cost, price, rating, ratingText, votes, address),
      [name, city, cuisines, cost, price, rating, ratingText, votes, address])
  {
    TemplateHead(name, city, cuisines, cost, price);
    var d := name + " in " + city + ". Cuisines: " + cuisines + ". Average cost for two: " + cost + " (" + price;
    var fs := [name, city, cuisines, cost, price];
    InOrderSnoc(d, fs, "/5 price level). Rating: ", rating);
    d, fs := d + "/5 price level). Rating: " + rating, fs + [rating];
    InOrderSnoc(d, fs, " (", ratingText);
    d, fs := d + " (" + ratingText, fs + [ratingText];
    InOrderSnoc(d, fs, ") with ", votes);
    d, fs := d + ") with " + votes, fs + [votes];
    InOrderSnoc(d, fs, " votes. Address: ", address);
    d, fs := d + " votes. Address: " + address, fs + [address];
    InOrderAppend(d, fs, ".");
    assert fs == [name, city, cuisines, cost, price, rating, ratingText, votes, address];
  }

  /** The template up to the price range shows its first five fields in order. */
  lemma TemplateHead(name: string, city: string, cuisines: string, cost: string, price: string)
    ensures InOrder(
      name + " in " + city + ". Cuisines: " + cuisines + ". Average cost for two: " + cost + " (" + price,
      [name, city, cuisines, cost, price])
  {
    var d := name;
    var fs := [name];
    InOrderSingle(d);
    InOrderSnoc(d, fs, " in ", city);
    d, fs := d + " in " + city, fs + [city];
    InOrderSnoc(d, fs, ". Cuisines: ", cuisines);
    d, fs := d + ". Cuisines: " + cuisines, fs + [cuisines];
    InOrderSnoc(d, fs, ". Average cost for two: ", cost);
    d, fs := d + ". Average cost for two: " + cost, fs + [cost];
    InOrderSnoc(d, fs, " (", price);
    d, fs := d + " (" + price, fs + [price];
    assert fs == [name, city, cuisines, cost, price];
  }
}
