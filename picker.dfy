/**
 * City selection with non-repetition.
 *
 * The posted log is a JSON-lines file: each line decodes to an object, is
 * skipped, or is not UTF-8 at all (which makes reading raise). A line's derived key is its `id` when that is
 * truthy, otherwise the text `"{city}|{country}"`. The two pickers read the
 * dataset through pandas (typed cells) and through `csv.DictReader` (raw
 * strings); each derives its own key for a row. Randomness is an input:
 * `draw` stands for `DataFrame.sample`, `draws[j]` for the `randrange(j + 1)`
 * of the j-th eligible row of the reservoir.
 */
module Picker {
  import opened Wrappers
  import opened Values
  import Text

  /** A decoded line of the posted log: a JSON object. */
  type Record = map<string, Json>

  /** The key `load_posted_set` adds for one record: `rec.get('id') or f"{city}|{country}"`. */
  function RecordKey(rec: Record): (k: Json)
    ensures Truthy(k)
    ensures Truthy(Get(rec, "id")) ==> k == Get(rec, "id")
    ensures !Truthy(Get(rec, "id")) ==>
      k == JStr(Show(Get(rec, "city")) + "|" + Show(Get(rec, "country")))
  {
    var id := Get(rec, "id");
    if Truthy(id) then id else JStr(Show(Get(rec, "city")) + "|" + Show(Get(rec, "country")))
  }

  /** One line of the posted log as `load_posted_set` meets it. */
  datatype LogLine =
    | Decoded(rec: Record)  // `json.loads` gives an object
    | Blank                 // only whitespace: `json.loads` raises and the line is skipped
    | Garbage               // any other text `json.loads` rejects, or a non-object value: skipped
    | BadUtf8               // bytes that are not UTF-8: reading the line raises outside the `try`

  /** The keys of every line that decoded; the other lines contribute nothing. */
  function PostedKeys(lines: seq<LogLine>): set<Json> {
    set i | 0 <= i < |lines| && lines[i].Decoded? :: RecordKey(lines[i].rec)
  }

  /** Some line of the file cannot be decoded as UTF-8. */
  predicate HasBadUtf8(lines: seq<LogLine>) {
    exists i :: 0 <= i < |lines| && lines[i].BadUtf8?
  }

  /** Appending one line adds the key of that line, if it decodes, and nothing else. */
  lemma PostedKeysAppend(lines: seq<LogLine>, line: LogLine)
    ensures PostedKeys(lines + [line]) ==
      PostedKeys(lines) + (if line.Decoded? then {RecordKey(line.rec)} else {})
  {
    var s := lines + [line];
    forall k | k in PostedKeys(s)
      ensures k in PostedKeys(lines) || (line.Decoded? && k == RecordKey(line.rec))
    {
      var i :| 0 <= i < |s| && s[i].Decoded? && k == RecordKey(s[i].rec);
      if i < |lines| {
        assert s[i] == lines[i];
      }
    }
    forall k | k in PostedKeys(lines) ensures k in PostedKeys(s) {
      var i :| 0 <= i < |lines| && lines[i].Decoded? && k == RecordKey(lines[i].rec);
      assert s[i] == lines[i];
    }
    if line.Decoded? {
      assert s[|lines|] == line;
    }
  }

  /**
   * The line an append in mode `'a'` leaves when the file's last line `tail`
   * has no newline: the new record is glued onto it. Glued to a blank tail the
   * record still decodes; glued to a decodable object it is extra data and
   * glued to other text it stays rejected; bytes that are not UTF-8 stay so.
   */
  function Glue(tail: LogLine, rec: Record): (r: LogLine)
    ensures r.Decoded? <==> tail.Blank?
    ensures r.BadUtf8? <==> tail.BadUtf8?
    ensures r.Decoded? ==> r.rec == rec
  {
    match tail
    case Blank => Decoded(rec)
    case BadUtf8 => BadUtf8
    case _ => Garbage
  }

  /** A record adding `posted_at` to the caller's dictionary in place. */
  class JsonObject {
    var fields: Record

    constructor (fields: Record)
      ensures this.fields == fields
    {
      this.fields := fields;
    }
  }

  datatype LoadError = UnicodeDecodeError

  /**
   * The posted log file: whether it exists, its lines in file order, and
   * whether its last line ends with a newline (an empty file counts as ending
   * with one).
   */
  class PostedStore {
    var fileExists: bool
    var lines: seq<LogLine>
    var endsWithNewline: bool

    ghost predicate Valid()
      reads this
    {
      && (!fileExists ==> lines == [])
      && (|lines| == 0 ==> endsWithNewline)
    }

    constructor (fileExists: bool, lines: seq<LogLine>, endsWithNewline: bool)
      requires fileExists || lines == []
      requires |lines| == 0 ==> endsWithNewline
      ensures Valid()
      ensures this.fileExists == fileExists && this.lines == lines && this.endsWithNewline == endsWithNewline
    {
      this.fileExists := fileExists;
      this.lines := lines;
      this.endsWithNewline := endsWithNewline;
    }

    /**
     * `load_posted_set()`: empty when the file is missing; a line that is not
     * UTF-8 raises out of the function; otherwise the keys of the lines that
     * decode.
     */
    method LoadPostedSet() returns (r: Result<set<Json>, LoadError>)
      ensures !fileExists ==> r == Ok({})
      ensures fileExists && HasBadUtf8(lines) ==> r == Err(UnicodeDecodeError)
      ensures fileExists && !HasBadUtf8(lines) ==> r == Ok(PostedKeys(lines))
      ensures r.Ok? ==> forall k :: k in r.value <==>
        fileExists && exists i :: 0 <= i < |lines| && lines[i].Decoded? && RecordKey(lines[i].rec) == k
    {
      if !fileExists {
        return Ok({});
      }
      var posted := {};
      var i := 0;
      while i < |lines|
        invariant 0 <= i <= |lines|
        invariant posted == PostedKeys(lines[..i])
        invariant forall j :: 0 <= j < i ==> !lines[j].BadUtf8?
      {
        if lines[i].BadUtf8? {
          return Err(UnicodeDecodeError);
        }
        PostedKeysAppend(lines[..i], lines[i]);
        assert lines[..i + 1] == lines[..i] + [lines[i]];
        if lines[i].Decoded? {
          posted := posted + {RecordKey(lines[i].rec)};
        }
        i := i + 1;
      }
      assert lines[..i] == lines;
      r := Ok(posted);
    }

    /**
     * `save_posted(record)`: stamps `posted_at` (the ISO time followed by `Z`)
     * into the caller's record, creates the file if needed and writes the
     * record and a newline at its end, so a last line without a newline gets
     * the record glued onto it.
     */
    method SavePosted(record: JsonObject, isoTime: string)
      requires Valid()
      modifies this, record
      ensures Valid() && fileExists && endsWithNewline
      ensures record.fields == old(record.fields)["posted_at" := JStr(isoTime + "Z")]
      ensures old(endsWithNewline) ==> lines == old(lines) + [Decoded(record.fields)]
      ensures old(endsWithNewline) ==> PostedKeys(lines) == old(PostedKeys(lines)) + {RecordKey(old(record.fields))}
      ensures !old(endsWithNewline) ==>
        |old(lines)| > 0 && lines == old(lines)[..|old(lines)| - 1] + [Glue(old(lines)[|old(lines)| - 1], record.fields)]
      ensures !old(endsWithNewline) ==>
        PostedKeys(lines) == PostedKeys(old(lines)[..|old(lines)| - 1]) +
          (if old(lines)[|old(lines)| - 1].Blank? then {RecordKey(old(record.fields))} else {})
      ensures HasBadUtf8(lines) == old(HasBadUtf8(lines))
    {
      record.fields := record.fields["posted_at" := JStr(isoTime + "Z")];
      StampKeepsKey(old(record.fields), JStr(isoTime + "Z"));
      fileExists := true;
      if endsWithNewline {
        PostedKeysAppend(lines, Decoded(record.fields));
        BadUtf8Append(lines, Decoded(record.fields));
        lines := lines + [Decoded(record.fields)];
      } else {
        var front, glued := lines[..|lines| - 1], Glue(lines[|lines| - 1], record.fields);
        assert lines == front + [lines[|lines| - 1]];
        PostedKeysAppend(front, glued);
        BadUtf8Append(front, glued);
        BadUtf8Append(front, lines[|lines| - 1]);
        lines := front + [glued];
        endsWithNewline := true;
      }
    }
  }

  /** Appending a line adds a non-UTF-8 line exactly when that line is one. */
  lemma BadUtf8Append(lines: seq<LogLine>, line: LogLine)
    ensures HasBadUtf8(lines + [line]) == (HasBadUtf8(lines) || line.BadUtf8?)
  {
    var s := lines + [line];
    if HasBadUtf8(lines) {
      var i :| 0 <= i < |lines| && lines[i].BadUtf8?;
      assert s[i] == lines[i];
    }
    if HasBadUtf8(s) {
      var i :| 0 <= i < |s| && s[i].BadUtf8?;
      if i < |lines| {
        assert s[i] == lines[i];
      }
    }
    if line.BadUtf8? {
      assert s[|lines|] == line;
    }
  }

  /** Adding `posted_at` does not change a record's derived key. */
  lemma StampKeepsKey(rec: Record, stamp: Json)
    ensures RecordKey(rec["posted_at" := stamp]) == RecordKey(rec)
  {
  }

  /** One dataset row as pandas reads it; `id` is `None` where the cell is NaN. */
  datatype Row = Row(id: Option<int>, city: string, cityAscii: string, country: string, lat: Scalar, lng: Scalar)

  /** One dataset row as `csv.DictReader` reads it: every cell is text. */
  datatype CsvRow = CsvRow(id: string, city: string, cityAscii: string, country: string, lat: string, lng: string)

  /** The dictionary both pickers return. */
  datatype City = City(city: string, cityAscii: string, country: string, lat: Scalar, lng: Scalar, id: Option<int>)

  datatype PickError =
    | EmptyTable           // `DataFrame.sample` on an empty frame raises
    | InvalidId(text: string)  // `int(chosen['id'])` raises `ValueError`

  /** The pandas key of a row: `str(int(id))` when the id is present, else `"{city_ascii}|{country}"`. */
  function PandasKey(row: Row): (k: Json)
    ensures k.JStr?
    ensures row.id.Some? ==> k.s == Text.IntToDecimal(row.id.value) && Text.ParseInt(k.s) == row.id
    ensures row.id.None? ==> k.s == row.cityAscii + "|" + row.country
  {
    if row.id.Some? then
      Text.ParseIntRoundTrip(row.id.value);
      JStr(Text.IntToDecimal(row.id.value))
    else JStr(row.cityAscii + "|" + row.country)
  }

  /** The reservoir key of a row: the raw `id` text when non-empty, else `"{city_ascii}|{country}"`. */
  function ReservoirKey(row: CsvRow): Json {
    JStr(if |row.id| > 0 then row.id else row.cityAscii + "|" + row.country)
  }

  /** `row.get('id') or f"{row.get('city_ascii')}|{row.get('country','')}"` on CSV text. */
  lemma ReservoirKeyCases(row: CsvRow)
    ensures ReservoirKey(row).JStr?
    ensures |row.id| > 0 ==> ReservoirKey(row).s == row.id
    ensures |row.id| == 0 ==> ReservoirKey(row).s == row.cityAscii + "|" + row.country
  {
  }

  /**
   * The reservoir and the pandas sampler derive the same key for a row exactly
   * when the CSV id text is already in the form `str(int(id))` gives: the
   * same decimal text, or empty where pandas reads no id.
   */
  lemma ReservoirKeyMatchesPandas(csv: CsvRow, row: Row)
    requires csv.cityAscii == row.cityAscii && csv.country == row.country
    requires row.id.Some? ==> csv.id == Text.IntToDecimal(row.id.value)
    requires row.id.None? ==> |csv.id| == 0
    ensures ReservoirKey(csv) == PandasKey(row)
  {
  }

  /** An id written with a leading zero, which `int()` still reads, gives a reservoir key that differs from the pandas key. */
  lemma ReservoirKeyKeepsRawText(csv: CsvRow, row: Row)
    requires row.id.Some? && row.id.value >= 0
    requires csv.id == "0" + Text.IntToDecimal(row.id.value)
    ensures Text.ParseInt(csv.id) == Some(row.id.value)
    ensures ReservoirKey(csv) != PandasKey(row)
  {
    var d := Text.IntToDecimal(row.id.value);
    assert |csv.id| > 0;
    assert |csv.id| == |d| + 1;
    Text.DigitsStripped(csv.id);
    Text.LeadingZeroValue(d);
    Text.ParseIntRoundTrip(row.id.value);
    Text.DigitsStripped(d);
  }

  /** A numeric id read back from the log is never equal to a pandas row key, which is always text. */
  lemma NumericLogIdNeverMatchesRow(rec: Record, row: Row)
    requires Get(rec, "id").JInt? && Get(rec, "id").i != 0
    ensures RecordKey(rec) != PandasKey(row)
  {
  }

  /** `df[~df['unique_id'].isin(posted)]`: the rows whose key is not posted, in table order. */
  function NotPosted(table: seq<Row>, posted: set<Json>): (r: seq<Row>)
    ensures |r| <= |table|
    ensures forall row :: row in r <==> row in table && PandasKey(row) !in posted
  {
    if table == [] then []
    else
      var row := table[|table| - 1];
      var rest := NotPosted(table[..|table| - 1], posted);
      assert table == table[..|table| - 1] + [row];
      rest + (if PandasKey(row) !in posted then [row] else [])
  }

  function CityOfRow(row: Row): (c: City)
    ensures c.id == row.id && c.city == row.city && c.cityAscii == row.cityAscii
  {
    City(row.city, row.cityAscii, row.country, row.lat, row.lng, row.id)
  }

  /**
   * `pick_city_pandas`: a row not yet posted when there is one, otherwise any row
   * of the table; `draw` selects which.
   */
  function PickCityPandas(table: seq<Row>, posted: set<Json>, draw: nat): (r: Result<City, PickError>)
    ensures r.Err? <==> table == []
    ensures r.Err? ==> r.error == EmptyTable
    ensures r.Ok? ==> exists row :: row in table && r.value == CityOfRow(row)
    ensures (exists row :: row in table && PandasKey(row) !in posted) ==>
      exists row :: row in table && PandasKey(row) !in posted && r == Ok(CityOfRow(row))
  {
    var pool := NotPosted(table, posted);
    if pool != [] then
      var row := pool[draw % |pool|];
      assert row in pool;
      Ok(CityOfRow(row))
    else if table != [] then
      var row := table[draw % |table|];
      assert row in table;
      Ok(CityOfRow(row))
    else Err(EmptyTable)
  }

  /** The rows among the first `n` that the reservoir counts, in stream order. */
  function Eligible(rows: seq<CsvRow>, posted: set<Json>, n: nat): (r: seq<CsvRow>)
    requires n <= |rows|
    ensures |r| <= n
  {
    if n == 0 then []
    else Eligible(rows, posted, n - 1) + (if ReservoirKey(rows[n - 1]) !in posted then [rows[n - 1]] else [])
  }

  /** The eligible rows are exactly the rows whose key is not posted. */
  lemma {:induction false} EligibleMembers(rows: seq<CsvRow>, posted: set<Json>, n: nat)
    requires n <= |rows|
    ensures forall row :: row in Eligible(rows, posted, n) <==> row in rows[..n] && ReservoirKey(row) !in posted
  {
    if n > 0 {
      EligibleMembers(rows, posted, n - 1);
      assert rows[..n] == rows[..n - 1] + [rows[n - 1]];
    }
  }

  /** The last position below `n` whose draw is 0. */
  function LastZero(draws: seq<nat>, n: nat): (r: Option<nat>)
    requires n <= |draws|
    ensures r.Some? ==> r.value < n && draws[r.value] == 0
    ensures r.None? ==> forall k :: 0 <= k < n ==> draws[k] != 0
  {
    if n == 0 then None
    else if draws[n - 1] == 0 then Some(n - 1)
    else LastZero(draws, n - 1)
  }

  /** No draw after the one `LastZero` finds is 0. */
  lemma {:induction false} LastZeroIsLast(draws: seq<nat>, n: nat)
    requires n <= |draws|
    ensures LastZero(draws, n).Some? ==> forall k :: LastZero(draws, n).value < k < n ==> draws[k] != 0
  {
    if n > 0 && draws[n - 1] != 0 {
      LastZeroIsLast(draws, n - 1);
    }
  }

  /** The eligible row held at the end: the last one whose draw was 0. */
  function LastDrawnZero(eligible: seq<CsvRow>, draws: seq<nat>): Option<CsvRow>
    requires |eligible| <= |draws|
  {
    match LastZero(draws, |eligible|)
    case Some(j) => Some(eligible[j])
    case None => None
  }

  /** The held row is an eligible one, and once the first draw is 0 some row is held. */
  lemma LastDrawnZeroHolds(eligible: seq<CsvRow>, draws: seq<nat>)
    requires |eligible| <= |draws|
    ensures LastDrawnZero(eligible, draws).Some? ==> LastDrawnZero(eligible, draws).value in eligible
    ensures eligible != [] && draws[0] == 0 ==> LastDrawnZero(eligible, draws).Some?
  {
    if eligible != [] && draws[0] == 0 {
      assert LastZero(draws, |eligible|).Some?;
    }
  }

  /** The reservoir's final choice over the whole stream. */
  function ReservoirChoice(rows: seq<CsvRow>, posted: set<Json>, draws: seq<nat>): (c: Option<CsvRow>)
    requires |rows| <= |draws|
    ensures c.Some? ==> c.value in rows && ReservoirKey(c.value) !in posted
    ensures draws != [] && draws[0] == 0 ==>
      (c.None? <==> forall row :: row in rows ==> ReservoirKey(row) in posted)
  {
    var e := Eligible(rows, posted, |rows|);
    EligibleMembers(rows, posted, |rows|);
    assert rows[..|rows|] == rows;
    assert e != [] ==> e[0] in e;
    LastDrawnZeroHolds(e, draws);
    LastDrawnZero(e, draws)
  }

  /** With `randrange(1) == 0` for the first eligible row, the reservoir holds a row exactly when some row is eligible. */
  lemma ReservoirFindsEligible(rows: seq<CsvRow>, posted: set<Json>, draws: seq<nat>)
    requires |rows| <= |draws|
    requires forall j :: 0 <= j < |draws| ==> draws[j] <= j
    ensures (exists row :: row in rows && ReservoirKey(row) !in posted) <==> ReservoirChoice(rows, posted, draws).Some?
  {
    if draws != [] {
      assert draws[0] <= 0;
    }
  }

  lemma LastDrawnZeroStep(eligible: seq<CsvRow>, row: CsvRow, draws: seq<nat>)
    requires |eligible| < |draws|
    ensures LastDrawnZero(eligible + [row], draws) ==
      if draws[|eligible|] == 0 then Some(row) else LastDrawnZero(eligible, draws)
  {
    var e := eligible + [row];
    if draws[|eligible|] != 0 {
      match LastZero(draws, |eligible|)
      case Some(j) => assert e[j] == eligible[j];
      case None =>
    }
  }

  /** The dictionary built from the chosen CSV row: `int(id)` when the id text is non-empty. */
  function CityOfCsv(row: CsvRow): (r: Result<City, PickError>)
    ensures row.id == "" ==> r.Ok? && r.value.id.None?
    ensures row.id != "" ==> (r.Ok? <==> Text.ParseInt(row.id).Some?)
    ensures row.id != "" && r.Ok? ==> r.value.id == Text.ParseInt(row.id)
    ensures r.Err? ==> r.error == InvalidId(row.id)
    ensures r.Ok? ==> r.value.city == row.city && r.value.cityAscii == row.cityAscii && r.value.country == row.country
  {
    var id := if row.id == "" then Some(None) else
      match Text.ParseInt(row.id)
      case Some(n) => Some(Some(n))
      case None => None;
    match id
    case Some(v) =>
      Ok(City(row.city, row.cityAscii, row.country, Scalar(row.lat, row.lat != ""), Scalar(row.lng, row.lng != ""), v))
    case None => Err(InvalidId(row.id))
  }

  /** An id written as the decimal text of `n` comes back as `n`. */
  lemma CsvIdRoundTrip(row: CsvRow, n: int)
    requires row.id == Text.IntToDecimal(n)
    ensures CityOfCsv(row).Ok? && CityOfCsv(row).value.id == Some(n)
  {
    Text.ParseIntRoundTrip(n);
  }

  /** The held row and the count after the first `n` rows of the reservoir pass. */
  function ReservoirPass(rows: seq<CsvRow>, posted: set<Json>, draws: seq<nat>, n: nat): (s: (Option<CsvRow>, nat))
    requires n <= |rows| <= |draws|
    ensures s.1 <= n
  {
    if n == 0 then (None, 0)
    else
      var (held, count) := ReservoirPass(rows, posted, draws, n - 1);
      var row := rows[n - 1];
      if ReservoirKey(row) in posted then (held, count)
      else (if draws[count] == 0 then Some(row) else held, count + 1)
  }

  /** The pass counts the eligible rows and holds the last eligible row whose draw was 0. */
  lemma {:induction false} ReservoirPassIsLastDrawnZero(rows: seq<CsvRow>, posted: set<Json>, draws: seq<nat>, n: nat)
    requires n <= |rows| <= |draws|
    ensures ReservoirPass(rows, posted, draws, n).1 == |Eligible(rows, posted, n)|
    ensures ReservoirPass(rows, posted, draws, n).0 == LastDrawnZero(Eligible(rows, posted, n), draws)
  {
    if n > 0 {
      ReservoirPassIsLastDrawnZero(rows, posted, draws, n - 1);
      var e := Eligible(rows, posted, n - 1);
      if ReservoirKey(rows[n - 1]) !in posted {
        LastDrawnZeroStep(e, rows[n - 1], draws);
      } else {
        assert e + [] == e;
      }
    }
  }

  /**
   * The pass of `pick_city_reservoir` over the CSV rows: the j-th eligible row
   * (from 0) replaces the held one when its draw, `randrange(j + 1)`, is 0.
   */
  method ScanReservoir(rows: seq<CsvRow>, posted: set<Json>, draws: seq<nat>) returns (chosen: Option<CsvRow>)
    requires |rows| <= |draws|
    ensures chosen == LastDrawnZero(Eligible(rows, posted, |rows|), draws)
  {
    chosen := None;
    var count := 0;
    var i := 0;
    while i < |rows|
      invariant 0 <= i <= |rows|
      invariant (chosen, count) == ReservoirPass(rows, posted, draws, i)
    {
      var row := rows[i];
      if ReservoirKey(row) !in posted {
        count := count + 1;
        if draws[count - 1] == 0 {
          chosen := Some(row);
        }
      }
      i := i + 1;
    }
    ReservoirPassIsLastDrawnZero(rows, posted, draws, |rows|);
  }

  /**
   * `pick_city_reservoir`: the reservoir pass over the CSV rows; with no
   * eligible row it falls back to `pick_city_pandas` over the same file.
   */
  method PickCityReservoir(rows: seq<CsvRow>, posted: set<Json>, draws: seq<nat>, table: seq<Row>, fallbackDraw: nat)
    returns (r: Result<City, PickError>)
    requires |rows| <= |draws|
    requires forall j :: 0 <= j < |draws| ==> draws[j] <= j
    ensures ReservoirChoice(rows, posted, draws).None? ==> r == PickCityPandas(table, posted, fallbackDraw)
    ensures ReservoirChoice(rows, posted, draws).Some? ==> r == CityOfCsv(ReservoirChoice(rows, posted, draws).value)
    ensures (exists row :: row in rows && ReservoirKey(row) !in posted) <==> ReservoirChoice(rows, posted, draws).Some?
  {
    var chosen := ScanReservoir(rows, posted, draws);
    ReservoirFindsEligible(rows, posted, draws);
    if chosen.None? {
      r := PickCityPandas(table, posted, fallbackDraw);
    } else {
      r := CityOfCsv(chosen.value);
    }
  }
}
