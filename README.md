# insta-city core, modelled in Dafny

insta-city collects material for a post about one city. It has four parts:

- **The picker** draws a row of a world-cities table, avoiding cities already
  logged in `posted.jsonl`. There are two variants: a pandas sampler and a
  reservoir sampler that streams the CSV file.
- **The encyclopedia fetcher** searches for the city, picks a page title,
  follows disambiguation options, and lengthens very short summaries from two
  related searches.
- **The image fetcher** builds the photo search queries. From the replies it
  gathers the photos, removes duplicate URLs, downloads at most `needed` files
  to `photo1.jpg`, `photo2.jpg`, … and pads a short list of paths by
  repetition.
- **The collector's name sanitiser** turns a city name into a folder name.

This project models those parts and proves what each one promises. One module
models each source file: `Picker`, `WikiFetcher`, `ImageFetcher` and
`Collector`. Three supporting modules hold shared definitions:

- `Text` covers the Python string behaviour the core relies on: whitespace,
  `strip`, `split` word counts, ASCII `lower`, substring tests, `str(int)` and
  `int(str)`.
- `Values` holds JSON field values, Python truthiness and `dict.get`.
- `Wrappers` holds `Option` and `Result`.

External effects, randomness and the clock are inputs:

- **The posted log** is an object: `Picker.PostedStore`, with whether the file
  exists, its lines, and whether its last line ends with a newline. Each line
  is a decoded object, blank, other text the JSON decoder rejects, or bytes
  that are not UTF-8. `load_posted_set` reads it and `save_posted` appends to
  it.
- **The record that `save_posted` stamps** is a `Picker.JsonObject`, whose
  fields the method updates in place, as the caller's dictionary is updated in
  Python.
- **The two table readers** are two inputs:
  - the pandas table is a sequence of typed `Row`s;
  - the CSV reader's rows are `CsvRow`s of text.
- **pandas' `sample`** is a `draw`, and the index picked is `draw % |pool|`.
- **`randrange(j + 1)` for the j-th eligible row** is `draws[j]`, with
  `draws[j] <= j`.
- **The wikipedia library** is an oracle `Wiki` with three calls:
  - `search`, which is `None` where the call raises;
  - `summary`;
  - `page`.
  Each lookup answers, raises a disambiguation error with its options, or
  fails in some other way.
- **The photo search** gives one `Reply` per query. A reply is a status and
  the decoded photos, or `ConnectionError` where `requests.get` raises.
- **The downloads** are an oracle telling, for each 1-based position and
  photo, whether the file already existed, was written, or was not written.
- **The timestamp of `save_posted`** is a parameter.

## Model

| member | source | states |
|---|---|---|
| Values.Get | src/picker.py:19 | `rec.get(key)` is the stored value when the key exists, and `None` when it does not |
| Values.Show | src/picker.py:19 | f-string interpolation turns a string into itself and `None` into the text `"None"` |
| Picker.RecordKey | src/picker.py:19 | a log record's key is always truthy; it is the `id` when that is truthy, otherwise the city and the country joined by a vertical bar |
| Picker.PostedKeysAppend | src/picker.py:16-21 | appending one log line adds that line's key when the line decodes, and adds nothing otherwise |
| Picker.Glue | src/picker.py:27-28 | a record appended after a last line without a newline joins that line: the joined line decodes, as the record, exactly when the old line was blank, and is non-UTF-8 exactly when the old line was |
| Picker.PostedStore.LoadPostedSet | src/picker.py:11-22 | a missing file gives the empty set; a line that is not UTF-8 anywhere in the file makes the call raise; otherwise a key is in the result exactly when some decodable line derives it |
| Picker.PostedStore.SavePosted | src/picker.py:24-28 | stamps `posted_at` (ISO time + `"Z"`) into the caller's record; afterwards the file exists and ends with a newline; after a newline-terminated file the stamped record is one more line and the posted keys grow by exactly the record's key; otherwise the record is glued onto the last line, whose key is lost, and the record's key is read back only when that line was blank; non-UTF-8 lines are neither added nor removed |
| Picker.StampKeepsKey | src/picker.py:26 | adding `posted_at` does not change a record's key |
| Picker.PandasKey | src/picker.py:34 | the pandas key is text; when the id is present it is exactly `str(int(id))`, which parses back to the id; otherwise it is `city_ascii` and the country joined by a vertical bar |
| Picker.ReservoirKeyCases | src/picker.py:59 | the reservoir key is text: the raw id text when it is non-empty, otherwise `city_ascii` and the country joined by a vertical bar |
| Picker.ReservoirKeyMatchesPandas | src/picker.py:59 | the reservoir and the pandas sampler derive the same key when the CSV id text is exactly `str(int(id))`, or empty where pandas reads no id |
| Picker.ReservoirKeyKeepsRawText | src/picker.py:59-60 | an id written with a leading zero still reads as the same integer, yet its reservoir key differs from the pandas key, so a logged key can match the row in one sampler and not in the other |
| Picker.NumericLogIdNeverMatchesRow | src/picker.py:34-35 | a log record whose `id` is a non-zero integer never equals a pandas row key (an integer is never equal to a string) |
| Picker.NotPosted | src/picker.py:35 | a row is in the pool exactly when it is in the table and its key is not posted |
| Picker.CityOfRow | src/picker.py:41-48 | the returned dictionary carries the row's id (`None` for a missing one), city and ASCII city name |
| Picker.PickCityPandas | src/picker.py:30-48 | an error exactly when the table is empty; otherwise a city built from some row of the table, and from a row not yet posted whenever one exists |
| Picker.EligibleMembers | src/picker.py:58-61 | the rows the reservoir counts are exactly the rows whose key is not posted |
| Picker.LastZero | src/picker.py:62-65 | a found position is below `n` and its draw is 0; when none is found, no draw below `n` is 0 |
| Picker.LastZeroIsLast | src/picker.py:62-65 | no draw after the found position is 0 |
| Picker.LastDrawnZeroHolds | src/picker.py:62-65 | the held row is an eligible row; once the first draw is 0 (as `randrange(1)` always is), some row is held |
| Picker.LastDrawnZeroStep | src/picker.py:62-65 | one more eligible row replaces the held row exactly when its draw is 0 |
| Picker.ReservoirChoice | src/picker.py:54-65 | the final choice is a row of the stream whose key is not posted; with a first draw of 0, there is no choice exactly when every row is posted |
| Picker.ReservoirPassIsLastDrawnZero | src/picker.py:54-65 | the counting pass counts exactly the eligible rows and holds the last eligible row whose draw was 0 |
| Picker.ScanReservoir | src/picker.py:54-65 | the loop's chosen row is the last eligible row whose draw was 0 |
| Picker.ReservoirFindsEligible | src/picker.py:62-66 | when every draw is within its `randrange` bound, a row is chosen exactly when some row is eligible |
| Picker.CityOfCsv | src/picker.py:69-76 | an empty id gives `id: None`; otherwise the city is built exactly when `int(id)` succeeds, with that value, and otherwise the error is `InvalidId`; the names are copied from the row |
| Picker.CsvIdRoundTrip | src/picker.py:75 | an id written as the decimal text of `n` is read back as `n` |
| Picker.PickCityReservoir | src/picker.py:51-76 | with no eligible row, the result is `pick_city_pandas` on the same data; otherwise it is the city of the reservoir's choice; a choice exists exactly when some row is eligible |
| ImageFetcher.ComposeImageQueries | src/image_fetcher.py:28-43 | three queries when both names are non-empty, two with only the city, none otherwise, each with its exact text; a coordinate query is appended when both coordinates are truthy; at most four |
| ImageFetcher.GatheredMembers | src/image_fetcher.py:51-71 | a photo is gathered exactly when it belongs to some reply with status 200 |
| ImageFetcher.DedupByUrlUrls | src/image_fetcher.py:74 | the de-duplicated list has pairwise distinct URLs, and its URLs are exactly those of the input |
| ImageFetcher.DedupByUrlKeepsLast | src/image_fetcher.py:74 | each URL keeps the last photo that carried it, as a dict keeps the last value for a key |
| ImageFetcher.DedupByUrlFirstOrder | src/image_fetcher.py:74 | URLs appear in the order of their first occurrence in the input, as a dict keeps a key's first insertion position |
| ImageFetcher.ImagesDir | src/image_fetcher.py:80-81 | the images folder is `{base_dir}/{folder}/images`, where the folder has no space: the city name with spaces turned into `_` when the name is truthy, else `unknown_city` |
| ImageFetcher.PhotoPathsDistinct | src/image_fetcher.py:85-87 | two download positions never share a target file |
| ImageFetcher.Take | src/image_fetcher.py:85 | `s[:n]`: a prefix of `s` whose length is `n`, or `len(s)` when `s` is shorter |
| ImageFetcher.SavedPathsMembers | src/image_fetcher.py:84-101 | the path of every position whose file existed or was written is in the list |
| ImageFetcher.SavedPathsOrigin | src/image_fetcher.py:84-101 | every listed path is the path of some position whose file existed or was written |
| ImageFetcher.SaveAttempts | src/image_fetcher.py:84-101 | the download loop's list is the paths of the positions kept, in order |
| ImageFetcher.RepeatAt | src/image_fetcher.py:104 | element `i` of `s * k` is `s[i % len(s)]` |
| ImageFetcher.Tile | src/image_fetcher.py:103-104 | the padded list has exactly `needed` entries, and entry `i` is `paths[i % len(paths)]` |
| ImageFetcher.FetchOutcomeProperties | src/image_fetcher.py:45-108 | `RequestFailed` exactly when some search request raised; once any URL is found, exactly `needed` paths are returned; the URLs returned are distinct and are exactly the URLs found |
| ImageFetcher.FetchImages | src/image_fetcher.py:45-108 | the two loops of `fetch_images` compute the gather / de-duplicate / download / pad outcome, including the early `[], []` return and the division by zero when nothing was saved |
| Text.SpacesToUnderscores | src/image_fetcher.py:80 | `replace(" ", "_")` keeps the length, turns each space into `_`, keeps every other character at its place, and leaves no space |
| Text.Strip | src/wiki_fetcher.py:83 | `strip()` is the slice of the input after its leading whitespace; it neither begins nor ends with whitespace, and only whitespace follows it |
| Text.WordCount | src/wiki_fetcher.py:43 | `len(s.split())` is the number of positions where a word begins (a non-whitespace character at the start or after whitespace); it is at most `len(s)`, and 0 exactly when `s` is all whitespace |
| Text.IntToDecimal | src/picker.py:34 | `str(i)` is non-empty, starts with `-` exactly for a negative number, is digits otherwise, and has no leading zero except in `0` itself |
| Text.ParseInt | src/picker.py:75 | `int(s)` succeeds exactly when the stripped text is an optional sign followed by one or more digits; a negative result has a `-` sign |
| Text.ParseIntRoundTrip | src/picker.py:34 | `int(str(i)) == i` for every integer |
| Collector.KeepChars | src/collector.py:11 | the filtered string consists of kept characters only, in their original order |
| Collector.KeepCharsCounts | src/collector.py:11 | every kept character survives the filter as often as it occurs in the input, and every other character is dropped |
| Collector.SanitizeName | src/collector.py:11 | the folder name is no longer than the input, has no space, and consists of characters `isalnum` accepts, `_` and `-` |
| Collector.SanitizeNameShape | src/collector.py:11 | the folder name is the kept characters with their leading and trailing spaces removed and each inner space turned into `_` |
| Collector.SanitizeNameIdempotent | src/collector.py:9-11 | sanitising a sanitised name changes nothing |
| WikiFetcher.SafeSearch | src/wiki_fetcher.py:9-14 | the search results when the search answers, and `[]` when it raises |
| WikiFetcher.SearchQuery | src/wiki_fetcher.py:23 | the query starts with the city name; it is `"{city}, {country}"` with a country, and just the city exactly when the country is empty |
| WikiFetcher.PreferContaining | src/wiki_fetcher.py:35-37 | the first element naming the needle case-insensitively, or the first element when none does; `None` only for an empty list |
| WikiFetcher.ChooseTitle | src/wiki_fetcher.py:35-37 | the title is the first result naming the city, or the first result when none does |
| WikiFetcher.ChooseOption | src/wiki_fetcher.py:49-56 | no option exactly when the list is empty; otherwise the first option when the country is empty, the first option naming the country when some does, else the first option |
| WikiFetcher.ExtensionPiece | src/wiki_fetcher.py:76-81 | a term whose search finds nothing adds nothing; otherwise it adds a space and the summary of its first hit when that summary answers, and nothing when it raises |
| WikiFetcher.ExtensionPiecesOfTerms | src/wiki_fetcher.py:72-79 | the extension is the history piece followed by the landmarks piece |
| WikiFetcher.ExtendedSummaryJoins | src/wiki_fetcher.py:72-83 | when both terms answer with texts that neither begin nor end with whitespace, the extension is the history text, a space and the landmarks text |
| WikiFetcher.ExtendedSummaryHistoryOnly | src/wiki_fetcher.py:72-83 | when only the history term answers, with such a text, the extension is that text: the landmarks failure is skipped |
| WikiFetcher.ExtendedSummaryEmpty | src/wiki_fetcher.py:72-83 | when neither term yields a summary, the extension is the empty string |
| WikiFetcher.FetchExtendedSummary | src/wiki_fetcher.py:67-83 | the loop computes the stripped concatenation of the pieces of the two terms, in order |
| WikiFetcher.ExtendSummary | src/wiki_fetcher.py:43-45 | the summary always keeps its original text as a prefix; from 20 words up it is unchanged; under 20 words it gets a space and the extension appended |
| WikiFetcher.Resolve | src/wiki_fetcher.py:39-40 | the summary and the page are both found exactly when both calls answer, with their answers; the lookup fails when the summary call fails, or when it answers and the page call fails |
| WikiFetcher.Attempt | src/wiki_fetcher.py:23-64 | a call that finishes without recursing returns a placeholder or a dictionary built from a page the oracle returned |
| WikiFetcher.Continue | src/wiki_fetcher.py:49-56 | a finished step is returned as it is, an empty option list raises, and the recursion on an option returns a placeholder or a page-built dictionary; fuel runs out only while recursing |
| WikiFetcher.FetchSummary | src/wiki_fetcher.py:17-64 | every dictionary returned is a placeholder (no URL, the "not found" or "not available" text for its title) or carries the title and URL of a page the oracle returned for some title, with a summary that begins with the oracle's summary of that title |
| WikiFetcher.AttemptCases | src/wiki_fetcher.py:23-64 | no results give the "not found" placeholder; any other failure gives the "not available" placeholder; a found summary keeps the page's title and URL and starts with the summary text; a disambiguation raises on an empty option list and otherwise continues with the chosen option |
| WikiFetcher.ResolveOptions | src/wiki_fetcher.py:39-49 | a disambiguation reported has the options the summary call raised, or, once the summary answered, those the page call raised; so they are non-empty when every disambiguation error the oracle raises lists an option |
| WikiFetcher.NeverRaises | src/wiki_fetcher.py:49-56 | when every disambiguation error lists at least one option, `fetch_summary` never raises |
| WikiFetcher.ContinueMonotone | src/wiki_fetcher.py:53-56 | once the first step is known, more recursion fuel does not change a result reached without running out |
| WikiFetcher.FuelMonotone | src/wiki_fetcher.py:53-56 | the fuel bound only cuts the recursion off: a result reached with some fuel is the result with any more fuel |

## Left out

- `_safe_get` and its retries on HTTP 429 (src/image_fetcher.py:15-26) are
  not used by the modelled functions. The HTTP headers, the API key, the
  `per_page` parameter and the timeouts are left out too.
- The `CACHE_DIR` creation, `mkdir` calls, printing and logging are side
  effects without a result.
- The downloaded bytes are left out. So is the `iter_content` chunking: only
  "existed / written / not written" matters to the result.
- The photo search reply decoding is left out. `p["src"]["large2x"]` and the
  other keys are taken as present; the `KeyError` on a malformed photo record
  is not modelled.
- `Path` joining is left out. Paths are plain `/`-joined strings, with no
  normalisation of separators or of `..`.
- ImageFetcher.FetchImages: takes `needed` as a natural number. Python
  slicing with a negative `needed` is not modelled.
- The docstring of `fetch_images` promises `photoN.jpeg`. The code writes
  `photoN.jpg`, and the model follows the code.
- pandas and CSV parsing are left out. The typed table and the CSV rows are
  separate inputs: NaN ids are `None`, and `int()` truncation of float ids has
  already been applied.
- The probability distribution of `sample` and `randrange` is left out.
  Draws are inputs, and only their effect on the choice is proved, not the
  uniformity of the sampling.
- Picker.ReservoirChoice: "no choice exactly when every row is posted"
  holds given a first draw of 0, as `randrange(1)` always is.
  `PickCityReservoir` requires every draw to be within its `randrange` bound.
- JSON decoding of the log is left out. A line is a decoded object, blank,
  other rejected text (which includes a value that is not an object, skipped
  by the source as well), or not UTF-8. Floats, booleans, lists and nested
  objects as field values are not modelled.
- Picker.Glue: takes a record glued onto a last line that is neither blank
  nor non-UTF-8 never to decode. For a decoded line the joined text is extra
  data after an object; for other rejected text this is not derived from a
  JSON grammar.
- Python `str` case mapping and character classes are Unicode-aware:
  - Text.Lower: maps ASCII letters only.
  - Text.ParseInt: accepts ASCII digits only, without the `_` digit
    separators Python's `int()` allows.
  - `str.isalnum` is not written out. `Collector` takes it as a parameter, and
    the shape and idempotence lemmas use only the fact that no whitespace
    character is alphanumeric, which holds in Python. `AsciiAlnum` is its
    ASCII part. So a name such as "São Paulo" keeps its `ã` whenever the
    classifier accepts it, as Python's does.
- WikiFetcher.FetchSummary: the disambiguation recursion carries a fuel
  bound, and `OutOfFuel` stands for a recursion deeper than the bound.
  `FuelMonotone` shows that the bound changes no result reached within it.
  The source has no bound of its own. Python's recursion limit stops a very
  deep recursion with a `RecursionError`, which is an `Exception`, so one of
  the handlers may turn it into a placeholder. That limit and its handling
  are not modelled.
- The `sentences` argument and `max_results = 5` are passed through to the
  oracle and not interpreted. `auto_suggest=False` is left out too.
- `save_wiki_data`, `collect_city` and `main.py` are left out: file writing
  and orchestration. `video_builder.py`, `poster_graph.py` and `utils.py` are
  not part of this model.
- The field order of the JSON line `save_posted` writes is left out, since
  only its contents are modelled. Non-ASCII escaping in `json.dumps` is left
  out for the same reason.
