/**
 * Summary resolution of the encyclopedia fetcher. The `wikipedia` library is
 * an oracle: `search` (`None` where the call raises), `summary` and `page`,
 * each of which either answers, raises a disambiguation error with its
 * options, or raises any other error.
 */
module WikiFetcher {
  import opened Wrappers
  import opened Text

  datatype Page = Page(title: string, url: string)

  /** The outcome of a `summary` or `page` call. */
  datatype Lookup<T> = Found(value: T) | Ambiguous(options: seq<string>) | Failed

  datatype Wiki = Wiki(
    search: string -> Option<seq<string>>,
    summary: (string, int) -> Lookup<string>,
    page: string -> Lookup<Page>)

  /** The dictionary `fetch_summary` returns. */
  datatype Info = Info(title: string, summary: string, url: string)

  datatype Outcome =
    | Returned(info: Info)
    | Raised      // `opts[0]` on an empty option list raises inside the handler
    | OutOfFuel   // the disambiguation recursion went deeper than the model's bound

  /** `safe_search(query)`: the search results, or `[]` where the library raises. */
  function SafeSearch(w: Wiki, query: string): (r: seq<string>)
    ensures w.search(query).None? ==> r == []
    ensures w.search(query).Some? ==> r == w.search(query).value
  {
    match w.search(query)
    case Some(results) => results
    case None => []
  }

  /** The search query: the city, followed by `", "` and the country when there is one. */
  function SearchQuery(city: string, country: string): (q: string)
    ensures |q| >= |city| && q[..|city|] == city
    ensures q == city <==> country == ""
    ensures country != "" ==> q[|city|..] == ", " + country
  {
    if country != "" then city + ", " + country else city
  }

  /** The first element of `s` containing `needle` case-insensitively, else the first element. */
  function PreferContaining(s: seq<string>, needle: string): (r: Option<string>)
    ensures r.None? <==> s == []
    ensures r.Some? ==> exists k ::
      && 0 <= k < |s| && s[k] == r.value
      && (forall j :: 0 <= j < k ==> !ContainsIgnoringCase(s[j], needle))
      && (ContainsIgnoringCase(s[k], needle) || (k == 0 && forall j :: 0 <= j < |s| ==> !ContainsIgnoringCase(s[j], needle)))
  {
    if s == [] then None
    else
      var k := FirstContaining(s, needle);
      if k < |s| then Some(s[k]) else Some(s[0])
  }

  function FirstContaining(s: seq<string>, needle: string): (k: nat)
    ensures k <= |s|
    ensures k < |s| ==> ContainsIgnoringCase(s[k], needle)
    ensures forall j :: 0 <= j < k ==> !ContainsIgnoringCase(s[j], needle)
  {
    if s == [] then 0
    else if ContainsIgnoringCase(s[0], needle) then 0
    else 1 + FirstContaining(s[1..], needle)
  }

  /** The page title tried: the first result naming the city, else the first result. */
  function ChooseTitle(city: string, results: seq<string>): (t: string)
    requires results != []
    ensures t in results
    ensures (exists j :: 0 <= j < |results| && ContainsIgnoringCase(results[j], city)) ==>
      ContainsIgnoringCase(t, city)
    ensures var k := FirstContaining(results, city);
      && (k < |results| ==> t == results[k])
      && (k == |results| ==> t == results[0])
  {
    PreferContaining(results, city).value
  }

  /**
   * The disambiguation option followed: with a country, the first option naming
   * it, else the first option; `None` when there is no option to index.
   */
  function ChooseOption(opts: seq<string>, country: string): (o: Option<string>)
    ensures o.None? <==> opts == []
    ensures o.Some? ==> o.value in opts
    ensures o.Some? && country == "" ==> o.value == opts[0]
    ensures o.Some? && country != "" && (exists j :: 0 <= j < |opts| && ContainsIgnoringCase(opts[j], country)) ==>
      ContainsIgnoringCase(o.value, country)
    ensures o.Some? && country != "" && (forall j :: 0 <= j < |opts| ==> !ContainsIgnoringCase(opts[j], country)) ==>
      o.value == opts[0]
    ensures o.Some? && country != "" && FirstContaining(opts, country) < |opts| ==>
      o.value == opts[FirstContaining(opts, country)]
  {
    if country != "" then PreferContaining(opts, country)
    else if opts != [] then Some(opts[0])
    else None
  }

  /** The two extension queries. */
  function ExtensionTerms(city: string): seq<string> {
    [city + " history", city + " landmarks"]
  }

  /** What one extension term adds: a space and the summary of its first search result, or nothing. */
  function ExtensionPiece(w: Wiki, term: string, sentences: int): (r: string)
    ensures |r| == 0 || r[0] == ' '
    ensures |SafeSearch(w, term)| == 0 ==> |r| == 0
    ensures |SafeSearch(w, term)| > 0 ==>
      var answer := w.summary(SafeSearch(w, term)[0], sentences);
      && (answer.Found? ==> r == " " + answer.value)
      && (!answer.Found? ==> |r| == 0)
  {
    var s := SafeSearch(w, term);
    if s == [] then ""
    else match w.summary(s[0], sentences)
      case Found(text) => " " + text
      case _ => ""
  }

  function ExtensionPieces(w: Wiki, terms: seq<string>, sentences: int): string {
    if terms == [] then ""
    else ExtensionPieces(w, terms[..|terms| - 1], sentences) + ExtensionPiece(w, terms[|terms| - 1], sentences)
  }

  /** `fetch_extended_summary(city)` as a value. */
  function ExtendedSummary(w: Wiki, city: string, sentences: int): string {
    Strip(ExtensionPieces(w, ExtensionTerms(city), sentences))
  }

  /** When neither extension term yields a summary, the extension is empty. */
  lemma ExtensionPiecesOfTerms(w: Wiki, city: string, sentences: int)
    ensures ExtensionPieces(w, ExtensionTerms(city), sentences) ==
      ExtensionPiece(w, city + " history", sentences) + ExtensionPiece(w, city + " landmarks", sentences)
  {
    var terms := ExtensionTerms(city);
    var a, b := ExtensionPiece(w, city + " history", sentences), ExtensionPiece(w, city + " landmarks", sentences);
    assert terms[..1][..0] == [];
    assert terms[..1] == [city + " history"];
    assert ExtensionPieces(w, terms[..1][..0], sentences) == "";
    assert ExtensionPieces(w, terms[..1], sentences) == "" + a;
    assert ExtensionPieces(w, terms, sentences) == a + b;
  }

  /** The search for `term` finds something and the summary of its first hit is `text`. */
  predicate Answers(w: Wiki, term: string, sentences: int, text: string) {
    var hits := SafeSearch(w, term);
    |hits| > 0 && w.summary(hits[0], sentences) == Found(text)
  }

  /** Non-empty text that neither begins nor ends with whitespace. */
  predicate Trimmed(t: string) {
    |t| > 0 && !IsSpace(t[0]) && !IsSpace(t[|t| - 1])
  }

  /** When both terms answer with trimmed texts `a` and `b`, the extension is `a + " " + b`. */
  lemma ExtendedSummaryJoins(w: Wiki, city: string, sentences: int, a: string, b: string)
    requires Answers(w, city + " history", sentences, a) && Trimmed(a)
    requires Answers(w, city + " landmarks", sentences, b) && Trimmed(b)
    ensures ExtendedSummary(w, city, sentences) == a + " " + b
  {
    var pa, pb := ExtensionPiece(w, city + " history", sentences), ExtensionPiece(w, city + " landmarks", sentences);
    assert pa == " " + a;
    assert pb == " " + b;
    ExtensionPiecesOfTerms(w, city, sentences);
    JoinedPiecesStrip(a, b);
  }

  /** Stripping two space-led trimmed pieces gives the texts joined by one space. */
  lemma JoinedPiecesStrip(a: string, b: string)
    requires Trimmed(a) && Trimmed(b)
    ensures Strip((" " + a) + (" " + b)) == a + " " + b
  {
    var t := a + " " + b;
    assert (" " + a) + (" " + b) == " " + t;
    assert t[0] == a[0] && t[|t| - 1] == b[|b| - 1];
    SpaceThenTrimmed(t);
  }

  /** When only the history term answers, with trimmed text `a`, the extension is `a`. */
  lemma ExtendedSummaryHistoryOnly(w: Wiki, city: string, sentences: int, a: string)
    requires Answers(w, city + " history", sentences, a) && Trimmed(a)
    requires ExtensionPiece(w, city + " landmarks", sentences) == ""
    ensures ExtendedSummary(w, city, sentences) == a
  {
    var pa, pb := ExtensionPiece(w, city + " history", sentences), ExtensionPiece(w, city + " landmarks", sentences);
    assert pa == " " + a;
    ExtensionPiecesOfTerms(w, city, sentences);
    assert pa + pb == " " + a;
    SpaceThenTrimmed(a);
  }

  /** Stripping a space before trimmed text gives that text. */
  lemma SpaceThenTrimmed(t: string)
    requires Trimmed(t)
    ensures Strip(" " + t) == t
  {
    var s := " " + t;
    assert s[1..] == t;
    assert LeadingSpace(t) == 0;
    assert LeadingSpace(s) == 1;
    StripNoSpaceEnds(t);
  }

  lemma ExtendedSummaryEmpty(w: Wiki, city: string, sentences: int)
    requires ExtensionPiece(w, city + " history", sentences) == ""
    requires ExtensionPiece(w, city + " landmarks", sentences) == ""
    ensures ExtendedSummary(w, city, sentences) == ""
  {
    ExtensionPiecesOfTerms(w, city, sentences);
    assert Strip("") == "";
  }

  /**
   * `fetch_extended_summary(city_ascii, country, sentences)`: tries the two
   * extension terms in order, appending `" " + summary` for each that answers;
   * failing terms are skipped.
   */
  method FetchExtendedSummary(w: Wiki, city: string, country: string, sentences: int) returns (extra: string)
    ensures extra == ExtendedSummary(w, city, sentences)
  {
    var acc := "";
    var terms := ExtensionTerms(city);
    var i := 0;
    while i < |terms|
      invariant 0 <= i <= |terms|
      invariant acc == ExtensionPieces(w, terms[..i], sentences)
    {
      assert terms[..i + 1][..i] == terms[..i];
      ghost var before := acc;
      var term := terms[i];
      var s := SafeSearch(w, term);
      if s != [] {
        var answer := w.summary(s[0], sentences);
        if answer.Found? {
          acc := acc + " " + answer.value;
        }
      }
      assert acc == before + ExtensionPiece(w, term, sentences);
      i := i + 1;
    }
    assert terms[..i] == terms;
    extra := Strip(acc);
  }

  /** A summary under 20 words gets `" " + extra` appended. */
  function ExtendSummary(w: Wiki, city: string, sentences: int, text: string): (r: string)
    ensures |r| >= |text| && r[..|text|] == text
    ensures WordCount(text) >= 20 ==> r == text
    ensures WordCount(text) < 20 ==> r == text + " " + ExtendedSummary(w, city, sentences)
  {
    if WordCount(text) < 20 then text + " " + ExtendedSummary(w, city, sentences) else text
  }

  /**
   * The `summary` call, then the `page` call, for the chosen title: the page
   * is asked for only once the summary answered, and the first call that
   * raises decides the outcome.
   */
  function Resolve(w: Wiki, title: string, sentences: int): (r: Lookup<(string, Page)>)
    ensures r.Found? <==> w.summary(title, sentences).Found? && w.page(title).Found?
    ensures r.Found? ==> r.value == (w.summary(title, sentences).value, w.page(title).value)
    ensures r.Failed? <==> w.summary(title, sentences).Failed? || (w.summary(title, sentences).Found? && w.page(title).Failed?)
  {
    match w.summary(title, sentences)
    case Ambiguous(opts) => Ambiguous(opts)
    case Failed => Failed
    case Found(text) =>
      match w.page(title)
      case Ambiguous(opts) => Ambiguous(opts)
      case Failed => Failed
      case Found(pg) => Found((text, pg))
  }

  function NotFoundInfo(city: string): Info {
    Info(city, "No Wikipedia summary found for " + city + ".", "")
  }

  function UnavailableInfo(city: string): Info {
    Info(city, "No Wikipedia summary available for " + city + ".", "")
  }

  /** A placeholder dictionary: no URL, and the "not found" or "not available" text for its title. */
  predicate IsPlaceholder(info: Info) {
    info == NotFoundInfo(info.title) || info == UnavailableInfo(info.title)
  }

  /**
   * The title and URL of a page the oracle returned for some title `t`, with a
   * summary that begins with the oracle's summary of `t`.
   */
  ghost predicate PageBacked(w: Wiki, sentences: int, info: Info) {
    exists t :: && w.page(t) == Found(Page(info.title, info.url))
                && w.summary(t, sentences).Found?
                && |w.summary(t, sentences).value| <= |info.summary|
                && info.summary[..|w.summary(t, sentences).value|] == w.summary(t, sentences).value
  }

  /** What `fetch_summary` may return: a placeholder, or a dictionary built from a page the oracle returned. */
  ghost predicate WellFormed(w: Wiki, sentences: int, info: Info) {
    IsPlaceholder(info) || PageBacked(w, sentences, info)
  }

  /** What one call of `fetch_summary` does before any recursion. */
  datatype Step =
    | Done(info: Info)
    | RaiseIndexError        // the option list is empty
    | Retry(option: string)  // recurse on this option with the country dropped

  /**
   * One call of `fetch_summary`: search, pick a title, fetch its summary and
   * page; a placeholder when the search is empty or the lookup fails; the
   * disambiguation option to recurse on.
   */
  function Attempt(w: Wiki, city: string, country: string, sentences: int): (st: Step)
    ensures st.Done? ==> WellFormed(w, sentences, st.info)
  {
    var results := SafeSearch(w, SearchQuery(city, country));
    if results == [] then Done(NotFoundInfo(city))
    else
      var title := ChooseTitle(city, results);
      match Resolve(w, title, sentences)
      case Found((text, pg)) =>
        var info := Info(pg.title, ExtendSummary(w, city, sentences, text), pg.url);
        assert w.page(title) == Found(Page(info.title, info.url));
        Done(info)
      case Failed => Done(UnavailableInfo(city))
      case Ambiguous(opts) =>
        match ChooseOption(opts, country)
        case None => RaiseIndexError
        case Some(o) => Retry(o)
  }

  /**
   * The search finding nothing and a failed lookup give the two placeholders;
   * a found summary keeps the page's title and URL and begins with the summary
   * text; a disambiguation raises on an empty option list and otherwise
   * continues with a member of the options.
   */
  lemma AttemptCases(w: Wiki, city: string, country: string, sentences: int)
    ensures var st, results := Attempt(w, city, country, sentences), SafeSearch(w, SearchQuery(city, country));
      && (results == [] ==> st == Done(NotFoundInfo(city)))
      && (results != [] ==>
            var res := Resolve(w, ChooseTitle(city, results), sentences);
            && (res.Failed? ==> st == Done(UnavailableInfo(city)))
            && (res.Found? ==>
                  var (text, pg) := res.value;
                  && st.Done? && st.info.title == pg.title && st.info.url == pg.url
                  && |st.info.summary| >= |text| && st.info.summary[..|text|] == text
                  && (WordCount(text) >= 20 ==> st.info.summary == text))
            && (res.Ambiguous? && res.options == [] ==> st == RaiseIndexError)
            && (res.Ambiguous? && res.options != [] ==>
                  st.Retry? && st.option in res.options && Some(st.option) == ChooseOption(res.options, country)))
  {
  }

  /**
   * `fetch_summary(city_ascii, country, sentences)`. Each disambiguation step
   * spends one unit of `fuel`; the source has no bound.
   */
  function FetchSummary(w: Wiki, city: string, country: string, sentences: int, fuel: nat): (r: Outcome)
    ensures r.Returned? ==> WellFormed(w, sentences, r.info)
    decreases fuel, 1
  {
    Continue(w, Attempt(w, city, country, sentences), sentences, fuel)
  }

  /** What `fetch_summary` returns once its first step is known. */
  function Continue(w: Wiki, st: Step, sentences: int, fuel: nat): (r: Outcome)
    ensures st.Done? ==> r == Returned(st.info)
    ensures st.RaiseIndexError? ==> r == Raised
    ensures st.Retry? && r.Returned? ==> WellFormed(w, sentences, r.info)
    ensures r.OutOfFuel? ==> st.Retry?
    decreases fuel, 0
  {
    match st
    case Done(info) => Returned(info)
    case RaiseIndexError => Raised
    case Retry(o) => if fuel == 0 then OutOfFuel else FetchSummary(w, o, "", sentences, fuel - 1)
  }

  /** Every disambiguation error the oracle raises lists at least one option. */
  ghost predicate OptionsNonEmpty(w: Wiki, sentences: int) {
    && (forall t :: w.summary(t, sentences).Ambiguous? ==> w.summary(t, sentences).options != [])
    && (forall t :: w.page(t).Ambiguous? ==> w.page(t).options != [])
  }

  /** Only an empty option list can make `fetch_summary` raise. */
  lemma {:induction false} NeverRaises(w: Wiki, city: string, country: string, sentences: int, fuel: nat)
    requires OptionsNonEmpty(w, sentences)
    ensures !FetchSummary(w, city, country, sentences, fuel).Raised?
    decreases fuel
  {
    var results := SafeSearch(w, SearchQuery(city, country));
    if results != [] {
      var title := ChooseTitle(city, results);
      if Resolve(w, title, sentences).Ambiguous? {
        ResolveOptions(w, title, sentences);
      }
    }
    AttemptCases(w, city, country, sentences);
    var st := Attempt(w, city, country, sentences);
    if st.Retry? && fuel > 0 {
      NeverRaises(w, st.option, "", sentences, fuel - 1);
    }
  }

  /**
   * A disambiguation from `Resolve` is the one the summary call raised, or,
   * after the summary answered, the one the page call raised; so its options
   * are non-empty when the oracle's always are.
   */
  lemma ResolveOptions(w: Wiki, title: string, sentences: int)
    ensures var r, sm, pg := Resolve(w, title, sentences), w.summary(title, sentences), w.page(title);
      r.Ambiguous? ==>
        || (sm.Ambiguous? && r.options == sm.options)
        || (sm.Found? && pg.Ambiguous? && r.options == pg.options)
    ensures OptionsNonEmpty(w, sentences) && Resolve(w, title, sentences).Ambiguous? ==>
      Resolve(w, title, sentences).options != []
  {
  }

  /** The fuel bound only cuts the recursion off: a result reached with some fuel is the result with more. */
  lemma {:induction false} FuelMonotone(w: Wiki, city: string, country: string, sentences: int, fuel: nat, more: nat)
    requires fuel <= more
    requires !FetchSummary(w, city, country, sentences, fuel).OutOfFuel?
    ensures FetchSummary(w, city, country, sentences, more) == FetchSummary(w, city, country, sentences, fuel)
    decreases fuel, 1
  {
    ContinueMonotone(w, Attempt(w, city, country, sentences), sentences, fuel, more);
  }

  lemma {:induction false} ContinueMonotone(w: Wiki, st: Step, sentences: int, fuel: nat, more: nat)
    requires fuel <= more
    requires !Continue(w, st, sentences, fuel).OutOfFuel?
    ensures Continue(w, st, sentences, more) == Continue(w, st, sentences, fuel)
    decreases fuel, 0
  {
    if st.Retry? {
      FuelMonotone(w, st.option, "", sentences, fuel - 1, more - 1);
    }
  }
}
