/**
 * Image-list shaping of the image fetcher. The photo search service and the
 * downloads are inputs: one `Reply` per query, in query order, and a
 * `download` oracle telling, for the 1-based position and the photo, whether
 * the local file already existed, was written, or could not be written.
 */
module ImageFetcher {
  import opened Wrappers
  import opened Values
  import Text

  /**
   * `compose_image_queries(city_ascii, country, lat, lng)`: three queries when
   * both names are non-empty, two with only the city, none without it; a
   * coordinate query is added last when both coordinates are truthy.
   */
  method ComposeImageQueries(cityAscii: string, country: string, lat: Scalar, lng: Scalar)
    returns (queries: seq<string>)
    ensures var named := if cityAscii != "" && country != "" then 3 else if cityAscii != "" then 2 else 0;
      |queries| == named + (if lat.truthy && lng.truthy then 1 else 0)
    ensures |queries| <= 4
    ensures cityAscii != "" && country != "" ==>
      && queries[0] == cityAscii + " skyline " + country
      && queries[1] == cityAscii + " " + country + " landmarks"
      && queries[2] == cityAscii + " " + country + " city"
    ensures cityAscii != "" && country == "" ==>
      queries[0] == cityAscii + " skyline" && queries[1] == cityAscii + " city"
    ensures lat.truthy && lng.truthy ==>
      queries[|queries| - 1] == cityAscii + " " + lat.text + "," + lng.text
  {
    queries := [];
    if cityAscii != "" && country != "" {
      queries := queries + [
        cityAscii + " skyline " + country,
        cityAscii + " " + country + " landmarks",
        cityAscii + " " + country + " city"
      ];
    } else if cityAscii != "" {
      queries := queries + [cityAscii + " skyline", cityAscii + " city"];
    }
    if lat.truthy && lng.truthy {
      queries := queries + [cityAscii + " " + lat.text + "," + lng.text];
    }
  }

  /** The record kept per photo: its `large2x` URL, photographer and page URL. */
  datatype Photo = Photo(url: string, photographer: string, source: string)

  /** The answer to one search request: a status and the decoded photos, or a raised request error. */
  datatype Reply = Reply(status: int, photos: seq<Photo>) | ConnectionError

  /** What happened at one download position. */
  datatype Download = AlreadyOnDisk | Saved | NotSaved

  datatype FetchResult =
    | Fetched(paths: seq<string>, urls: seq<string>)
    | RequestFailed   // the search request raised; the exception leaves `fetch_images`
    | ZeroDivision    // the tiling step divides by `len(downloaded_paths) == 0`

  predicate HasConnectionError(replies: seq<Reply>) {
    exists i :: 0 <= i < |replies| && replies[i].ConnectionError?
  }

  /** `all_images`: the photos of the status-200 replies, in query order. */
  function Gathered(replies: seq<Reply>): (r: seq<Photo>)
  {
    if replies == [] then []
    else
      var last := replies[|replies| - 1];
      Gathered(replies[..|replies| - 1]) + (if last.Reply? && last.status == 200 then last.photos else [])
  }

  /** Every gathered photo comes from a status-200 reply, and every photo of such a reply is gathered. */
  lemma {:induction false} GatheredMembers(replies: seq<Reply>)
    ensures forall p :: p in Gathered(replies) <==>
      exists i :: 0 <= i < |replies| && replies[i].Reply? && replies[i].status == 200 && p in replies[i].photos
  {
    if replies != [] {
      var n := |replies| - 1;
      GatheredMembers(replies[..n]);
      forall i | 0 <= i < n ensures replies[..n][i] == replies[i] {}
    }
  }

  function UrlSet(s: seq<Photo>): set<string> {
    set p | p in s :: p.url
  }

  function Urls(s: seq<Photo>): (r: seq<string>)
    ensures |r| == |s| && forall i :: 0 <= i < |s| ==> r[i] == s[i].url
  {
    seq(|s|, i requires 0 <= i < |s| => s[i].url)
  }

  /** The position of the first photo with URL `u`, or `|s|` when there is none. */
  function FirstIndex(s: seq<Photo>, u: string): (k: nat)
    ensures k <= |s|
    ensures k < |s| ==> s[k].url == u
    ensures forall m :: 0 <= m < k ==> s[m].url != u
  {
    if s == [] then 0 else if s[0].url == u then 0 else 1 + FirstIndex(s[1..], u)
  }

  /** The last photo with URL `u`. */
  function LastWithUrl(s: seq<Photo>, u: string): Option<Photo>
  {
    if s == [] then None
    else if s[|s| - 1].url == u then Some(s[|s| - 1])
    else LastWithUrl(s[..|s| - 1], u)
  }

  function IndexOfUrl(s: seq<Photo>, u: string): (r: Option<nat>)
    ensures r.Some? ==> r.value < |s| && s[r.value].url == u
    ensures r.None? ==> forall i :: 0 <= i < |s| ==> s[i].url != u
  {
    if s == [] then None
    else if s[|s| - 1].url == u then Some(|s| - 1)
    else IndexOfUrl(s[..|s| - 1], u)
  }

  /**
   * `list({img["url"]: img for img in all_images}.values())`: a dictionary keeps
   * a key at the place of its first insertion and the value of its last.
   */
  function DedupByUrl(s: seq<Photo>): (r: seq<Photo>)
    ensures |r| <= |s|
  {
    if s == [] then []
    else
      var rest, x := DedupByUrl(s[..|s| - 1]), s[|s| - 1];
      match IndexOfUrl(rest, x.url)
      case Some(j) => rest[j := x]
      case None => rest + [x]
  }

  ghost predicate DistinctUrls(r: seq<Photo>) {
    forall i, j :: 0 <= i < j < |r| ==> r[i].url != r[j].url
  }

  lemma UrlSetAppend(p: seq<Photo>, x: Photo)
    ensures UrlSet(p + [x]) == UrlSet(p) + {x.url}
  {
    var s := p + [x];
    forall u | u in UrlSet(s) ensures u in UrlSet(p) + {x.url} {
      var q :| q in s && q.url == u;
    }
    assert s[|p|] == x;
  }

  lemma UrlSetUpdate(r: seq<Photo>, j: nat, x: Photo)
    requires j < |r| && r[j].url == x.url
    ensures UrlSet(r[j := x]) == UrlSet(r)
  {
    var t := r[j := x];
    forall u | u in UrlSet(t) ensures u in UrlSet(r) {
      var q :| q in t && q.url == u;
      var i :| 0 <= i < |t| && t[i] == q;
      assert r[i] in r;
    }
    forall u | u in UrlSet(r) ensures u in UrlSet(t) {
      var q :| q in r && q.url == u;
      var i :| 0 <= i < |r| && r[i] == q;
      assert t[i] in t;
    }
  }

  lemma InUrlSet(s: seq<Photo>, i: nat)
    requires i < |s|
    ensures s[i].url in UrlSet(s)
  {
    assert s[i] in s;
  }

  /** The de-duplicated list holds each URL of the input exactly once. */
  lemma {:induction false} DedupByUrlUrls(s: seq<Photo>)
    ensures DistinctUrls(DedupByUrl(s))
    ensures UrlSet(DedupByUrl(s)) == UrlSet(s)
  {
    if s != [] {
      var p, x := s[..|s| - 1], s[|s| - 1];
      assert s == p + [x];
      var rest := DedupByUrl(p);
      DedupByUrlUrls(p);
      UrlSetAppend(p, x);
      match IndexOfUrl(rest, x.url)
      case Some(j) =>
        InUrlSet(rest, j);
        UrlSetUpdate(rest, j, x);
      case None =>
        UrlSetAppend(rest, x);
        forall q | q in rest ensures q.url != x.url {
          var i :| 0 <= i < |rest| && rest[i] == q;
        }
    }
  }

  /** Each URL keeps the last photo that carried it. */
  lemma {:induction false} DedupByUrlKeepsLast(s: seq<Photo>)
    ensures var r := DedupByUrl(s);
      forall i :: 0 <= i < |r| ==> LastWithUrl(s, r[i].url) == Some(r[i])
  {
    if s != [] {
      var p, x := s[..|s| - 1], s[|s| - 1];
      assert s == p + [x];
      var rest := DedupByUrl(p);
      DedupByUrlKeepsLast(p);
      DedupByUrlUrls(p);
      var r := DedupByUrl(s);
      assert LastWithUrl(s, x.url) == Some(x);
      forall i | 0 <= i < |r| ensures LastWithUrl(s, r[i].url) == Some(r[i]) {
        if r[i].url != x.url {
          assert r[i] == rest[i];
          assert LastWithUrl(s, r[i].url) == LastWithUrl(p, r[i].url);
        }
      }
    }
  }

  /** URLs keep the order of their first occurrence. */
  lemma {:induction false} DedupByUrlFirstOrder(s: seq<Photo>)
    ensures var r := DedupByUrl(s);
      forall i, j :: 0 <= i < j < |r| ==> FirstIndex(s, r[i].url) < FirstIndex(s, r[j].url)
  {
    if s != [] {
      var p, x := s[..|s| - 1], s[|s| - 1];
      assert s == p + [x];
      var rest := DedupByUrl(p);
      DedupByUrlFirstOrder(p);
      DedupByUrlUrls(p);
      var r := DedupByUrl(s);
      forall i | 0 <= i < |rest| ensures FirstIndex(s, rest[i].url) == FirstIndex(p, rest[i].url) < |p| {
        InUrlSet(rest, i);
        FirstIndexExtend(p, x, rest[i].url);
      }
      DedupByUrlLast(p, x);
      if |r| > |rest| {
        NotIndexedNotInUrlSet(rest, x.url);
        FirstIndexOfNew(p, x);
      }
      forall i, j | 0 <= i < j < |r| ensures FirstIndex(s, r[i].url) < FirstIndex(s, r[j].url) {
        if j < |rest| {
          assert FirstIndex(p, rest[i].url) < FirstIndex(p, rest[j].url);
        }
      }
    }
  }

  /** One more photo either replaces the photo with its URL in place or is appended. */
  lemma DedupByUrlLast(p: seq<Photo>, x: Photo)
    ensures var r, rest := DedupByUrl(p + [x]), DedupByUrl(p);
      && (|r| == |rest| || (|r| == |rest| + 1 && IndexOfUrl(rest, x.url).None?))
      && forall i :: 0 <= i < |r| ==> r[i].url == (if i < |rest| then rest[i].url else x.url)
  {
    var s := p + [x];
    assert s[..|s| - 1] == p;
    assert s[|s| - 1] == x;
  }

  lemma NotIndexedNotInUrlSet(s: seq<Photo>, u: string)
    requires IndexOfUrl(s, u).None?
    ensures u !in UrlSet(s)
  {
    forall q | q in s ensures q.url != u {
      var i :| 0 <= i < |s| && s[i] == q;
    }
  }

  lemma FirstIndexOfNew(p: seq<Photo>, x: Photo)
    requires x.url !in UrlSet(p)
    ensures FirstIndex(p + [x], x.url) == |p|
  {
    var s := p + [x];
    assert s[|p|].url == x.url;
    forall m | 0 <= m < |p| ensures s[m].url != x.url {
      InUrlSet(p, m);
    }
  }

  lemma FirstIndexExtend(p: seq<Photo>, x: Photo, u: string)
    requires u in UrlSet(p)
    ensures FirstIndex(p + [x], u) == FirstIndex(p, u)
  {
    var q :| q in p && q.url == u;
    var k, k' := FirstIndex(p, u), FirstIndex(p + [x], u);
    var s := p + [x];
    assert k < |p|;
    assert s[k] == p[k];
    assert k' <= k;
    assert s[k'] == p[k'];
  }

  /** `unique_images[:needed]`. */
  function Take<T>(s: seq<T>, n: nat): (r: seq<T>)
    ensures |r| <= n && |r| <= |s| && (|r| == n || |r| == |s|)
    ensures r == s[..|r|]
  {
    if n <= |s| then s[..n] else s
  }

  /** `images_dir`: `{base_dir}/{city_folder}/images`, with `unknown_city` for an absent or empty name. */
  function ImagesDir(baseDir: string, cityName: Option<string>): (r: string)
    ensures |r| >= |baseDir| + 8 && r[..|baseDir| + 1] == baseDir + "/" && r[|r| - 7..] == "/images"
    ensures ' ' !in r[|baseDir| + 1..|r| - 7]
    ensures cityName.Some? && |cityName.value| > 0 ==>
      r[|baseDir| + 1..|r| - 7] == Text.SpacesToUnderscores(cityName.value)
    ensures !(cityName.Some? && |cityName.value| > 0) ==> r[|baseDir| + 1..|r| - 7] == "unknown_city"
  {
    var folder := if cityName.Some? && |cityName.value| > 0 then Text.SpacesToUnderscores(cityName.value) else "unknown_city";
    var r := baseDir + "/" + folder + "/images";
    assert r[|baseDir| + 1..|r| - 7] == folder;
    r
  }

  /** The target of the download at 1-based position `idx`. */
  function PhotoPath(dir: string, idx: nat): string {
    dir + "/photo" + Text.NatToDecimal(idx) + ".jpg"
  }

  /** Two download positions never share a target file. */
  lemma PhotoPathsDistinct(dir: string, i: nat, j: nat)
    requires i != j
    ensures PhotoPath(dir, i) != PhotoPath(dir, j)
  {
    var di, dj := Text.NatToDecimal(i), Text.NatToDecimal(j);
    var p, q := PhotoPath(dir, i), PhotoPath(dir, j);
    assert p[|dir| + 6..|p| - 4] == di;
    assert q[|dir| + 6..|q| - 4] == dj;
    Text.NatToDecimalValue(i);
    Text.NatToDecimalValue(j);
  }

  /** `downloaded_paths` after the download loop over `attempts`. */
  function SavedPaths(dir: string, attempts: seq<Photo>, download: (nat, Photo) -> Download): (r: seq<string>)
    ensures |r| <= |attempts|
  {
    if attempts == [] then []
    else
      var n := |attempts|;
      SavedPaths(dir, attempts[..n - 1], download) +
        (if download(n, attempts[n - 1]) != NotSaved then [PhotoPath(dir, n)] else [])
  }

  /** A path is kept exactly when it is that of a position whose file existed or was written. */
  lemma {:induction false} SavedPathsMembers(dir: string, attempts: seq<Photo>, download: (nat, Photo) -> Download, idx: nat)
    requires 1 <= idx <= |attempts|
    ensures download(idx, attempts[idx - 1]) != NotSaved ==> PhotoPath(dir, idx) in SavedPaths(dir, attempts, download)
  {
    var n := |attempts|;
    var prev := SavedPaths(dir, attempts[..n - 1], download);
    var tail := if download(n, attempts[n - 1]) != NotSaved then [PhotoPath(dir, n)] else [];
    assert SavedPaths(dir, attempts, download) == prev + tail;
    if idx < n {
      SavedPathsMembers(dir, attempts[..n - 1], download, idx);
      assert attempts[..n - 1][idx - 1] == attempts[idx - 1];
    }
  }

  lemma {:induction false} SavedPathsOrigin(dir: string, attempts: seq<Photo>, download: (nat, Photo) -> Download, k: nat)
    requires k < |SavedPaths(dir, attempts, download)|
    ensures exists idx ::
      && 1 <= idx <= |attempts|
      && download(idx, attempts[idx - 1]) != NotSaved
      && SavedPaths(dir, attempts, download)[k] == PhotoPath(dir, idx)
  {
    var n := |attempts|;
    var prev := SavedPaths(dir, attempts[..n - 1], download);
    if k < |prev| {
      SavedPathsOrigin(dir, attempts[..n - 1], download, k);
      var idx :| 1 <= idx <= n - 1 && download(idx, attempts[..n - 1][idx - 1]) != NotSaved &&
        prev[k] == PhotoPath(dir, idx);
      assert attempts[..n - 1][idx - 1] == attempts[idx - 1];
    } else {
      assert SavedPaths(dir, attempts, download)[k] == PhotoPath(dir, n);
    }
  }

  /** `s * k`. */
  function Repeat<T>(s: seq<T>, k: nat): (r: seq<T>)
    ensures |r| == k * |s|
  {
    if k == 0 then [] else s + Repeat(s, k - 1)
  }

  lemma {:induction false} RepeatAt<T>(s: seq<T>, k: nat, i: nat)
    requires i < k * |s|
    ensures Repeat(s, k)[i] == s[i % |s|]
  {
    if i >= |s| {
      assert (k - 1) * |s| == k * |s| - |s|;
      RepeatAt(s, k - 1, i - |s|);
      ModSubtract(i, |s|);
    } else {
      assert i % |s| == i;
    }
  }

  lemma MulAtLeast(m: int, d: int)
    requires m > 0 && d >= 1
    ensures d * m >= m
  {
    if d > 1 {
      MulAtLeast(m, d - 1);
      assert d * m == (d - 1) * m + m;
    }
  }
  lemma ModUnique(i: int, m: int, q: int, r: int)
    requires 0 <= r < m && i == q * m + r
    ensures i % m == r
  {
    var q0, r0 := i / m, i % m;
    assert i == q0 * m + r0;
    assert (q - q0) * m == r0 - r;
    assert (q0 - q) * m == r - r0;
    if q - q0 >= 1 {
      MulAtLeast(m, q - q0);
      assert false;
    } else if q0 - q >= 1 {
      MulAtLeast(m, q0 - q);
      assert false;
    }
  }
  lemma ModSubtract(i: int, m: int)
    requires 0 < m <= i
    ensures (i - m) % m == i % m
  {
    var q, r := i / m, i % m;
    assert i == q * m + r;
    ModUnique(i - m, m, q - 1, r);
  }

  /** `(paths * (needed // len(paths) + 1))[:needed]`. */
  function Tile<T>(paths: seq<T>, needed: nat): (r: seq<T>)
    requires paths != []
    ensures |r| == needed
    ensures forall i :: 0 <= i < needed ==> r[i] == paths[i % |paths|]
  {
    var m := |paths|;
    var copies := needed / m + 1;
    assert needed < copies * m by {
      assert needed == (needed / m) * m + needed % m;
    }
    var r := Repeat(paths, copies)[..needed];
    assert forall i :: 0 <= i < needed ==> r[i] == paths[i % m] by {
      forall i | 0 <= i < needed ensures r[i] == paths[i % m] {
        RepeatAt(paths, copies, i);
      }
    }
    r
  }

  /**
   * What `fetch_images(queries, city_name, needed, base_dir)` returns: a
   * failed search request propagates; otherwise the photos of the successful
   * searches, de-duplicated by URL, are downloaded (at most `needed` of them)
   * to `photo1.jpg`, `photo2.jpg`, …, and a short list of paths is tiled up to
   * `needed`.
   */
  function FetchOutcome(replies: seq<Reply>, cityName: Option<string>, needed: nat, baseDir: string,
                        download: (nat, Photo) -> Download): FetchResult
  {
    if HasConnectionError(replies) then RequestFailed
    else
      var unique := DedupByUrl(Gathered(replies));
      var paths := SavedPaths(ImagesDir(baseDir, cityName), Take(unique, needed), download);
      if unique == [] then Fetched([], [])
      else if |paths| >= needed then Fetched(paths, Urls(unique))
      else if paths == [] then ZeroDivision
      else Fetched(Tile(paths, needed), Urls(unique))
  }

  /**
   * Only a failed request is `RequestFailed`; once any photo URL is found the
   * paths returned number exactly `needed`; the URLs returned are distinct and
   * are exactly the URLs found.
   */
  lemma FetchOutcomeProperties(replies: seq<Reply>, cityName: Option<string>, needed: nat, baseDir: string,
                               download: (nat, Photo) -> Download)
    ensures var r := FetchOutcome(replies, cityName, needed, baseDir, download);
      && (r == RequestFailed <==> HasConnectionError(replies))
      && (r.Fetched? && r.urls != [] ==> |r.paths| == needed)
      && (r.Fetched? ==> forall i, j :: 0 <= i < j < |r.urls| ==> r.urls[i] != r.urls[j])
      && (r.Fetched? ==> forall u :: u in r.urls <==> u in UrlSet(Gathered(replies)))
  {
    DedupByUrlUrls(Gathered(replies));
  }

  /**
   * The download loop of `fetch_images`: photo `idx` (from 1) goes to
   * `photo<idx>.jpg`; its path is kept when the file was already there or the
   * download wrote it, and a failed download is skipped.
   */
  method SaveAttempts(dir: string, attempts: seq<Photo>, download: (nat, Photo) -> Download)
    returns (paths: seq<string>)
    ensures paths == SavedPaths(dir, attempts, download)
  {
    paths := [];
    var idx := 1;
    while idx <= |attempts|
      invariant 1 <= idx <= |attempts| + 1
      invariant paths == SavedPaths(dir, attempts[..idx - 1], download)
    {
      assert attempts[..idx][..idx - 1] == attempts[..idx - 1];
      var outcome := download(idx, attempts[idx - 1]);
      if outcome == AlreadyOnDisk || outcome == Saved {
        paths := paths + [PhotoPath(dir, idx)];
      }
      idx := idx + 1;
    }
    assert attempts[..idx - 1] == attempts;
  }

  /**
   * `fetch_images`: the first loop issues the searches in order and stops at a
   * failed request; the second tries each photo in turn, keeping the path of
   * every photo already on disk or written.
   */
  method FetchImages(replies: seq<Reply>, cityName: Option<string>, needed: nat, baseDir: string,
                     download: (nat, Photo) -> Download)
    returns (r: FetchResult)
    ensures r == FetchOutcome(replies, cityName, needed, baseDir, download)
  {
    var all: seq<Photo> := [];
    var q := 0;
    while q < |replies|
      invariant 0 <= q <= |replies|
      invariant all == Gathered(replies[..q])
      invariant forall i :: 0 <= i < q ==> !replies[i].ConnectionError?
    {
      assert replies[..q + 1][..q] == replies[..q];
      match replies[q]
      case ConnectionError =>
        return RequestFailed;
      case Reply(status, photos) =>
        if status == 200 {
          all := all + photos;
        }
      q := q + 1;
    }
    assert replies[..q] == replies;

    var unique := DedupByUrl(all);
    if unique == [] {
      return Fetched([], []);
    }
    var dir := ImagesDir(baseDir, cityName);
    var attempts := Take(unique, needed);
    var paths := SaveAttempts(dir, attempts, download);

    var urls := Urls(unique);
    if |paths| < needed {
      if paths == [] {
        return ZeroDivision;
      }
      paths := Tile(paths, needed);
    }
    r := Fetched(paths, urls);
  }
}
