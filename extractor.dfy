/**
 * `processFile` and `fetchFavicon`: from a page's logical path and text,
 * zero or one index record. The favicon request goes through an oracle
 * `fetch`, which stands for the browser's `fetch` followed by
 * `URL.createObjectURL(await response.blob())`.
 */
module Extractor {
  import opened Wrappers
  import opened Text
  import opened Marker

  /** The object `processFile` builds; `url` is the key of the object store. */
  datatype Record = Record(title: string, url: string, httpsUrl: string, description: string, favicon: string)

  /** What the favicon request can come to: a rejected promise, or a response with its `ok` flag and the object URL of its body. */
  datatype FetchOutcome = NetworkError | Response(ok: bool, objectUrl: string)

  const HnetScheme: string := "hnet://"
  const HttpsScheme: string := "https://"
  const FaviconFile: string := "/favicon.ico"
  const DefaultFavicon: string := "/default-favicon.png"

  /** `urlPath`: the path with one leading slash removed. */
  function UrlPath(path: string): string {
    StripLeadingSlash(path)
  }

  /** `hnetUrl`, the record's `url` and store key. */
  function HnetUrl(path: string): string {
    HnetScheme + UrlPath(path)
  }

  function HttpsUrl(path: string): string {
    HttpsScheme + UrlPath(path)
  }

  /** `domain`: the scheme and the first `/`-separated segment of `urlPath`. */
  function Domain(path: string): string {
    HttpsScheme + FirstSegment(UrlPath(path))
  }

  /** `fetchFavicon(domain)`: the fetched icon when the response is ok, the default otherwise; never an error. */
  function FetchFavicon(fetch: string -> FetchOutcome, domain: string): string {
    match fetch(domain + FaviconFile)
    case Response(ok, objectUrl) => if ok then objectUrl else DefaultFavicon
    case NetworkError => DefaultFavicon
  }

  /** Some match of the marker pattern `opening` occurs in `content`. */
  ghost predicate HasMarker(content: string, opening: string) {
    exists p, v :: MatchesAt(content, opening, p, v)
  }

  /**
   * `v` is the capture of the leftmost match of `opening` in `content`.
   */
  ghost predicate IsLeftmostCapture(content: string, opening: string, v: string) {
    exists p :: MatchesAt(content, opening, p, v) && NoMatchIn(content, opening, 0, p)
  }

  /**
   * `processFile(fileHandle, path)` with the file's text given: a record
   * when both markers match, `None` (the source's `null`) otherwise.
   */
  function ProcessFile(path: string, content: string, fetch: string -> FetchOutcome): Option<Record> {
    var titleMatch := LeftmostCapture(content, TitleOpening);
    var descriptionMatch := LeftmostCapture(content, DescriptionOpening);
    if titleMatch.Some? && descriptionMatch.Some? then
      var title := Trim(titleMatch.value);
      var description := Trim(descriptionMatch.value);
      Some(Record(title, HnetUrl(path), HttpsUrl(path), description, FetchFavicon(fetch, Domain(path))))
    else
      None
  }

  /**
   * What `processFile` promises: a record exactly when both markers match,
   * built from their trimmed leftmost captures (no emptiness check follows
   * the trim).
   */
  lemma ProcessFileSpec(path: string, content: string, fetch: string -> FetchOutcome)
    ensures ProcessFile(path, content, fetch).Some? <==>
      HasMarker(content, TitleOpening) && HasMarker(content, DescriptionOpening)
    ensures ProcessFile(path, content, fetch).Some? ==>
      exists v :: IsLeftmostCapture(content, TitleOpening, v) && ProcessFile(path, content, fetch).value.title == Trim(v)
    ensures ProcessFile(path, content, fetch).Some? ==>
      exists v :: IsLeftmostCapture(content, DescriptionOpening, v) && ProcessFile(path, content, fetch).value.description == Trim(v)
  {
    LeftmostCaptureSpec(content, TitleOpening);
    LeftmostCaptureSpec(content, DescriptionOpening);
    var titleMatch := LeftmostCapture(content, TitleOpening);
    var descriptionMatch := LeftmostCapture(content, DescriptionOpening);
    if titleMatch.Some? && descriptionMatch.Some? {
      assert IsLeftmostCapture(content, TitleOpening, titleMatch.value);
      assert IsLeftmostCapture(content, DescriptionOpening, descriptionMatch.value);
    }
  }

  /** The leftmost match is unique, and it is the one the extractor takes. */
  lemma LeftmostCaptureUnique(content: string, opening: string, v: string)
    requires IsLeftmostCapture(content, opening, v)
    ensures LeftmostCapture(content, opening) == Some(v)
  {
    var p :| MatchesAt(content, opening, p, v) && NoMatchIn(content, opening, 0, p);
    LeftmostCaptureSpec(content, opening);
    var w := LeftmostCapture(content, opening).value;
    var q :| MatchesAt(content, opening, q, w) && NoMatchIn(content, opening, 0, q);
    assert p == q;
    MatchAtSpec(content, opening, p);
  }

  /**
   * Given the leftmost captures of both markers, the record is built from
   * their trimmed text and nothing rejects a blank one: a capture made only
   * of whitespace gives an empty title or description.
   */
  lemma ProcessFileFields(path: string, content: string, fetch: string -> FetchOutcome, v: string, w: string)
    requires IsLeftmostCapture(content, TitleOpening, v)
    requires IsLeftmostCapture(content, DescriptionOpening, w)
    ensures ProcessFile(path, content, fetch) ==
      Some(Record(Trim(v), HnetUrl(path), HttpsUrl(path), Trim(w), FetchFavicon(fetch, Domain(path))))
    ensures ProcessFile(path, content, fetch).value.title == "" <==> forall i :: 0 <= i < |v| ==> IsSpace(v[i])
    ensures ProcessFile(path, content, fetch).value.description == "" <==> forall i :: 0 <= i < |w| ==> IsSpace(w[i])
  {
    LeftmostCaptureUnique(content, TitleOpening, v);
    LeftmostCaptureUnique(content, DescriptionOpening, w);
    TrimEmptyIff(v);
    TrimEmptyIff(w);
  }

  /**
   * A record's URLs are the page path under the two schemes, with one
   * leading slash dropped; its favicon is the fetched icon's object URL
   * when the response is ok, and the default icon otherwise.
   */
  lemma ProcessFileUrls(path: string, content: string, fetch: string -> FetchOutcome)
    requires ProcessFile(path, content, fetch).Some?
    ensures IsPrefix("/", path) ==>
      && ProcessFile(path, content, fetch).value.url == HnetScheme + path[1..]
      && ProcessFile(path, content, fetch).value.httpsUrl == HttpsScheme + path[1..]
    ensures !IsPrefix("/", path) ==>
      && ProcessFile(path, content, fetch).value.url == HnetScheme + path
      && ProcessFile(path, content, fetch).value.httpsUrl == HttpsScheme + path
    ensures fetch(Domain(path) + FaviconFile).Response? && fetch(Domain(path) + FaviconFile).ok ==>
      ProcessFile(path, content, fetch).value.favicon == fetch(Domain(path) + FaviconFile).objectUrl
    ensures !(fetch(Domain(path) + FaviconFile).Response? && fetch(Domain(path) + FaviconFile).ok) ==>
      ProcessFile(path, content, fetch).value.favicon == DefaultFavicon
  {
    if IsPrefix("/", path) {
      assert path[0] == "/"[0];
    }
  }

  /**
   * For a path that starts with `/` (every path the walker produces), the
   * two URLs are the path after that slash under their schemes, and the
   * domain is the longest prefix of the https URL that keeps the whole
   * scheme and stops before the next slash.
   */
  lemma UrlDerivation(path: string)
    requires path != [] && path[0] == '/'
    ensures HnetUrl(path) == HnetScheme + path[1..]
    ensures HttpsUrl(path) == HttpsScheme + path[1..]
    ensures IsPrefix(HttpsScheme, Domain(path))
    ensures IsPrefix(Domain(path), HttpsUrl(path))
    ensures forall i :: |HttpsScheme| <= i < |Domain(path)| ==> Domain(path)[i] != '/'
    ensures |Domain(path)| < |HttpsUrl(path)| ==> HttpsUrl(path)[|Domain(path)|] == '/'
  {
    var u := UrlPath(path);
    var f := FirstSegment(u);
    FirstSegmentSpec(u);
    assert HttpsUrl(path)[..|Domain(path)|] == HttpsScheme + u[..|f|];
    forall i | |HttpsScheme| <= i < |Domain(path)| ensures Domain(path)[i] != '/' {
      assert Domain(path)[i] == f[i - |HttpsScheme|];
    }
    if |Domain(path)| < |HttpsUrl(path)| {
      assert HttpsUrl(path)[|Domain(path)|] == u[|f|];
    }
  }

  /**
   * The domain clauses of `UrlDerivation` leave no choice: any string that
   * keeps the whole scheme, is a prefix of the https URL, has no `/` after
   * the scheme and is followed by `/` or the end is the domain.
   */
  lemma DomainDetermined(path: string, d: string)
    requires path != [] && path[0] == '/'
    requires IsPrefix(HttpsScheme, d) && IsPrefix(d, HttpsUrl(path))
    requires forall i :: |HttpsScheme| <= i < |d| ==> d[i] != '/'
    requires |d| < |HttpsUrl(path)| ==> HttpsUrl(path)[|d|] == '/'
    ensures d == Domain(path)
  {
    UrlDerivation(path);
    var h := HttpsUrl(path);
    var e := Domain(path);
    assert d == h[..|d|] && e == h[..|e|];
  }

  /** Distinct walker paths give distinct store keys: the key determines the path. */
  lemma HnetUrlInjective(p1: string, p2: string)
    requires p1 != [] && p1[0] == '/' && p2 != [] && p2[0] == '/'
    requires HnetUrl(p1) == HnetUrl(p2)
    ensures p1 == p2
  {
    UrlDerivation(p1);
    UrlDerivation(p2);
    assert p1[1..] == HnetUrl(p1)[|HnetScheme|..];
    assert p2[1..] == HnetUrl(p2)[|HnetScheme|..];
    assert p1 == p1[..1] + p1[1..];
    assert p2 == p2[..1] + p2[1..];
  }

  /**
   * A failed or unsuccessful favicon request never drops a record: whether
   * a record is built, and every field but `favicon`, do not depend on the
   * fetch at all, and a failure gives the default icon.
   */
  lemma FaviconNeverDropsRecord(path: string, content: string, fetch: string -> FetchOutcome, other: string -> FetchOutcome)
    ensures ProcessFile(path, content, fetch).Some? == ProcessFile(path, content, other).Some?
    ensures ProcessFile(path, content, fetch).Some? ==>
      ProcessFile(path, content, fetch).value.(favicon := "") == ProcessFile(path, content, other).value.(favicon := "")
    ensures ProcessFile(path, content, fetch).Some? && !fetch(Domain(path) + FaviconFile).Response? ==>
      ProcessFile(path, content, fetch).value.favicon == DefaultFavicon
    ensures ProcessFile(path, content, fetch).Some? && fetch(Domain(path) + FaviconFile).Response? && !fetch(Domain(path) + FaviconFile).ok ==>
      ProcessFile(path, content, fetch).value.favicon == DefaultFavicon
  {
  }
}
