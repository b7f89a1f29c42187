/** The world-map routes: the cached list of open-world clusters, the name
    search over it, the direct image URL of a cluster, and the checks the
    image proxy makes on what the upstream CDN sends back. */
module AlbionMaps {
  import opened Strings
  import opened Marks
  import GameMaps

  /** The albiononline2d CDN the image proxy fetches from. */
  const CdnBase: string := "https://cdn.albiononline2d.com/game-images"

  /** Results returned by one search at most. */
  const SearchLimit: nat := 100

  /** One entry of the game's world list. */
  datatype WorldEntry = WorldEntry(index: string, uniqueName: string)

  predicate IsDigit(c: char) {
    '0' <= c <= '9'
  }

  /** `/^\d{4}$/`: exactly four ASCII digits. */
  predicate IsClusterIndex(index: string) {
    |index| == 4 && forall i :: 0 <= i < 4 ==> IsDigit(index[i])
  }

  /** The entries whose index is a cluster index, in their original order. */
  function KeepClusters(entries: seq<WorldEntry>): (r: seq<WorldEntry>)
    ensures |r| <= |entries|
    ensures forall e :: e in r <==> e in entries && IsClusterIndex(e.index)
  {
    if entries == [] then []
    else (if IsClusterIndex(entries[0].index) then [entries[0]] else []) + KeepClusters(entries[1..])
  }

  /** Filtering distributes over concatenation, so relative order is kept. */
  lemma {:induction false} KeepClustersAppend(a: seq<WorldEntry>, b: seq<WorldEntry>)
    ensures KeepClusters(a + b) == KeepClusters(a) + KeepClusters(b)
  {
    if a != [] {
      assert (a + b)[1..] == a[1..] + b;
      KeepClustersAppend(a[1..], b);
    } else {
      assert a + b == b;
    }
  }

  /** Filtering twice is filtering once. */
  lemma {:induction false} KeepClustersIdempotent(entries: seq<WorldEntry>)
    ensures KeepClusters(KeepClusters(entries)) == KeepClusters(entries)
  {
    if entries != [] {
      var head := if IsClusterIndex(entries[0].index) then [entries[0]] else [];
      KeepClustersIdempotent(entries[1..]);
      KeepClustersAppend(head, KeepClusters(entries[1..]));
      if head != [] {
        assert head[1..] == [];
      }
    }
  }

  lemma ClusterIndexExamples()
    ensures IsClusterIndex("0312")
    ensures !IsClusterIndex("312") && !IsClusterIndex("03120") && !IsClusterIndex("03a2")
  {
    assert !IsDigit("03a2"[2]);
  }

  /** A world list with an island entry keeps only the two clusters. */
  lemma KeepClustersExample()
    ensures KeepClusters([WorldEntry("0001", "A"), WorldEntry("@ISLAND", "B"), WorldEntry("4000", "C")])
            == [WorldEntry("0001", "A"), WorldEntry("4000", "C")]
  {
    var a, b, c := WorldEntry("0001", "A"), WorldEntry("@ISLAND", "B"), WorldEntry("4000", "C");
    assert IsClusterIndex(a.index) && IsClusterIndex(c.index) && !IsClusterIndex(b.index);
    assert KeepClusters([c]) == [c] by { assert [c][1..] == []; }
    assert KeepClusters([b, c]) == [c] by { assert [b, c][1..] == [c]; }
    assert [a, b, c][1..] == [b, c];
  }

  /** The process-wide world list cache: empty until the first successful
      download, then the filtered list for the rest of the process. */
  class WorldMapCache {
    var cached: Option<seq<WorldEntry>>

    constructor ()
      ensures cached == None
    {
      cached := None;
    }

    /** `fetchWorldMaps`, with the download's outcome passed in (`None` when
        the request or the JSON parse fails). A set cache is returned as it is
        and the download is not used; otherwise a successful download is
        filtered to cluster entries and stored; a failed one leaves the cache
        unset and reports the failure. */
    method FetchWorldMaps(download: Option<seq<WorldEntry>>) returns (maps: Option<seq<WorldEntry>>)
      modifies this
      ensures old(cached).Some? ==> maps == old(cached) && cached == old(cached)
      ensures old(cached).None? && download.Some? ==> maps == Some(KeepClusters(download.value)) && cached == maps
      ensures old(cached).None? && download.None? ==> maps.None? && cached.None?
    {
      if cached.Some? {
        return cached;
      }
      if download.None? {
        return None;
      }
      cached := Some(KeepClusters(download.value));
      maps := cached;
    }
  }

  /** A search hit as the route answers it. */
  datatype MapResult = MapResult(index: string, name: string, imageUrl: Option<string>, mapPageUrl: string)

  /** `getDirectImageUrl`: the Albion Free Market CDN file of a cluster, or
      none when the cluster has no (or an empty) file name. */
  function DirectImageUrl(afmFileNames: map<string, string>, index: string): (url: Option<string>)
    ensures url.None? <==> index !in afmFileNames || afmFileNames[index] == ""
    ensures url.Some? ==>
      && GameMaps.AfmCdnBase + "/" <= url.value
      && url.value[|GameMaps.AfmCdnBase| + 1..] == afmFileNames[index]
  {
    if index !in afmFileNames || afmFileNames[index] == "" then None
    else Some(GameMaps.AfmCdnBase + "/" + afmFileNames[index])
  }

  /** The search key: the trimmed, lower-cased `q`, or `""` when `q` is not
      a string. It is empty exactly when there is nothing to search for. */
  function SearchKey(q: Option<string>): (key: string)
    ensures q.None? ==> key == ""
    ensures q.Some? ==> key == ToLower(Trim(q.value))
    ensures key == [] <==> q.None? || AllWhitespace(q.value)
    ensures forall i :: 0 <= i < |key| ==> !IsAsciiUpper(key[i])
  {
    match q
    case None => ""
    case Some(s) => ToLower(Trim(s))
  }

  /** The entries whose lower-cased name contains `key`, in order. */
  function NameMatches(maps: seq<WorldEntry>, key: string): (r: seq<WorldEntry>)
    ensures |r| <= |maps|
    ensures forall k :: 0 <= k < |r| ==> r[k] in maps && Contains(ToLower(r[k].uniqueName), key)
    ensures forall e :: e in maps && Contains(ToLower(e.uniqueName), key) ==> e in r
  {
    if maps == [] then []
    else (if Contains(ToLower(maps[0].uniqueName), key) then [maps[0]] else []) + NameMatches(maps[1..], key)
  }

  /** Filtering distributes over concatenation: the matches keep the list's
      order and its repeated entries. */
  lemma {:induction false} NameMatchesAppend(a: seq<WorldEntry>, b: seq<WorldEntry>, key: string)
    ensures NameMatches(a + b, key) == NameMatches(a, key) + NameMatches(b, key)
  {
    if a != [] {
      assert (a + b)[1..] == a[1..] + b;
      NameMatchesAppend(a[1..], b, key);
    } else {
      assert a + b == b;
    }
  }

  /** A single entry is kept exactly when its lower-cased name contains the
      key. */
  lemma NameMatchesSingle(e: WorldEntry, key: string)
    ensures NameMatches([e], key) == if Contains(ToLower(e.uniqueName), key) then [e] else []
  {
    assert [e][1..] == [];
  }

  /** The empty key is contained in every name, so the route's "no query,
      keep everything" branch agrees with filtering by the empty key. */
  lemma {:induction false} EmptyKeyMatchesAll(maps: seq<WorldEntry>)
    ensures NameMatches(maps, "") == maps
  {
    if maps != [] {
      ContainsEmpty(ToLower(maps[0].uniqueName));
      EmptyKeyMatchesAll(maps[1..]);
    }
  }

  function Min(a: nat, b: nat): nat {
    if a <= b then a else b
  }

  function ToResult(e: WorldEntry, afmFileNames: map<string, string>): (r: MapResult)
    ensures r.index == e.index && r.name == e.uniqueName
    ensures r.imageUrl == DirectImageUrl(afmFileNames, e.index)
    ensures r.imageUrl.None? <==> e.index !in afmFileNames || afmFileNames[e.index] == ""
    ensures r.imageUrl.Some? ==> GameMaps.AfmCdnBase + "/" <= r.imageUrl.value
    ensures r.mapPageUrl == GameMaps.MapPageUrl(e.index)
  {
    MapResult(e.index, e.uniqueName, DirectImageUrl(afmFileNames, e.index), GameMaps.MapPageUrl(e.index))
  }

  /** `GET /`: the first `SearchLimit` entries whose name contains the search
      key (all entries when the key is empty), in list order, each with its
      direct image URL and page URL. */
  function SearchWorldMaps(maps: seq<WorldEntry>, q: Option<string>, afmFileNames: map<string, string>)
    : (results: seq<MapResult>)
    ensures |results| == Min(SearchLimit, |NameMatches(maps, SearchKey(q))|)
    ensures forall k :: 0 <= k < |results| ==>
      results[k] == ToResult(NameMatches(maps, SearchKey(q))[k], afmFileNames)
  {
    var key := SearchKey(q);
    var filtered := if key != [] then NameMatches(maps, key) else maps;
    FilterBranch(maps, key);
    FirstResults(filtered, afmFileNames)
  }

  /** `filtered.slice(0, 100).map(...)`: the results of the first entries. */
  function FirstResults(filtered: seq<WorldEntry>, afmFileNames: map<string, string>): (results: seq<MapResult>)
    ensures |results| == Min(SearchLimit, |filtered|)
    ensures forall k :: 0 <= k < |results| ==> results[k] == ToResult(filtered[k], afmFileNames)
  {
    var top := filtered[..Min(SearchLimit, |filtered|)];
    seq(|top|, k requires 0 <= k < |top| => ToResult(top[k], afmFileNames))
  }

  /** The route's `q ? filter : maps` is the filter in both branches. */
  lemma FilterBranch(maps: seq<WorldEntry>, key: string)
    ensures (if key != [] then NameMatches(maps, key) else maps) == NameMatches(maps, key)
  {
    if key == [] {
      EmptyKeyMatchesAll(maps);
    }
  }

  /** Every result's name contains the key; and when fewer than the limit
      came back, every matching entry is among them. */
  lemma SearchSoundAndComplete(maps: seq<WorldEntry>, q: Option<string>, afmFileNames: map<string, string>)
    ensures forall k :: 0 <= k < |SearchWorldMaps(maps, q, afmFileNames)| ==>
      Contains(ToLower(SearchWorldMaps(maps, q, afmFileNames)[k].name), SearchKey(q))
    ensures |SearchWorldMaps(maps, q, afmFileNames)| < SearchLimit ==>
      forall e :: e in maps && Contains(ToLower(e.uniqueName), SearchKey(q)) ==>
        ToResult(e, afmFileNames) in SearchWorldMaps(maps, q, afmFileNames)
  {
    var results := SearchWorldMaps(maps, q, afmFileNames);
    var key := SearchKey(q);
    var matches := NameMatches(maps, key);
    forall k | 0 <= k < |results|
      ensures Contains(ToLower(results[k].name), key)
    {
      assert results[k] == ToResult(matches[k], afmFileNames);
      assert Contains(ToLower(matches[k].uniqueName), key);
    }
    if |results| < SearchLimit {
      forall e | e in maps && Contains(ToLower(e.uniqueName), key)
        ensures ToResult(e, afmFileNames) in results
      {
        var k :| 0 <= k < |matches| && matches[k] == e;
        assert results[k] == ToResult(e, afmFileNames);
      }
    }
  }

  /** The body of an upstream reply as the proxy sees it. */
  datatype Upstream = Upstream(status: int, contentType: Option<string>, body: seq<bv8>)

  /** Why the proxy answers 502. */
  datatype Failure =
    | UpstreamStatus(status: int)   // the CDN answered with a non-2xx status
    | NotPng                        // the content type is SVG or not an image
    | PlaceholderSvg                // the body starts with `<svg`
    | ProxyError                    // the request itself failed

  datatype ProxyReply =
    | NotFound                              // 404: no file name for this cluster
    | BadGateway(reason: Failure)           // 502
    | Image(contentType: string, body: seq<bv8>)  // 200, cacheable for a day

  predicate NoSemicolon(s: string) {
    forall i :: 0 <= i < |s| ==> s[i] != ';'
  }

  /** `s.split(';')[0]`: the text before the first `;`. */
  function BeforeSemicolon(s: string): (r: string)
    ensures r <= s && NoSemicolon(r)
    ensures |r| < |s| ==> s[|r|] == ';'
  {
    if s == [] || s[0] == ';' then []
    else [s[0]] + BeforeSemicolon(s[1..])
  }

  /** The text before the first `;` is everything up to the first `;`, and
      all of `s` when there is none. */
  lemma {:induction false} BeforeSemicolonAt(s: string, n: nat)
    requires n <= |s| && NoSemicolon(s[..n]) && (n < |s| ==> s[n] == ';')
    ensures BeforeSemicolon(s) == s[..n]
    decreases n
  {
    if n > 0 {
      assert s[..n][0] == s[0];
      assert s[1..][..n - 1] == s[..n][1..];
      BeforeSemicolonAt(s[1..], n - 1);
      assert s[..n] == [s[0]] + s[1..][..n - 1];
    }
  }

  /** The media type of a `Content-Type` header, without parameters,
      trimmed and lower-cased; `""` when the header is absent. */
  function NormalizeContentType(header: Option<string>): (ct: string)
    ensures header.None? ==> ct == ""
    ensures header.Some? ==> ct == ToLower(Trim(BeforeSemicolon(header.value)))
    ensures NoSemicolon(ct)
    ensures forall i :: 0 <= i < |ct| ==> !IsAsciiUpper(ct[i])
    ensures ct == [] || (!IsWhitespace(ct[0]) && !IsWhitespace(ct[|ct| - 1]))
  {
    var raw := match header case None => "" case Some(h) => h;
    LowerTrimmedMediaType(BeforeSemicolon(raw));
    ToLower(Trim(BeforeSemicolon(raw)))
  }

  /** Trimming and lower-casing a text without `;` leaves it without `;`
      and without whitespace at either end. */
  lemma LowerTrimmedMediaType(s: string)
    requires NoSemicolon(s)
    ensures NoSemicolon(ToLower(Trim(s)))
    ensures ToLower(Trim(s)) == [] || (!IsWhitespace(ToLower(Trim(s))[0]) && !IsWhitespace(ToLower(Trim(s))[|Trim(s)| - 1]))
  {
    var t := Trim(s);
    var ct := ToLower(t);
    var start := |s| - |TrimStart(s)|;
    forall i | 0 <= i < |t| ensures ct[i] != ';' {
      assert t[i] == s[start + i];
    }
    if t != [] {
      assert IsWhitespace(ct[0]) == IsWhitespace(t[0]);
      assert IsWhitespace(ct[|t| - 1]) == IsWhitespace(t[|t| - 1]);
    }
  }

  /** Normalising an already normalised content type changes nothing. */
  lemma NormalizeIdempotent(header: Option<string>)
    ensures NormalizeContentType(Some(NormalizeContentType(header))) == NormalizeContentType(header)
  {
    var ct := NormalizeContentType(header);
    BeforeSemicolonOfNoSemicolon(ct);
    TrimOfTrimmed(ct);
    ToLowerOfLower(ct);
  }

  lemma BeforeSemicolonOfNoSemicolon(s: string)
    requires NoSemicolon(s)
    ensures BeforeSemicolon(s) == s
  {
    BeforeSemicolonAt(s, |s|);
    assert s[..|s|] == s;
  }

  lemma ToLowerOfLower(s: string)
    requires forall i :: 0 <= i < |s| ==> !IsAsciiUpper(s[i])
    ensures ToLower(s) == s
  {
  }

  /** The media types the proxy passes on: `image/…`, except SVG. */
  predicate AcceptableImageType(ct: string) {
    ct != "image/svg+xml" && "image/" <= ct
  }

  /** `bytes.length >= 5` and the first four bytes are `<svg`. */
  predicate IsSvgPlaceholder(body: seq<bv8>) {
    |body| >= 5 && body[0] == 0x3c && body[1] == 0x73 && body[2] == 0x76 && body[3] == 0x67
  }

  lemma PlaceholderExamples()
    ensures IsSvgPlaceholder([0x3c, 0x73, 0x76, 0x67, 0x20])
    ensures !IsSvgPlaceholder([0x3c, 0x73, 0x76, 0x67])
    ensures !IsSvgPlaceholder([0x89, 0x50, 0x4e, 0x47, 0x0d, 0x0a, 0x1a, 0x0a])
    ensures AcceptableImageType("image/png") && AcceptableImageType("image/webp")
    ensures !AcceptableImageType("image/svg+xml") && !AcceptableImageType("text/html") && !AcceptableImageType("")
  {
    assert "text/html"[0] != "image/"[0];
  }

  /** Parameters and case do not matter: `Image/PNG; charset=binary` is
      `image/png`. */
  lemma NormalizeExample()
    ensures NormalizeContentType(Some("Image/PNG; charset=binary")) == "image/png"
  {
    MediaExample();
    TrimExample();
    LowerExample();
  }

  lemma MediaExample()
    ensures BeforeSemicolon("Image/PNG; charset=binary") == "Image/PNG"
  {
    var h := "Image/PNG; charset=binary";
    assert h[..9] == "Image/PNG";
    BeforeSemicolonAt(h, 9);
  }

  lemma TrimExample()
    ensures Trim("Image/PNG") == "Image/PNG"
  {
    var media := "Image/PNG";
    assert !IsWhitespace(media[0]) && !IsWhitespace(media[|media| - 1]);
    TrimOfTrimmed(media);
  }

  lemma LowerExample()
    ensures ToLower("Image/PNG") == "image/png"
  {
    var r := ToLower("Image/PNG");
    forall i | 0 <= i < 9 ensures r[i] == "image/png"[i] { }
  }

  /** What the proxy answers for the outcome of its one upstream request. */
  function Respond(upstream: Option<Upstream>): (reply: ProxyReply)
    ensures reply != NotFound
    ensures upstream.None? <==> reply == BadGateway(ProxyError)
    ensures reply.Image? <==>
      && upstream.Some? && 200 <= upstream.value.status < 300
      && AcceptableImageType(NormalizeContentType(upstream.value.contentType))
      && !IsSvgPlaceholder(upstream.value.body)
    ensures reply.Image? ==>
      && reply.body == upstream.value.body
      && reply.contentType == NormalizeContentType(upstream.value.contentType)
    ensures upstream.Some? && !(200 <= upstream.value.status < 300) ==>
      reply == BadGateway(UpstreamStatus(upstream.value.status))
    ensures upstream.Some? && 200 <= upstream.value.status < 300
            && !AcceptableImageType(NormalizeContentType(upstream.value.contentType)) ==>
      reply == BadGateway(NotPng)
    ensures upstream.Some? && 200 <= upstream.value.status < 300
            && AcceptableImageType(NormalizeContentType(upstream.value.contentType))
            && IsSvgPlaceholder(upstream.value.body) ==>
      reply == BadGateway(PlaceholderSvg)
  {
    match upstream
    case None => BadGateway(ProxyError)
    case Some(u) =>
      if !(200 <= u.status < 300) then BadGateway(UpstreamStatus(u.status))
      else
        var ct := NormalizeContentType(u.contentType);
        if ct == "image/svg+xml" || !("image/" <= ct) then BadGateway(NotPng)
        else if IsSvgPlaceholder(u.body) then BadGateway(PlaceholderSvg)
        else Image(if ct != [] then ct else "image/png", u.body)
  }

  /** The `'image/png'` fallback for a missing content type is never used:
      a reply that gets through always carries the upstream's own image
      type, and never SVG. */
  lemma ImageReplyType(upstream: Option<Upstream>)
    ensures Respond(upstream).Image? ==>
      "image/" <= Respond(upstream).contentType && Respond(upstream).contentType != "image/svg+xml"
  {
  }

  /** `GET /image/:index`: a cluster without a file name answers 404 and
      `fetch` is never consulted; otherwise the answer depends only on what
      the file's CDN URL returns. */
  function ProxyImage(fileNames: map<string, string>, index: string, fetch: string -> Option<Upstream>)
    : (reply: ProxyReply)
    ensures reply == NotFound <==> index !in fileNames || fileNames[index] == ""
    ensures index in fileNames && fileNames[index] != "" ==>
      reply == Respond(fetch(CdnBase + "/" + fileNames[index]))
  {
    if index !in fileNames || fileNames[index] == "" then NotFound
    else Respond(fetch(CdnBase + "/" + fileNames[index]))
  }

  /** Two fetchers that agree on the mapped URL give the same answer, and an
      unmapped cluster gets the same 404 whatever the fetcher would do. */
  lemma ProxyDependsOnlyOnMappedUrl(fileNames: map<string, string>, index: string,
                                    f: string -> Option<Upstream>, g: string -> Option<Upstream>)
    requires index in fileNames && fileNames[index] != "" ==>
      f(CdnBase + "/" + fileNames[index]) == g(CdnBase + "/" + fileNames[index])
    ensures ProxyImage(fileNames, index, f) == ProxyImage(fileNames, index, g)
  {
  }
}
