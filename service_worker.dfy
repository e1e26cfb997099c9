/** The offline service worker of `src/service-worker.js`: which requests it
    answers, the cache of static assets it fills at install time, the old
    caches it deletes at activation, and the network-first fallback to its
    offline cache.

    URLs come already parsed into the fields the worker reads (as the WHATWG
    URL Standard, section 4, defines them). The browser's cache storage is the
    class `CacheStorage`, a map from cache names to caches, each a map from
    request URL to stored response. Network outcomes are inputs. */
module ServiceWorker {
  import opened JsCore
  import opened JsString

  // ---------------------------------------------------------------------------
  // Requests and responses
  // ---------------------------------------------------------------------------

  /** A parsed URL: `href` is the whole serialisation, `host` is `hostname`
      followed by `:` and the port when there is one. */
  datatype Url = Url(href: string, protocol: string, hostname: string, port: string, host: string, pathname: string)

  /** A request: its method, the (lower-case) names of its headers, its URL
      and its cache mode. */
  datatype Request = Request(httpMethod: string, headerNames: set<string>, url: Url, cacheMode: string)

  datatype Response = Response(status: int, body: string)

  /** How `fetch(request)` settles: with a response (whatever its status), or
      rejected with a network error. */
  datatype NetResult = Fetched(response: Response) | NetworkError(error: string)

  /** What the fetch handler does with an event: leave it to the browser,
      answer with a response, or answer with a rejected promise. */
  datatype Handling = Passthrough | Respond(response: Response) | Reject(error: string)

  // ---------------------------------------------------------------------------
  // Which requests the worker answers
  // ---------------------------------------------------------------------------

  /** `new Set(build.concat(files))`. */
  function StaticAssetSet(build: seq<string>, files: seq<string>): (s: set<string>)
    ensures forall p :: p in s <==> p in build || p in files
  {
    set p | p in build + files
  }

  /** `url.host === self.location.host && staticAssets.has(url.pathname)`. */
  predicate IsStaticAsset(url: Url, self: Url, assets: set<string>) {
    url.host == self.host && url.pathname in assets
  }

  /** `url.hostname === self.location.hostname && url.port !== self.location.port`. */
  predicate IsDevServerRequest(url: Url, self: Url) {
    url.hostname == self.hostname && url.port != self.port
  }

  /** The fetch handler's decision to answer a request. Anything but a GET
      without a `range` header is left alone at once; then only http(s) URLs
      are answered, never a request to the dev server, and an
      `only-if-cached` request only when it is for a static asset. */
  function Intercepts(req: Request, self: Url, assets: set<string>): (r: bool)
    ensures req.httpMethod != "GET" ==> !r
    ensures "range" in req.headerNames ==> !r
  {
    if req.httpMethod != "GET" || "range" in req.headerNames then false
    else
      var isHttp := StartsWith(req.url.protocol, "http");
      var skipBecauseUncached := req.cacheMode == "only-if-cached" && !IsStaticAsset(req.url, self, assets);
      isHttp && !IsDevServerRequest(req.url, self) && !skipBecauseUncached
  }

  /** A port as URLs serialise it: decimal digits. */
  predicate IsPort(p: string) {
    AllDigits(p)
  }

  /** A hostname holds a colon only when it is a bracketed IPv6 address,
      which ends with `]`. */
  predicate IsHostname(h: string) {
    ':' !in h || (h != [] && h[|h| - 1] == ']')
  }

  /** The URL's `host` is its hostname, then `:` and the port if it has one. */
  predicate WellFormedHost(u: Url) {
    IsHostname(u.hostname) && IsPort(u.port)
    && u.host == u.hostname + (if u.port == "" then "" else ":" + u.port)
  }

  /** The index of the last occurrence of `c`, if any (`lastIndexOf`). */
  function LastIndexOf(s: string, c: char): (k: Option<nat>)
    ensures k.Some? ==> k.value < |s| && s[k.value] == c && c !in s[k.value + 1..]
    ensures k.None? ==> c !in s
  {
    if s == [] then None
    else if s[|s| - 1] == c then Some(|s| - 1)
    else
      var k := LastIndexOf(s[..|s| - 1], c);
      if k.Some? then
        assert s[k.value + 1..] == s[..|s| - 1][k.value + 1..] + [s[|s| - 1]];
        k
      else
        assert s == s[..|s| - 1] + [s[|s| - 1]];
        k
  }

  /** An occurrence of `c` with no other after it is the last one. */
  lemma {:induction false} LastIndexOfIs(s: string, c: char, k: nat)
    requires k < |s| && s[k] == c && c !in s[k + 1..]
    ensures LastIndexOf(s, c) == Some(k)
    decreases |s|
  {
    if k < |s| - 1 {
      assert s[|s| - 1] in s[k + 1..];
      var p := s[..|s| - 1];
      assert p[k + 1..] == s[k + 1..|s| - 1];
      LastIndexOfIs(p, c, k);
    }
  }

  /** A host read back into hostname and port: the digits after the last
      colon are the port, when there are any; otherwise it is all hostname. */
  function SplitHost(host: string): (string, string) {
    match LastIndexOf(host, ':')
    case Some(k) =>
      if k + 1 < |host| && AllDigits(host[k + 1..]) then (host[..k], host[k + 1..]) else (host, "")
    case None => (host, "")
  }

  /** The host of a well-formed URL splits back into its hostname and port. */
  lemma HostParts(u: Url)
    requires WellFormedHost(u)
    ensures SplitHost(u.host) == (u.hostname, u.port)
  {
    var h := u.host;
    var n := |u.hostname|;
    if u.port == "" {
      assert h == u.hostname;
      var k := LastIndexOf(h, ':');
      if k.Some? {
        assert h[|h| - 1] == ']';
        assert k.value != |h| - 1;
        assert h[k.value + 1..][|h| - 1 - (k.value + 1)] == ']';
      }
    } else {
      assert h[n] == ':';
      assert h[n + 1..] == u.port;
      assert h[..n] == u.hostname;
      LastIndexOfIs(h, ':', n);
    }
  }

  /** Two well-formed URLs with the same host have the same hostname and the
      same port. */
  lemma SameHostSameParts(u: Url, v: Url)
    requires WellFormedHost(u) && WellFormedHost(v) && u.host == v.host
    ensures u.hostname == v.hostname && u.port == v.port
  {
    HostParts(u);
    HostParts(v);
  }

  /** A request for one of the worker's own static assets is never taken for a
      dev-server request, so a GET of a static asset over http(s) without a
      `range` header is always answered, whatever its cache mode. */
  lemma StaticAssetsAreIntercepted(req: Request, self: Url, assets: set<string>)
    requires WellFormedHost(req.url) && WellFormedHost(self)
    requires req.httpMethod == "GET" && "range" !in req.headerNames
    requires StartsWith(req.url.protocol, "http")
    requires IsStaticAsset(req.url, self, assets)
    ensures Intercepts(req, self, assets)
  {
    SameHostSameParts(req.url, self);
  }

  /** The decision in one formula: a GET without a `range` header, over
      http(s), not to the dev server, and not an `only-if-cached` request for
      something other than a static asset. */
  lemma InterceptsExactly(req: Request, self: Url, assets: set<string>)
    ensures Intercepts(req, self, assets) <==>
              req.httpMethod == "GET" && "range" !in req.headerNames
              && StartsWith(req.url.protocol, "http")
              && !IsDevServerRequest(req.url, self)
              && (req.cacheMode == "only-if-cached" ==> IsStaticAsset(req.url, self, assets))
  {
  }

  // ---------------------------------------------------------------------------
  // Cache storage
  // ---------------------------------------------------------------------------

  predicate NoDuplicates(s: seq<string>) {
    forall i, j :: 0 <= i < j < |s| ==> s[i] != s[j]
  }

  /** `s` without the element `x`, in order. */
  function Without(s: seq<string>, x: string): (r: seq<string>)
    ensures forall y :: y in r <==> y in s && y != x
    ensures NoDuplicates(s) ==> NoDuplicates(r)
  {
    if s == [] then []
    else
      var rest := Without(s[1..], x);
      if s[0] == x then rest
      else
        HeadNotInTail(s);
        [s[0]] + rest
  }

  /** Removing a name keeps the others in their order: it removes from each
      part of a list separately. */
  lemma {:induction false} WithoutAppend(a: seq<string>, b: seq<string>, x: string)
    ensures Without(a + b, x) == Without(a, x) + Without(b, x)
  {
    if a != [] {
      assert (a + b)[0] == a[0];
      assert (a + b)[1..] == a[1..] + b;
      WithoutAppend(a[1..], b, x);
    } else {
      assert a + b == b;
    }
  }

  /** In a sequence without duplicates the first element does not come back,
      and the rest has no duplicates either. */
  lemma HeadNotInTail(s: seq<string>)
    requires s != []
    ensures NoDuplicates(s) ==> s[0] !in s[1..] && NoDuplicates(s[1..])
  {
    if NoDuplicates(s) {
      forall j | 0 <= j < |s[1..]|
        ensures s[1..][j] != s[0]
      {
        assert s[1..][j] == s[j + 1];
      }
    }
  }

  /** `caches.match(request)`: the response stored for `key` in the first
      cache, in creation order, that holds one. */
  function FirstMatch(names: seq<string>, stores: map<string, map<string, Response>>, key: string)
    : (r: Option<Response>)
    ensures r.Some? ==> exists i :: 0 <= i < |names| && names[i] in stores && key in stores[names[i]]
                                    && stores[names[i]][key] == r.value
                                    && forall j :: 0 <= j < i ==> !(names[j] in stores && key in stores[names[j]])
    ensures r.None? ==> forall n :: n in names && n in stores ==> key !in stores[n]
  {
    if names == [] then None
    else if names[0] in stores && key in stores[names[0]] then Some(stores[names[0]][key])
    else
      var r := FirstMatch(names[1..], stores, key);
      if r.Some? then
        var i :| 0 <= i < |names[1..]| && names[1..][i] in stores && key in stores[names[1..][i]]
                 && stores[names[1..][i]][key] == r.value
                 && forall j :: 0 <= j < i ==> !(names[1..][j] in stores && key in stores[names[1..][j]]);
        assert names[i + 1] == names[1..][i];
        assert forall j :: 1 <= j < i + 1 ==> names[j] == names[1..][j - 1];
        r
      else
        r
  }

  /** When two caches hold the same request, `caches.match` answers from the
      one created first. */
  lemma FirstCacheWins(a: string, b: string, key: string, ra: Response, rb: Response)
    requires a != b
    ensures FirstMatch([a, b], map[a := map[key := ra], b := map[key := rb]], key) == Some(ra)
  {
  }

  /** The stored entries of a cache, none if it does not exist. */
  function Entries(stores: map<string, map<string, Response>>, name: string): map<string, Response> {
    if name in stores then stores[name] else map[]
  }

  /** The browser's CacheStorage, `caches`. */
  class CacheStorage {
    /** The cache names in creation order, as `caches.keys()` lists them. */
    var names: seq<string>
    /** Each cache: the stored response for each request URL. */
    var stores: map<string, map<string, Response>>

    ghost predicate Valid()
      reads this
    {
      NoDuplicates(names) && forall n :: n in stores <==> n in names
    }

    constructor()
      ensures Valid() && names == [] && stores == map[]
    {
      names := [];
      stores := map[];
    }

    /** `caches.open(name)`: the named cache, created empty if it is new. */
    method Open(name: string)
      requires Valid()
      modifies this
      ensures Valid() && name in stores
      ensures name in old(stores) ==> names == old(names) && stores == old(stores)
      ensures name !in old(stores) ==> names == old(names) + [name] && stores == old(stores)[name := map[]]
    {
      if name !in stores {
        names := names + [name];
        stores := stores[name := map[]];
      }
    }

    /** `caches.delete(name)`: whether the cache existed; it exists no more. */
    method Delete(name: string) returns (found: bool)
      requires Valid()
      modifies this
      ensures Valid()
      ensures found == (name in old(stores))
      ensures stores == old(stores) - {name}
      ensures names == Without(old(names), name)
    {
      found := name in stores;
      names := Without(names, name);
      stores := stores - {name};
    }

    /** `cache.put(key, response)` on the named cache. */
    method Put(name: string, key: string, response: Response)
      requires Valid() && name in stores
      modifies this
      ensures Valid() && names == old(names)
      ensures stores == old(stores)[name := old(stores)[name][key := response]]
    {
      stores := stores[name := stores[name][key := response]];
    }

    /** The entries of `added` stored in the named cache at once, as a
      successful `cache.addAll` does. */
    method PutAll(name: string, added: map<string, Response>)
      requires Valid() && name in stores
      modifies this
      ensures Valid() && names == old(names)
      ensures stores == old(stores)[name := old(stores)[name] + added]
    {
      stores := stores[name := stores[name] + added];
    }

    /** `caches.match(key)`, across all caches. */
    function Match(key: string): (r: Option<Response>)
      reads this
      requires Valid()
      ensures r.Some? ==> exists i :: 0 <= i < |names| && key in stores[names[i]] && stores[names[i]][key] == r.value
                                      && forall j :: 0 <= j < i ==> key !in stores[names[j]]
      ensures r.None? ==> forall n :: n in stores ==> key !in stores[n]
    {
      var r := FirstMatch(names, stores, key);
      if r.Some? then
        var i :| 0 <= i < |names| && names[i] in stores && key in stores[names[i]] && stores[names[i]][key] == r.value
                 && forall j :: 0 <= j < i ==> !(names[j] in stores && key in stores[names[j]]);
        r
      else
        r
    }

    /** `cache.match(key)` on the named cache. */
    function MatchIn(name: string, key: string): (r: Option<Response>)
      reads this
      ensures r.Some? <==> name in stores && key in stores[name]
      ensures r.Some? ==> r.value == stores[name][key]
    {
      if name in stores && key in stores[name] then Some(stores[name][key]) else None
    }
  }

  // ---------------------------------------------------------------------------
  // fetchAndCache, as a function of the offline cache's entries
  // ---------------------------------------------------------------------------

  /** What `fetchAndCache` answers, given the offline cache's entries: the
      network response if there is one, else the stored response, else the
      network error again. */
  function FetchAndCacheAnswer(offline: map<string, Response>, key: string, net: NetResult): (h: Handling)
    ensures h != Passthrough
    ensures net.Fetched? ==> h == Respond(net.response)
    ensures net.NetworkError? && key in offline ==> h == Respond(offline[key])
    ensures net.NetworkError? && key !in offline ==> h == Reject(net.error)
  {
    match net
    case Fetched(response) => Respond(response)
    case NetworkError(error) => if key in offline then Respond(offline[key]) else Reject(error)
  }

  /** The offline cache's entries after `fetchAndCache`: a network response is
      stored under the request; a network error stores nothing. */
  function FetchAndCacheStore(offline: map<string, Response>, key: string, net: NetResult)
    : (m: map<string, Response>)
    ensures net.Fetched? ==> m == offline[key := net.response]
    ensures net.NetworkError? ==> m == offline
  {
    match net
    case Fetched(response) => offline[key := response]
    case NetworkError(_) => offline
  }

  /** What the offline cache is for: once a request has been fetched and
      stored, the same request answered while offline gets that response. */
  lemma OfflineFallbackAfterFetch(offline: map<string, Response>, key: string, response: Response, error: string)
    ensures var stored := FetchAndCacheStore(offline, key, Fetched(response));
            FetchAndCacheAnswer(stored, key, NetworkError(error)) == Respond(response)
  {
  }

  /** An offline request for something never fetched rejects with the
      network's own error. */
  lemma OfflineMissRethrows(offline: map<string, Response>, key: string, error: string)
    requires key !in offline
    ensures FetchAndCacheAnswer(offline, key, NetworkError(error)) == Reject(error)
    ensures FetchAndCacheStore(offline, key, NetworkError(error)) == offline
  {
  }

  // ---------------------------------------------------------------------------
  // Install-time precaching
  // ---------------------------------------------------------------------------

  /** A fetch that `cache.addAll` accepts: a response with an ok status that
      is not a partial response (206). */
  predicate FetchedOk(n: NetResult) {
    n.Fetched? && 200 <= n.response.status <= 299 && n.response.status != 206
  }

  predicate AllFetchedOk(urls: seq<string>, fetch: string -> NetResult) {
    forall i :: 0 <= i < |urls| ==> FetchedOk(fetch(urls[i]))
  }

  /** The entries `cache.addAll(urls)` stores when every fetch succeeded. */
  function Precached(urls: seq<string>, fetch: string -> NetResult): (m: map<string, Response>)
    requires AllFetchedOk(urls, fetch)
    ensures forall u :: u in m <==> u in urls
    ensures forall u :: u in m ==> m[u] == fetch(u).response
  {
    if urls == [] then map[]
    else
      var n := |urls| - 1;
      assert AllFetchedOk(urls[..n], fetch);
      assert forall u :: u in urls <==> u in urls[..n] || u == urls[n] by {
        assert urls == urls[..n] + [urls[n]];
      }
      Precached(urls[..n], fetch)[urls[n] := fetch(urls[n]).response]
  }

  /** One more URL: all fetches ok so far and this one too, and its entry
      added to those before. */
  lemma PrecacheStep(urls: seq<string>, fetch: string -> NetResult, i: nat)
    requires i < |urls|
    ensures AllFetchedOk(urls[..i + 1], fetch) <==> AllFetchedOk(urls[..i], fetch) && FetchedOk(fetch(urls[i]))
    ensures AllFetchedOk(urls[..i + 1], fetch) ==>
              Precached(urls[..i + 1], fetch) == Precached(urls[..i], fetch)[urls[i] := fetch(urls[i]).response]
  {
    var p := urls[..i + 1];
    assert p[..i] == urls[..i];
    assert p[i] == urls[i];
  }

  /** The fetches of `cache.addAll(urls)`, one URL after the other: whether
      all of them gave an ok response, and if so the entries to store. */
  method FetchAll(urls: seq<string>, fetch: string -> NetResult) returns (ok: bool, added: map<string, Response>)
    ensures ok == AllFetchedOk(urls, fetch)
    ensures ok ==> added == Precached(urls, fetch)
  {
    ok, added := true, map[];
    var i := 0;
    while i < |urls|
      invariant 0 <= i <= |urls|
      invariant ok == AllFetchedOk(urls[..i], fetch)
      invariant ok ==> added == Precached(urls[..i], fetch)
    {
      PrecacheStep(urls, fetch, i);
      var n := fetch(urls[i]);
      if FetchedOk(n) && ok {
        added := added[urls[i] := n.response];
      } else {
        ok := false;
      }
      i := i + 1;
    }
    assert urls[..|urls|] == urls;
  }

  // ---------------------------------------------------------------------------
  // The worker
  // ---------------------------------------------------------------------------

  class Worker {
    /** `version`, `build` and `files` as the framework provides them. */
    const version: string
    const build: seq<string>
    const files: seq<string>
    /** `self.location`. */
    const location: Url
    /** `caches`. */
    const storage: CacheStorage

    ghost predicate Valid()
      reads this, storage
    {
      storage.Valid()
    }

    constructor(version: string, build: seq<string>, files: seq<string>, location: Url)
      ensures Valid() && fresh(storage)
      ensures this.version == version && this.build == build && this.files == files
      ensures this.location == location
      ensures storage.names == [] && storage.stores == map[]
    {
      this.version := version;
      this.build := build;
      this.files := files;
      this.location := location;
      storage := new CacheStorage();
    }

    /** `ASSETS`, the name of the static-asset cache. */
    function Assets(): string {
      "cache" + version
    }

    /** The name of the offline cache that `fetchAndCache` fills. */
    function Offline(): string {
      "offline" + version
    }

    /** `staticAssets`. */
    function StaticAssets(): set<string> {
      StaticAssetSet(build, files)
    }

    /** The URL a path of `to_cache` resolves to against the worker's location. */
    function AssetUrl(path: string): string {
      location.protocol + "//" + location.host + path
    }

    /** The URLs `cache.addAll(to_cache)` fetches, in order. */
    function PrecacheUrls(): (urls: seq<string>)
      ensures |urls| == |build + files|
      ensures forall i :: 0 <= i < |urls| ==> urls[i] == AssetUrl((build + files)[i])
    {
      var toCache := build + files;
      seq(|toCache|, i requires 0 <= i < |toCache| => AssetUrl(toCache[i]))
    }

    /** The `install` handler: open `ASSETS` (creating it), then add every
      asset of `to_cache`, all or nothing. */
    method Install(fetch: string -> NetResult) returns (ok: bool)
      requires Valid()
      modifies storage
      ensures Valid() && Assets() in storage.stores
      ensures storage.names == if Assets() in old(storage.stores) then old(storage.names)
                               else old(storage.names) + [Assets()]
      ensures ok == AllFetchedOk(PrecacheUrls(), fetch)
      ensures ok ==> storage.stores == old(storage.stores)[Assets() :=
                       Entries(old(storage.stores), Assets()) + Precached(PrecacheUrls(), fetch)]
      ensures !ok ==> storage.stores == old(storage.stores)[Assets() := Entries(old(storage.stores), Assets())]
    {
      storage.Open(Assets());
      var added;
      ok, added := FetchAll(PrecacheUrls(), fetch);
      if ok {
        storage.PutAll(Assets(), added);
      }
    }

    /** The `activate` handler: every cache but `ASSETS` is deleted, one key
      after the other; `ASSETS` itself is left as it was. */
    method Activate()
      requires Valid()
      modifies storage
      ensures Valid()
      ensures storage.stores == if Assets() in old(storage.stores)
                                then map[Assets() := old(storage.stores)[Assets()]]
                                else map[]
      ensures storage.names == if Assets() in old(storage.stores) then [Assets()] else []
    {
      var keys := storage.names;
      var i := 0;
      while i < |keys|
        invariant 0 <= i <= |keys|
        invariant storage.Valid()
        invariant forall n :: n in storage.stores <==> n in old(storage.stores) && (n == Assets() || n in keys[i..])
        invariant forall n :: n in storage.stores ==> storage.stores[n] == old(storage.stores)[n]
      {
        assert keys[i..] == [keys[i]] + keys[i + 1..];
        if keys[i] != Assets() {
          var _ := storage.Delete(keys[i]);
        }
        i := i + 1;
      }
      if Assets() in old(storage.stores) {
        assert storage.stores == map[Assets() := old(storage.stores)[Assets()]];
        OnlyElement(storage.names, Assets());
      } else {
        assert storage.stores == map[];
        OnlyElement(storage.names, Assets());
      }
    }

    /** `fetchAndCache(request)`: open the offline cache (creating it); on a
      network response, store it under the request and answer with it; on a
      network error, answer from the offline cache or reject with the error. */
    method FetchAndCache(req: Request, net: NetResult) returns (h: Handling)
      requires Valid()
      modifies storage
      ensures Valid()
      ensures h == FetchAndCacheAnswer(Entries(old(storage.stores), Offline()), req.url.href, net)
      ensures storage.stores == old(storage.stores)[Offline() :=
                FetchAndCacheStore(Entries(old(storage.stores), Offline()), req.url.href, net)]
      ensures storage.names == if Offline() in old(storage.stores) then old(storage.names)
                               else old(storage.names) + [Offline()]
    {
      storage.Open(Offline());
      match net
      case Fetched(response) =>
        storage.Put(Offline(), req.url.href, response);
        h := Respond(response);
      case NetworkError(error) =>
        var cached := storage.MatchIn(Offline(), req.url.href);
        if cached.Some? {
          h := Respond(cached.value);
        } else {
          h := Reject(error);
        }
    }

    /** The `fetch` handler. A request it does not intercept is left to the
      browser and nothing changes. An intercepted static asset found in the
      caches is answered from there, without the network and without any
      change. Anything else goes through `fetchAndCache`. */
    method HandleFetch(req: Request, net: NetResult) returns (h: Handling)
      requires Valid()
      modifies storage
      ensures Valid()
      ensures !Intercepts(req, location, StaticAssets()) ==>
                h == Passthrough && storage.stores == old(storage.stores) && storage.names == old(storage.names)
      ensures Intercepts(req, location, StaticAssets()) && IsStaticAsset(req.url, location, StaticAssets())
              && old(storage.Match(req.url.href)).Some? ==>
                h == Respond(old(storage.Match(req.url.href)).value)
                && storage.stores == old(storage.stores) && storage.names == old(storage.names)
      ensures Intercepts(req, location, StaticAssets())
              && !(IsStaticAsset(req.url, location, StaticAssets()) && old(storage.Match(req.url.href)).Some?) ==>
                h == FetchAndCacheAnswer(Entries(old(storage.stores), Offline()), req.url.href, net)
                && storage.stores == old(storage.stores)[Offline() :=
                     FetchAndCacheStore(Entries(old(storage.stores), Offline()), req.url.href, net)]
                && storage.names == if Offline() in old(storage.stores) then old(storage.names)
                                    else old(storage.names) + [Offline()]
    {
      if !Intercepts(req, location, StaticAssets()) {
        return Passthrough;
      }
      if IsStaticAsset(req.url, location, StaticAssets()) {
        var cached := storage.Match(req.url.href);
        if cached.Some? {
          return Respond(cached.value);
        }
      }
      h := FetchAndCache(req, net);
    }

    /** A fresh worker's life: install, activate, then one fetch event. Once
      the install succeeded, a GET of one of the worker's static assets is
      answered with the response precached at install time, whatever the
      network now does. */
    method InstallActivateFetch(fetch: string -> NetResult, req: Request, net: NetResult)
      returns (installed: bool, h: Handling)
      requires Valid()
      modifies storage
      ensures Valid()
      ensures installed == AllFetchedOk(PrecacheUrls(), fetch)
      ensures installed && Intercepts(req, location, StaticAssets())
              && IsStaticAsset(req.url, location, StaticAssets())
              && req.url.href == AssetUrl(req.url.pathname) ==>
                h == Respond(fetch(req.url.href).response)
    {
      installed := Install(fetch);
      ghost var assets := storage.stores[Assets()];
      Activate();
      if installed && Intercepts(req, location, StaticAssets())
         && IsStaticAsset(req.url, location, StaticAssets())
         && req.url.href == AssetUrl(req.url.pathname) {
        var urls := PrecacheUrls();
        var i :| 0 <= i < |build + files| && (build + files)[i] == req.url.pathname;
        assert urls[i] == req.url.href;
        assert req.url.href in Precached(urls, fetch);
        assert assets[req.url.href] == fetch(req.url.href).response;
        SingleCacheMatch(Assets(), assets, req.url.href);
        assert storage.Match(req.url.href) == Some(fetch(req.url.href).response);
      }
      h := HandleFetch(req, net);
    }
  }

  /** With a single cache, `caches.match` answers from that cache. */
  lemma SingleCacheMatch(name: string, entries: map<string, Response>, key: string)
    ensures FirstMatch([name], map[name := entries], key)
            == if key in entries then Some(entries[key]) else None
  {
    assert [name][1..] == [];
  }

  /** A sequence without duplicates has as many elements as its set. */
  lemma {:induction false} DistinctCount(s: seq<string>)
    requires NoDuplicates(s)
    ensures |set y | y in s| == |s|
  {
    if s != [] {
      HeadNotInTail(s);
      DistinctCount(s[1..]);
      assert (set y | y in s) == {s[0]} + (set y | y in s[1..]);
    }
  }

  /** A duplicate-free sequence whose only possible element is `x` is `[x]`
      when it holds `x`, and empty otherwise. */
  lemma OnlyElement(s: seq<string>, x: string)
    requires NoDuplicates(s) && forall y :: y in s ==> y == x
    ensures s == if x in s then [x] else []
  {
    DistinctCount(s);
    assert (set y | y in s) == if x in s then {x} else {};
    assert |s| >= 1 ==> s[0] in s;
  }
}
