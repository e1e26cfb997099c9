# Blog post pipeline and offline service worker, in Dafny

This project models the core of a personal blog site built with SvelteKit. It
covers four source files.

- **`src/lib/utils.ts`** reads a post file and splits it with the expression
  `/^---\n([\s\S]*?)\n---/`. The captured header is handed to a YAML parser
  and checked against the frontmatter schema: `title` is a string, `date` is
  a date, `excerpt` is a string. The post body is the text after the whole
  match, trimmed. `loadPost` turns a failed schema check into an HTTP 404.
  The file also holds the `assert` guard and `formatDate`, which renders a
  date as year, two-digit month and two-digit day, joined by dashes.
- **`src/routes/blog/+page.server.ts`** builds the blog index. It sorts the
  globbed post paths and loads every post. Each entry is paired with its slug:
  the file name after the last `/`, minus a leading three-digit ordering
  prefix and a trailing `.md`.
- **`build-sw.js`** lists the `build` and `build/_app` directories to make the
  worker's app-shell list and static-file list. It drops the first line of the
  worker source before prepending the generated declarations.
- **`src/service-worker.js`** is the offline service worker:
  - at install, it precaches the static assets into `cache<version>`;
  - at activation, it deletes every other cache;
  - it decides which fetches to answer;
  - it answers static assets from the caches;
  - everything else goes network-first, falling back to the `offline<version>`
    cache.

The modules:

- `JsCore`: JavaScript values and outcomes (return or throw).
- `JsString`: the string built-ins the code calls, with their properties.
  These are `trim`, `padStart`, `String(n)`, `split` and `join`.
- `Utils`, `BlogList`, `BuildSw`: the first three files.
- `ServiceWorker`: the worker, split into two parts:
  - pure functions for the routing rules;
  - a `CacheStorage` class and a `Worker` class whose methods update the cache
    state step by step, as the handlers do.

The regular expressions are modelled by what they match:

- **The header expression** is a lazy match. `MatchHeader` is proved to find
  the first closing delimiter that starts at index 4 or later.
- **The slug replace** is global. `ReplaceFrom` scans left to right, the way
  the global replace walks the string. `StripSlugSpec` proves that this scan
  equals "drop one leading `\d{3}-`, then drop one trailing `.md`".

The index page derives slugs differently from the single-post page. The
single-post page matches `^\d+-(.+)\.md$` and asserts "Invalid slug." on a
miss (src/routes/blog/[slug]/+page.server.ts:23-24). The model follows the
index page's own code:

- The ordering prefix is exactly three digits and a dash (`\d{3}-`), not any
  run of digits. So `42-foo.md` keeps the slug `42-foo`.
- Slug derivation never fails: `readme.md` gets the slug `readme`.

Other edge cases of the code that the model keeps:

- The index keeps every post: nothing filters drafts. The schema has exactly
  three fields, and keys of the header that it does not name are dropped.
- The header must open with `---` and a line feed, so a file that starts with
  `---\r\n` has no header.
- The closing `\n---` need not end its line.
- `build-sw.js` drops the first line of the worker source whatever that line
  is. Its comment calls that line the import of the asset lists. In the
  current `src/service-worker.js` the first line is a type reference, and the
  import comes four lines later. The model states what the script does.

## Model

| member | source | states |
|---|---|---|
| JsCore.Truthy | src/lib/utils.ts:21 | defines ECMAScript ToBoolean behind `!expr`: undefined, null, false, 0, NaN, 0n and "" are falsy, everything else truthy |
| JsCore.Option.GetOr | src/lib/utils.ts:22 | defines `msg ?? ""`: the present value, or the fallback when absent |
| Utils.Assert | src/lib/utils.ts:20-24 | returns exactly when the value is truthy; otherwise throws an Error whose message is the given one, or empty when none is given |
| Utils.SearchClose | src/lib/utils.ts:27 | finds the first position at or after `j` where `\n---` occurs, and None only when there is none |
| Utils.MatchHeader | src/lib/utils.ts:27 | the lazy match: a capture of length `k` exactly when the text opens with `---\n` and `\n---` starts at `4+k` and at no earlier position from 4 on; None exactly when no length fits |
| Utils.MatchAssembled | src/lib/utils.ts:27 | a file opening with `---\n`, then a header free of `\n---`, then `\n---`, captures exactly that header |
| Utils.IsHeaderMatch | src/lib/utils.ts:27 | defines the match with a capture of length `k`: the text opens with `---\n`, `\n---` starts at `4+k`, and it starts nowhere in between (the lazy `*?`) |
| Utils.HeaderMatchUnique | src/lib/utils.ts:27 | there is at most one capture length |
| Utils.HeaderHasNoClose | src/lib/utils.ts:27 | the captured header never contains `\n---` |
| Utils.EmptyHeaderNeedsBlankLine | src/lib/utils.ts:27 | `---\n---` has no header, while `---\n\n---` has an empty one |
| Utils.CrlfHeaderNotFound | src/lib/utils.ts:27-30 | a file opening with `---\r\n` throws "Frontmatter not found" |
| Utils.Validate | src/lib/utils.ts:7-11 | succeeds exactly when the header is a mapping with a string `title`, a date `date` and a string `excerpt`, and copies those three; a failure names exactly the fields that are missing or mistyped, and none when the header is not a mapping |
| Utils.ParsePost | src/lib/utils.ts:26-35 | throws "Frontmatter not found" without a header match; propagates a YAML error; returns the schema failure; on success, the body is the trimmed text after the whole match |
| Utils.ParsePostAssembled | src/lib/utils.ts:26-35 | a file made of `---\n`, a header free of `\n---`, `\n---`, and a trimmed body surrounded by whitespace parses back to that header's frontmatter and exactly that body |
| Utils.LoadPost | src/lib/utils.ts:37-52 | returns the parsed post exactly when parsing succeeds; a schema failure becomes an HTTP 404 carrying the failing fields; a parse error propagates unchanged |
| Utils.TwoDigits | src/lib/utils.ts:56-57 | defines `String(n).padStart(2, "0")`; TwoDigitsValue states what it gives |
| Utils.TwoDigitsValue | src/lib/utils.ts:56-57 | the padded text is at least two digits, exactly two below 100, and reads back as the number: a padding zero adds nothing |
| Utils.FormatDate | src/lib/utils.ts:54-59 | defines the text as `String` of the year, a dash, the month number padded to two, a dash, the day padded to two; its meaning is stated by FormatDateRoundTrip and FormatDateFourDigitYear |
| Utils.ReadFormatted | src/lib/utils.ts:56-58 | the year, padded month and padded day that `formatDate` joins read back as the year, the month index and the day |
| Utils.FourDigitPieces | src/lib/utils.ts:56-58 | with a four-digit year those pieces make ten characters: digits with dashes at positions 4 and 7 |
| Utils.ParseYmdPieces | src/lib/utils.ts:58 | a year, dash, two-digit month, dash, two-digit day reads back into its three numbers |
| Utils.FormatDateRoundTrip | src/lib/utils.ts:54-59 | reading the formatted date back gives the same year, month index and day, for every non-negative year |
| Utils.FormatDateFourDigitYear | src/lib/utils.ts:54-59 | for a four-digit year the result is ten characters: digits with dashes at positions 4 and 7 |
| JsString.StartsWith | build-sw.js:7 | defines `startsWith`: the string begins with the prefix (also `url.protocol.startsWith("http")` at src/service-worker.js:65) |
| JsString.EndsWith | build-sw.js:11 | defines `endsWith`: the string ends with the suffix |
| JsString.Trim | src/lib/utils.ts:33 | the result has no whitespace at either end, sits in the input after its leading whitespace, and only whitespace follows it |
| JsString.TrimExact | src/lib/utils.ts:33 | trimming whitespace around a trimmed string gives that string |
| JsString.TrimAllWhitespace | src/lib/utils.ts:33 | a body of only whitespace trims to empty |
| JsString.TrimIdempotent | src/lib/utils.ts:33 | trimming twice is trimming once |
| JsString.LeadingSpace | src/lib/utils.ts:33 | the longest all-whitespace prefix |
| JsString.TrailingSpace | src/lib/utils.ts:33 | the longest all-whitespace suffix |
| JsString.PadStart | src/lib/utils.ts:56-57 | the result has the requested width or the input's length, ends with the input, and is the fill character before it |
| JsString.NatToString | src/lib/utils.ts:56-57 | `String(n)` is a digit string without a leading zero |
| JsString.IntToString | src/lib/utils.ts:58 | a negative year gets a minus sign before its digits |
| JsString.NatToStringRoundTrip | src/lib/utils.ts:56-57 | the digits of `String(n)` read back as `n` |
| JsString.DigitsValueRoundTrip | src/lib/utils.ts:56-57 | every canonical digit string is `String(n)` of the number it denotes |
| JsString.IndexOf | build-sw.js:24 | the first position of the character, or None when it does not occur |
| JsString.IndexOfIs | build-sw.js:24 | an occurrence with none before it is the first one |
| JsString.Split | build-sw.js:24 | at least one piece, and no piece holds the separator |
| JsString.Join | build-sw.js:24 | defines `join`: the pieces with the separator between each two; JoinSplit states that it undoes Split |
| JsString.JoinSplit | build-sw.js:24 | joining the pieces with the separator restores the string |
| JsString.SplitLast | src/routes/blog/+page.server.ts:17-19 | the last piece is the suffix after the last separator, or the whole string |
| BlogList.LexLe | src/routes/blog/+page.server.ts:12 | defines the comparison `toSorted()` uses: character by character, and a prefix sorts first; the four lemmas below make it a total order |
| BlogList.LexLeReflexive | src/routes/blog/+page.server.ts:12 | the sort order is reflexive |
| BlogList.LexLeTotal | src/routes/blog/+page.server.ts:12 | any two paths are comparable |
| BlogList.LexLeTransitive | src/routes/blog/+page.server.ts:12 | the sort order is transitive |
| BlogList.LexLeAntisymmetric | src/routes/blog/+page.server.ts:12 | two paths that sort both ways are equal |
| BlogList.Insert | src/routes/blog/+page.server.ts:12 | inserting into a sorted list keeps it sorted and adds exactly that element |
| BlogList.SortPaths | src/routes/blog/+page.server.ts:12 | `toSorted()` returns a sorted permutation of the paths |
| BlogList.SortedHead | src/routes/blog/+page.server.ts:12 | the first path of a sorted list sorts before all the others |
| BlogList.SortedTail | src/routes/blog/+page.server.ts:12 | the rest of a sorted list is sorted and holds the other paths |
| BlogList.SortedUnique | src/routes/blog/+page.server.ts:12 | two sorted permutations of the same paths are equal, so the order is fully determined |
| BlogList.LexLeAt | src/routes/blog/+page.server.ts:12 | a path sorts first when at the first difference its character is smaller |
| BlogList.SortExample | src/routes/blog/+page.server.ts:12 | `002-b.md`, `001-a.md`, `010-c.md` sort into prefix order |
| BlogList.FileName | src/routes/blog/+page.server.ts:17-19 | `split("/").at(-1)` is a suffix of the path without a slash, preceded by a slash or the whole path |
| BlogList.FileNameOf | src/routes/blog/+page.server.ts:17-19 | the file name of `dir/name` is `name` |
| BlogList.ReplaceFrom | src/routes/blog/+page.server.ts:20 | defines the left-to-right scan of the global replace: `^\d{3}-` only at index 0, `\.md$` only at the last three characters, any other character kept |
| BlogList.StripSlug | src/routes/blog/+page.server.ts:20 | defines the replace as that scan from index 0; StripSlugSpec gives its closed form |
| BlogList.ReplaceFromTail | src/routes/blog/+page.server.ts:20 | past the start, the replace scan removes only a final `.md` |
| BlogList.StripSlugSpec | src/routes/blog/+page.server.ts:20 | the global replace drops one leading three-digit prefix with its dash, then one trailing `.md`, and nothing else |
| BlogList.OrderPrefixExample | src/routes/blog/+page.server.ts:20 | `003-hi.md` becomes `hi` |
| BlogList.ShortPrefixKept | src/routes/blog/+page.server.ts:20 | a two-digit prefix is not an ordering prefix: `42-a.md` becomes `42-a` |
| BlogList.LongPrefixKept | src/routes/blog/+page.server.ts:20 | a four-digit prefix is not an ordering prefix: `1234-a.md` becomes `1234-a` |
| BlogList.MdSuffixExample | src/routes/blog/+page.server.ts:20 | only one `.md`, at the very end, is removed: `a.md.md` becomes `a.md` |
| BlogList.PlainNameKept | src/routes/blog/+page.server.ts:20 | a name with neither prefix nor `.md` is its own slug |
| BlogList.SlugOf | src/routes/blog/+page.server.ts:17-20 | the slug is the file name minus one leading three-digit prefix, then one trailing `.md`, and it never holds a slash |
| BlogList.SlugOfExample | src/routes/blog/+page.server.ts:17-20 | `../../../posts/003-hi.md` has the slug `hi` |
| BlogList.LoadEntry | src/routes/blog/+page.server.ts:14-16 | defines one entry's load as `loadPost` on that entry's file text |
| BlogList.FirstFailure | src/routes/blog/+page.server.ts:10-24 | every entry before the index loads, and the entry at the index throws |
| BlogList.FirstFailureAll | src/routes/blog/+page.server.ts:10-24 | no entry fails exactly when every entry loads |
| BlogList.LoadEach | src/routes/blog/+page.server.ts:13-23 | when every entry loads, one summary per entry in order, pairing the entry's slug with that same entry's frontmatter; otherwise the exception of the first failing entry |
| BlogList.SortedSameEntries | src/routes/blog/+page.server.ts:11-12 | sorting neither adds nor drops an entry |
| BlogList.Load | src/routes/blog/+page.server.ts:9-27 | succeeds exactly when every post loads; the summaries then follow the sorted paths one for one, none dropped; a failure throws the exception of some post's own load |
| BuildSw.Filter | build-sw.js:6-12 | keeps exactly the entries that pass, never more than the input |
| BuildSw.FilterAppend | build-sw.js:6-12 | the filter keeps listing order |
| BuildSw.Prefixed | build-sw.js:8 | `map(d => prefix + d)`: same length, and each element is the prefix plus the element at the same index |
| BuildSw.KeptPaths | build-sw.js:6-12 | a path is emitted exactly when it is the prefix plus a kept listing entry |
| BuildSw.KeptPathsAppend | build-sw.js:6-12 | the emitted paths follow listing order |
| BuildSw.KeepShell | build-sw.js:7 | defines the shell filter: not a dotfile and not `_app` |
| BuildSw.KeepAppFile | build-sw.js:11 | defines the static-file filter: not ending in `.map` |
| BuildSw.Shell | build-sw.js:6-17 | the shell list starts with `/`; the rest are exactly `/` plus each build entry that is neither a dotfile nor `_app`, in listing order (ShellAppend) |
| BuildSw.ShellAppend | build-sw.js:6-8 | the shell list of a longer listing is the shell list of its first part followed by the entries of the rest: listing order is kept |
| BuildSw.ShellOrderExample | build-sw.js:6-8 | listing `a` then `b` gives `/`, `/a`, `/b` |
| BuildSw.Files | build-sw.js:10-12 | the file list is exactly `/_app/` plus each `_app` entry that is not a source map, in listing order (FilesAppend) |
| BuildSw.FilesAppend | build-sw.js:10-12 | the file list of a concatenated listing is the concatenation of the file lists: listing order is kept |
| BuildSw.KeepShellExamples | build-sw.js:7 | dotfiles and `_app` are dropped; `_apple.txt` and `favicon.png` are kept |
| BuildSw.FilesExample | build-sw.js:10-12 | of `a.js` and `a.js.map`, only `/_app/a.js` is emitted |
| BuildSw.DropFirstLine | build-sw.js:24 | a text without a line feed becomes empty; otherwise the text is a line-feed-free first line, a line feed, and the result |
| BuildSw.DropFirstLineExample | build-sw.js:24 | `a` followed by a line feed and `b` becomes `b`: only the first line goes |
| BuildSw.FilterCons | build-sw.js:6-12 | the first entry is kept in front exactly when it passes |
| ServiceWorker.StaticAssetSet | src/service-worker.js:8-9 | a path is a static asset exactly when it is in `build` or `files` |
| ServiceWorker.IsStaticAsset | src/service-worker.js:68-69 | defines a static asset: same host as the worker, and the path is in `staticAssets` |
| ServiceWorker.IsDevServerRequest | src/service-worker.js:66-67 | defines a dev-server request: same hostname as the worker, another port |
| ServiceWorker.Intercepts | src/service-worker.js:58-73 | a request that is not a GET, or that carries a `range` header, is never answered |
| ServiceWorker.InterceptsExactly | src/service-worker.js:58-73 | answered exactly when it is a GET without `range`, over http, not to the dev server, and not an `only-if-cached` request for a non-asset |
| ServiceWorker.LastIndexOf | src/service-worker.js:66-69 | the last occurrence of the character, or None when it does not occur |
| ServiceWorker.LastIndexOfIs | src/service-worker.js:66-69 | an occurrence with none after it is the last one |
| ServiceWorker.HostParts | src/service-worker.js:66-69 | the host of a well-formed URL splits back into its hostname and port |
| ServiceWorker.SameHostSameParts | src/service-worker.js:66-69 | URLs with the same host have the same hostname and port |
| ServiceWorker.StaticAssetsAreIntercepted | src/service-worker.js:66-73 | an http GET without `range` for a static asset is never taken for a dev-server request, so it is always answered |
| ServiceWorker.Without | src/service-worker.js:31 | removing one cache name keeps every other name and introduces no duplicates |
| ServiceWorker.WithoutAppend | src/service-worker.js:31 | removing a name removes it from each part of the list separately, so the remaining names keep their creation order |
| ServiceWorker.OnlyElement | src/service-worker.js:28-32 | a list of distinct cache names that holds no name but one is that name alone, or empty |
| ServiceWorker.FirstMatch | src/service-worker.js:77 | a hit is the response stored under the key in the first cache, in creation order, that holds the key (no earlier cache holds it); a miss means no cache holds the key |
| ServiceWorker.FirstCacheWins | src/service-worker.js:77 | when two caches both hold the request, the one created first answers |
| ServiceWorker.CacheStorage.Match | src/service-worker.js:76-77 | `caches.match` answers from the first cache in `names` that holds the request, no earlier cache holding it, and misses only when none does |
| ServiceWorker.CacheStorage.MatchIn | src/service-worker.js:52 | `cache.match` on one cache hits exactly when that cache holds the request |
| ServiceWorker.CacheStorage.constructor | src/service-worker.js:17 | storage starts with no caches |
| ServiceWorker.CacheStorage.Open | src/service-worker.js:46 | an existing cache is returned untouched; a new name is appended with an empty cache |
| ServiceWorker.CacheStorage.Delete | src/service-worker.js:31 | reports whether the cache existed, then removes it from both the names and the contents |
| ServiceWorker.CacheStorage.Put | src/service-worker.js:49 | stores the response under the request in that one cache, nothing else changes |
| ServiceWorker.CacheStorage.PutAll | src/service-worker.js:19 | stores all the given entries in that one cache at once |
| ServiceWorker.FetchAndCacheAnswer | src/service-worker.js:45-56 | the network response when there is one; otherwise the offline copy; otherwise the network error is rethrown |
| ServiceWorker.FetchAndCacheStore | src/service-worker.js:48-49 | a network response is stored under the request; a network error stores nothing |
| ServiceWorker.OfflineFallbackAfterFetch | src/service-worker.js:42-55 | a request fetched once is answered with that response later when the network fails |
| ServiceWorker.OfflineMissRethrows | src/service-worker.js:51-55 | offline and uncached, the network's own error is thrown and the cache is unchanged |
| ServiceWorker.FetchedOk | src/service-worker.js:19 | defines a fetch that `addAll` accepts: a response whose status is in 200-299 and is not 206 |
| ServiceWorker.Precached | src/service-worker.js:19 | the entries `addAll` stores: exactly the fetched URLs, each with its own response |
| ServiceWorker.PrecacheStep | src/service-worker.js:19 | one more fetched URL extends the all-ok test and the entries by that URL |
| ServiceWorker.FetchAll | src/service-worker.js:19 | the fetch loop of `addAll` reports whether every fetch gave an ok status, and if so yields exactly the precached entries |
| ServiceWorker.Worker.constructor | src/service-worker.js:5-9 | a worker for a version, asset lists and location, with empty cache storage |
| ServiceWorker.Worker.Assets | src/service-worker.js:7 | defines `ASSETS` as `cache` followed by the version |
| ServiceWorker.Worker.StaticAssets | src/service-worker.js:9 | defines `staticAssets` as the set of `build` and `files`, whose membership StaticAssetSet states |
| ServiceWorker.Worker.Offline | src/service-worker.js:46 | defines the offline cache's name as `offline` followed by the version |
| ServiceWorker.Worker.AssetUrl | src/service-worker.js:8 | defines how a path of `to_cache` resolves: the worker's protocol, `//`, its host, then the path |
| ServiceWorker.Worker.PrecacheUrls | src/service-worker.js:8 | `to_cache` is `build` then `files`, each resolved against the worker's origin |
| ServiceWorker.Worker.Install | src/service-worker.js:15-24 | `cache<version>` exists afterwards, appended to the cache names if it was new; it gains every asset's response exactly when all fetches were ok, and nothing otherwise |
| ServiceWorker.Worker.Activate | src/service-worker.js:26-37 | every cache but `cache<version>` is deleted; that one keeps its contents and is the only name left, or none remains |
| ServiceWorker.Worker.FetchAndCache | src/service-worker.js:45-56 | the answer and the new offline cache are those of FetchAndCacheAnswer and FetchAndCacheStore on the old offline cache; the offline cache is appended to the names if it was new; no other cache changes |
| ServiceWorker.Worker.HandleFetch | src/service-worker.js:58-82 | an unanswered request changes nothing; a cached static asset is answered from the caches with no change; anything else goes through fetchAndCache, with its answer, its new offline cache and its new cache names |
| ServiceWorker.SingleCacheMatch | src/service-worker.js:76-77 | with a single cache, `caches.match` answers from that cache |
| ServiceWorker.Worker.InstallActivateFetch | src/service-worker.js:15-82 | after a successful install and activation, a static asset is answered with its precached response whatever the network does |

## Left out

- YAML parsing is a parameter (`yaml`). The model decides only which values
  count as strings and dates, not how the library reads them.
- The zod issue codes and messages are not modelled, and neither is the
  JSON text of the 404 body. A failure keeps the set of failing field names.
- `z.date()` rejecting an Invalid Date is not modelled: a date here is
  always a year, a month index and a day.
- Utils.FormatDate takes what the local-time getters return. Time zones,
  `Date` itself and its parsing are not modelled. Its properties are proved
  by `FormatDateRoundTrip` and `FormatDateFourDigitYear`.
- Utils.FormatDateRoundTrip covers non-negative years only. For a negative
  year the output starts with a minus sign, which the reader does not read.
- File reads (`fs.readFile`), `import.meta.glob` and `path.resolve` are not
  modelled. The glob result is the `entries` input, and `read` maps an entry
  to its file's text.
- BlogList.Load: when several posts fail, it reports the exception of the
  first failing entry in sorted order. In the source, `Promise.all` rejects
  with whichever load fails first in time, and the model has no timing.
- BlogList.SortPaths compares characters by code point. JavaScript's default
  sort compares UTF-16 code units, which orders differently only for
  characters outside the Basic Multilingual Plane.
- `prerender` and the SvelteKit page plumbing are not modelled.
- In build-sw.js, these are not modelled:
  - reading the directories and the input file, and writing the output;
  - `Date.now()` for the timestamp;
  - `JSON.stringify` of the lists;
  - the final text, the declarations followed by the remaining lines.
- Async execution is not modelled: promises, `waitUntil`, `respondWith` and
  the event objects. Each handler is one method call, and each fetch event
  takes one network outcome (`net`).
- `skipWaiting` and `clients.claim` are not modelled; they only affect which
  pages the worker controls.
- URL parsing (`new URL`) is not modelled: requests carry parsed URLs.
  `WellFormedHost` is an assumption of the host lemmas, not something checked.
- Cache matching is by the request URL string alone. Vary headers, search
  and fragment options, and request methods other than GET are not modelled.
- ServiceWorker.Worker.FetchAndCache: `cache.put` is not awaited in the
  source and can reject. It does so for a partial response, or for a scheme
  that starts with "http" but is not http(s). The model assumes every put
  succeeds.
- ServiceWorker.Worker.Install: `addAll` with a repeated request fails with
  an InvalidStateError. The model stores a repeated URL once instead.
  Response bodies are not streams, so `clone` is not needed.
- `src/routes/blog/[slug]/+page.server.ts` is not part of this model: the
  single-post page, markdown rendering and syntax highlighting.
- `src/app.d.ts`, `svelte.config.js`, `svelte.config.cjs` and
  `astro.config.mjs` are not part of this model: types and build
  configuration.
