# Offline cache controller of the Aether landing page, in Dafny

This project models the service worker `artifact/sw.js`, which keeps the
landing page usable offline. The worker owns the origin's cache storage: a set
of named buckets, each mapping a request URL to a stored response. It does
three things:

- **install**: open the bucket named by the current generation tag
  (`aether-v2-premium`) and pre-cache the four app-shell assets with
  `cache.addAll`, all or nothing;
- **activate**: list every bucket and delete each one whose name is not the
  current tag;
- **fetch**: route each intercepted request by its host name. A host that
  contains one of five CDN/font domains as a substring is *external* and is
  served **cache-first**: a cached copy is returned without touching the
  network; otherwise the network answer is returned, and stored when it is a
  200 of type cors, basic or opaque. Every other request is *local* and is
  served **stale-while-revalidate**: the cached copy if there is one,
  otherwise the network answer; a 200 from the network always refreshes the
  cache, and a network failure is swallowed.

Layout, one module per concern:

- `http.dfy` (`Wrappers`, `Http`): requests, responses, the outcome of a
  network fetch (`Fetched(response)` or `NetworkError`), and what a listener
  hands to `respondWith` (`Served`, `Rejected`, or `Undefined`).
- `strings.dfy` (`Strings`): `String.prototype.includes`, proved to mean
  "occurs as a contiguous substring".
- `config.dfy` (`Config`): `CACHE_NAME`, `STATIC_ASSETS`, `EXTERNAL_DOMAINS`.
- `routing.dfy` (`Routing`): the external/local classification.
- `cache_state.dfy` (`CacheState`): the cache storage as a value (`Store`:
  bucket names in creation order plus the buckets) and the Cache API calls
  the worker makes: `caches.match`, `caches.open`, `cache.put`,
  `caches.delete`, `cache.addAll`.
- `cache_api.dfy` (`CacheApi`): the `caches` global as a class whose methods
  change it in place, each proved against the function of `CacheState`.
- `lifecycle.dfy` (`Lifecycle`): install and activate as functions, with
  their properties.
- `strategies.dfy` (`Strategies`): the fetch listener as a function, with
  its properties.
- `worker.dfy` (`Worker`): the three listeners as methods over a
  `CacheStorage` object. `OnActivate` keeps the source's loop over the key
  list. Each listener is proved equal to the function that specifies it.

The network, which no model can see, is a parameter. The fetch listener
takes the outcome of its single `fetch(e.request)`. Install takes a function
from request to outcome. The background `cache.put` calls, which the source
does not await, are taken to complete within the listener's step.

Two consequences of the code as written:

- A local request whose fetch fails with nothing cached does not reject.
  The `.catch(() => {})` at artifact/sw.js:87-89 resolves the fetch promise
  to `undefined`, and `respondWith` turns that into a generic network error
  for the page. The model returns `Undefined` there, and `Rejected` in the
  external branch, which has no catch.
- The external test is a substring test on the host name, so
  `unpkg.com.example.org` is external too
  (`Routing.EmbeddedDomainIsExternal`).

`caches.match` searches every bucket, oldest first, not only the current
one. The model keeps that order. So a request can be answered from an older
generation until activation has run; only the store after activation is
answered from the current bucket alone
(`Lifecycle.ActivatedMatchesCurrent`).

Under the Fetch Standard an opaque response always has status 0. So the
external branch's `type === 'opaque'` alternative can never hold together
with `status === 200`, and that branch never stores an opaque response
(`Strategies.OpaqueNeverCacheable`). The model keeps the test exactly as
written.

## Model

| member | source | states |
|---|---|---|
| Strings.Includes | artifact/sw.js:49 | `host.includes(domain)` is true exactly when `domain` occurs at some index of `host` as a contiguous substring |
| Routing.SomeIncluded | artifact/sw.js:49 | `domains.some(d => host.includes(d))` is true exactly when some listed domain is included in the host |
| Routing.Classify | artifact/sw.js:49 | a URL is routed External exactly when some domain of EXTERNAL_DOMAINS occurs in its host name as a substring |
| Routing.SubdomainIsExternal | artifact/sw.js:11-17 | a sub-domain of a listed domain (`x.unpkg.com`) is external |
| Routing.EmbeddedDomainIsExternal | artifact/sw.js:49 | a host that only embeds a listed domain (`unpkg.com.example.org`) is external as well: substring, not suffix |
| Routing.OwnOriginIsLocal | artifact/sw.js:75-77 | the page's own host (`localhost`) takes the local stale-while-revalidate route |
| CacheState.FirstMatch | artifact/sw.js:51 | the answer is the entry of the first bucket in creation order that holds the URL, and None exactly when no bucket holds it |
| CacheState.Match | artifact/sw.js:78 | `caches.match` finds nothing for a non-GET request, and otherwise returns an entry for the URL from some listed bucket, None exactly when no bucket holds the URL |
| CacheState.Open | artifact/sw.js:21 | `caches.open` never changes the contents of any bucket; a missing bucket is created empty, last in creation order |
| CacheState.OpenAndPut | artifact/sw.js:64-65 | open-then-put changes only the request's URL in the named bucket, and changes nothing for a non-GET request |
| CacheState.OpenAndPutAll | artifact/sw.js:21-23 | the named bucket gains the given entries, overriding older ones; every other bucket is unchanged |
| CacheState.Delete | artifact/sw.js:35 | `caches.delete` removes the named bucket from the map and from the name list, and leaves every other bucket listed and its contents unchanged; deleting a missing name leaves the list as it was |
| CacheState.DeleteKeepsOrder | artifact/sw.js:35 | deleting a listed bucket drops exactly its position from the creation order, so the remaining names keep their order |
| CacheState.AddAllFetch | artifact/sw.js:23 | `addAll` yields entries exactly when every URL was fetched with a 2xx, non-206 response; the entries are then exactly those URLs with their fetched responses |
| Lifecycle.AssetUrl | artifact/sw.js:3-8 | an app-shell path resolves on the worker's own host, under the worker's directory, and a `./` path is that directory followed by the rest of the path |
| Lifecycle.AppShell | artifact/sw.js:23 | `addAll` requests one URL per STATIC_ASSETS entry, in list order, each the resolution of that entry |
| Lifecycle.AppShellDistinct | artifact/sw.js:3-8 | the four app-shell URLs are pairwise different for any worker directory |
| Lifecycle.Install | artifact/sw.js:19-25 | install always leaves the current bucket in place and no other bucket touched; a failed install leaves the current bucket's entries as they were |
| Lifecycle.InstallOkIff | artifact/sw.js:19-24 | install succeeds exactly when every STATIC_ASSETS entry is fetched with an accepted response |
| Lifecycle.InstallStoresAppShell | artifact/sw.js:21-23 | a successful install stores each app-shell URL with its fetched response and leaves every other entry of the bucket unchanged |
| Lifecycle.InstallIntoEmptyStore | artifact/sw.js:19-24 | from an empty origin, a successful install leaves one bucket, `CACHE_NAME`, holding exactly four entries |
| Lifecycle.InstallIdempotent | artifact/sw.js:19-24 | installing twice with the same network answers gives the same store and verdict as installing once |
| Lifecycle.DeleteIfStale | artifact/sw.js:33-37 | one callback deletes its key unless it is `CACHE_NAME`, touches no other bucket, never removes the current bucket and keeps the store well formed |
| Lifecycle.Sweep | artifact/sw.js:31-38 | after the deletions over a key list, every remaining bucket existed before with the same entries, no listed key other than `CACHE_NAME` remains, the current bucket exists exactly when it did before, and the store stays well formed |
| Lifecycle.Activate | artifact/sw.js:29-40 | activation keeps only buckets that existed, with their entries, removes every listed name other than `CACHE_NAME`, keeps the current bucket exactly when it existed, and keeps the store well formed |
| Lifecycle.SweepKeepsCurrentOnly | artifact/sw.js:31-38 | deleting each listed name other than `CACHE_NAME`, when every stale name is listed, leaves only the current bucket with its entries |
| Lifecycle.ActivateLeavesCurrentOnly | artifact/sw.js:29-40 | activation equals the reference result: the current bucket alone, with its entries, if it existed, otherwise nothing |
| Lifecycle.ActivateSweepsStale | artifact/sw.js:33-37 | after activation no bucket but `CACHE_NAME` exists; the current bucket exists exactly when it did before and keeps its entries |
| Lifecycle.ActivateIdempotent | artifact/sw.js:29-40 | activating twice gives the same store as activating once |
| Lifecycle.ActivatedMatchesCurrent | artifact/sw.js:29-40 | after activation every match is answered from the current bucket alone |
| Strategies.Cacheable | artifact/sw.js:57 | the external branch stores a response exactly when its status is 200 and its type is neither default nor opaqueredirect |
| Strategies.CacheFirst | artifact/sw.js:50-71 | the network is asked exactly on a miss; a hit is served with the store unchanged; on a miss the fetched response is served, a failure is rejected, and the store changes only by putting a cacheable response under the request in `CACHE_NAME` |
| Strategies.StaleWhileRevalidate | artifact/sw.js:77-93 | the network is always asked; the cached copy is preferred, else the fetched response, else undefined; a fetched 200 is put under the request in `CACHE_NAME`, and anything else leaves the store unchanged |
| Strategies.HandleFetch | artifact/sw.js:44-94 | the network is used unless an external request hits; a cached copy is always what is served; on a miss, the network response is served, and a failure is rejected (external) or resolves to undefined (local); the store changes only by putting a 200 under the request in `CACHE_NAME` |
| Strategies.ExternalHitSkipsNetwork | artifact/sw.js:51-54 | an external cache hit returns the cached response, issues no fetch and leaves the store unchanged |
| Strategies.ExternalMissStoresCacheable | artifact/sw.js:55-68 | on an external miss the response is returned as fetched; a non-cacheable one leaves the store unchanged; a cacheable GET is then found by the next match |
| Strategies.ExternalSecondRequestFromCache | artifact/sw.js:51-68 | after a cacheable external miss, the same request is served from the cache with no fetch, whatever the network would answer |
| Strategies.ExternalFailureRejects | artifact/sw.js:55 | an external miss whose fetch fails is rejected and stores nothing |
| Strategies.LocalRevalidates | artifact/sw.js:79-86 | a local request always fetches; a 200 overwrites its URL's entry in `CACHE_NAME`; any other status or a failure leaves the store unchanged |
| Strategies.LocalFailureWithoutCache | artifact/sw.js:87-91 | a local request with nothing cached whose fetch fails resolves to undefined and stores nothing |
| Strategies.LocalServesStaleThenFresh | artifact/sw.js:77-93 | with only the current bucket left, a local hit is answered with the old copy while a fresh 200 is stored, and the next request gets the fresh one |
| Strategies.Non200NeverStored | artifact/sw.js:57-85 | a response whose status is not 200 is never stored, on either route |
| Strategies.OpaqueNeverCacheable | artifact/sw.js:57 | for a standard response, only cors and basic responses pass the external cacheability test; opaque ones (status 0) never do |
| Strategies.FetchTouchesOnlyRequestEntry | artifact/sw.js:64-83 | a fetch keeps the store well formed, changes no bucket other than `CACHE_NAME`, no entry other than the request's URL, and can add only the `CACHE_NAME` bucket |
| Strategies.PutTouchesOnlyRequestEntry | artifact/sw.js:64-65 | the put into `CACHE_NAME` keeps the store well formed, changes no entry of that bucket but the request's URL, and can only append `CACHE_NAME` to the name list |
| Strategies.MatchAfterPut | artifact/sw.js:64-65 | after a GET is put into `CACHE_NAME`, when no other bucket holds its URL, the next match returns the stored response |
| CacheApi.CacheStorage.Open | artifact/sw.js:21 | the in-place `caches.open` has the effect of `CacheState.Open` and keeps the store well formed |
| CacheApi.CacheStorage.Put | artifact/sw.js:65 | the in-place `cache.put` changes only the request's entry of the opened bucket |
| CacheApi.CacheStorage.Delete | artifact/sw.js:35 | the in-place `caches.delete` reports whether the bucket existed and has the effect of `CacheState.Delete` |
| CacheApi.CacheStorage.AddAll | artifact/sw.js:23 | the in-place `cache.addAll` stores every fetched entry when all are accepted, and otherwise changes nothing |
| Worker.OnInstall | artifact/sw.js:19-27 | the install listener's verdict and new store are those of `Lifecycle.Install`; a failed install writes no app-shell entry |
| Worker.OnActivate | artifact/sw.js:29-42 | the loop over the key list leaves the store `Lifecycle.Activate` gives, which is the current bucket alone |
| Worker.OnFetch | artifact/sw.js:44-94 | the fetch listener's reply, fetch flag and new store are those of `Strategies.HandleFetch`; only the request's entry of `CACHE_NAME` can change |

## Left out

- `self.skipWaiting()` and `self.clients.claim()` (artifact/sw.js:26, 41) are host lifecycle calls. They do not touch the cache store. The install / activate phase machine of the browser is not modelled either: `OnInstall` reports success or failure, and what the host then does is its own concern.
- `response.clone()` and stream consumption are not modelled. A response is a value, and the stored copy is that value.
- Concurrency is not modelled. This covers overlapping fetch listeners, the un-awaited background `cache.put`, and the parallel deletions under `Promise.all`. Each listener runs as one atomic step. The deletions run in key-list order; they touch different buckets, so their order does not change the result.
- URL parsing (`new URL(...)`, host-name lower-casing and punycode) is not modelled. A request carries its host name already parsed. App-shell paths are resolved by dropping `./` and appending the rest to the worker's directory URL, which is a parameter.
- Not all of the Cache API's request matching and put rules are modelled. Left out are `Vary` handling, query and fragment options, `put`'s refusal of 206 responses, of `Vary: *` and of non-HTTP schemes, and `addAll`'s refusal of duplicate requests. Both `put` sites store only 200 responses, and the four app-shell URLs are proved distinct (`Lifecycle.AppShellDistinct`).
- The source's `!response` test (artifact/sw.js:57) cannot fire, because `fetch` never fulfils with a null response. The network outcome type has no null case.
- The failure of a single `caches.delete` during activation is not modelled. The source does not handle it.
- The rest of the repository is not part of this model. It is presentation code: the React and animation components, the three.js scene, the Web Audio engine and the build configuration.
