/**
 * The three listeners the worker registers, as methods that change the
 * `caches` object step by step. Each is proved against the function of
 * `Lifecycle` or `Strategies` that states its effect.
 */
module Worker {
  import opened Wrappers
  import opened Http
  import opened Config
  import opened Routing
  import opened CacheState
  import opened CacheApi
  import opened Lifecycle
  import opened Strategies

  /**
   * The `install` listener: open the current bucket and `addAll` the app
   * shell; `ok` is false when the install fails, and then no app-shell
   * entry was written.
   */
  method OnInstall(caches: CacheStorage, base: Url, net: Request -> NetOutcome) returns (ok: bool)
    requires caches.Valid()
    modifies caches
    ensures caches.Valid()
    ensures Installed(caches.State(), ok) == Install(old(caches.State()), base, net)
    ensures !ok ==> BucketOf(caches.State(), CacheName) == BucketOf(old(caches.State()), CacheName)
  {
    caches.Open(CacheName);
    ok := caches.AddAll(CacheName, AppShell(base), net);
  }

  /**
   * The `activate` listener: list the bucket names, then delete each one
   * that is not `CACHE_NAME`. Afterwards only the current bucket is left,
   * with its entries untouched.
   */
  method OnActivate(caches: CacheStorage)
    requires caches.Valid()
    modifies caches
    ensures caches.Valid()
    ensures caches.State() == Activate(old(caches.State()))
    ensures caches.State() == CurrentOnly(old(caches.State()))
  {
    var keyList := caches.names;
    var i := 0;
    while i < |keyList|
      invariant 0 <= i <= |keyList|
      invariant caches.Valid()
      invariant Sweep(caches.State(), keyList[i..]) == Activate(old(caches.State()))
    {
      ghost var before := caches.State();
      assert keyList[i..][1..] == keyList[i + 1..];
      if keyList[i] != CacheName {
        var _ := caches.Delete(keyList[i]);
      }
      assert caches.State() == DeleteIfStale(before, keyList[i]);
      i := i + 1;
    }
    assert keyList[i..] == [];
    ActivateLeavesCurrentOnly(old(caches.State()));
  }

  /**
   * The `fetch` listener for one request, with `net` the outcome of the
   * `fetch(e.request)` it may issue: returns what it passes to
   * `respondWith` and whether it issued that fetch. Only the request's
   * entry in the current bucket can change.
   */
  method OnFetch(caches: CacheStorage, req: Request, net: NetOutcome) returns (reply: Reply, fetched: bool)
    requires caches.Valid()
    modifies caches
    ensures caches.Valid()
    ensures Handled(reply, fetched, caches.State()) == HandleFetch(old(caches.State()), req, net)
    ensures forall n :: n != CacheName ==> BucketOf(caches.State(), n) == BucketOf(old(caches.State()), n)
    ensures BucketOf(caches.State(), CacheName) - {req.url} == BucketOf(old(caches.State()), CacheName) - {req.url}
  {
    FetchTouchesOnlyRequestEntry(caches.State(), req, net);
    var cached := Match(caches.State(), req);
    if Classify(req.url) == External {
      if cached.Some? {
        reply, fetched := Served(cached.value), false;
        return;
      }
      fetched := true;
      match net
      case NetworkError =>
        reply := Rejected;
      case Fetched(resp) =>
        if Cacheable(resp) {
          caches.Open(CacheName);
          caches.Put(CacheName, req, resp);
        }
        reply := Served(resp);
    } else {
      fetched := true;
      if net.Fetched? && net.response.status == 200 {
        caches.Open(CacheName);
        caches.Put(CacheName, req, net.response);
      }
      reply :=
        if cached.Some? then Served(cached.value)
        else if net.Fetched? then Served(net.response)
        else Undefined;
    }
  }
}
