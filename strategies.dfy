/**
 * The `fetch` listener as a function on the cache store: cache-first for
 * external dependencies, stale-while-revalidate for everything else. The
 * network is the outcome `net` of the one `fetch(e.request)` the listener
 * may issue; the background `cache.put` is taken to finish within the step.
 */
module Strategies {
  import opened Wrappers
  import opened Http
  import opened Config
  import opened Routing
  import opened CacheState

  /** The external branch stores a response only when it is a 200 of type cors, basic or opaque. */
  function Cacheable(r: Response): (ok: bool)
    ensures ok <==> r.status == 200 && r.rtype != Default && r.rtype != OpaqueRedirect
  {
    r.status == 200 && (r.rtype == Cors || r.rtype == Basic || r.rtype == Opaque)
  }

  /** What one intercepted request produces: the reply, whether the network was asked, the new store. */
  datatype Handled = Handled(reply: Reply, fetched: bool, store: Store)

  /** Cache first, then network; a cacheable network response is stored in the current bucket. */
  function CacheFirst(st: Store, req: Request, net: NetOutcome): (r: Handled)
    ensures r.fetched <==> Match(st, req).None?
    ensures Match(st, req).Some? ==> r.reply == Served(Match(st, req).value) && r.store == st
    ensures Match(st, req).None? && net.Fetched? ==> r.reply == Served(net.response)
    ensures Match(st, req).None? && net.NetworkError? ==> r.reply == Rejected
    ensures r.store == st || (net.Fetched? && Cacheable(net.response) &&
                              r.store == OpenAndPut(st, CacheName, req, net.response))
  {
    match Match(st, req)
    case Some(cached) => Handled(Served(cached), false, st)
    case None =>
      match net
      case NetworkError => Handled(Rejected, true, st)
      case Fetched(resp) =>
        if Cacheable(resp) then Handled(Served(resp), true, OpenAndPut(st, CacheName, req, resp))
        else Handled(Served(resp), true, st)
  }

  /**
   * Stale-while-revalidate: the cached copy if any, else the network
   * result; a 200 from the network always refreshes the current bucket, and
   * a network failure is swallowed (the reply is then `undefined`).
   */
  function StaleWhileRevalidate(st: Store, req: Request, net: NetOutcome): (r: Handled)
    ensures r.fetched
    ensures Match(st, req).Some? ==> r.reply == Served(Match(st, req).value)
    ensures Match(st, req).None? && net.Fetched? ==> r.reply == Served(net.response)
    ensures Match(st, req).None? && net.NetworkError? ==> r.reply == Undefined
    ensures net.Fetched? && net.response.status == 200 ==> r.store == OpenAndPut(st, CacheName, req, net.response)
    ensures !(net.Fetched? && net.response.status == 200) ==> r.store == st
  {
    var cached := Match(st, req);
    var after :=
      if net.Fetched? && net.response.status == 200 then OpenAndPut(st, CacheName, req, net.response)
      else st;
    var reply :=
      if cached.Some? then Served(cached.value)
      else if net.Fetched? then Served(net.response)
      else Undefined;
    Handled(reply, true, after)
  }

  /** The `fetch` listener: route by host name, then apply that route's strategy. */
  function HandleFetch(st: Store, req: Request, net: NetOutcome): (r: Handled)
    ensures r.fetched <==> Classify(req.url) == Local || Match(st, req).None?
    ensures Match(st, req).Some? ==> r.reply == Served(Match(st, req).value)
    ensures Match(st, req).None? && net.Fetched? ==> r.reply == Served(net.response)
    ensures Match(st, req).None? && net.NetworkError? ==>
      r.reply == if Classify(req.url) == External then Rejected else Undefined
    ensures r.store == st || (net.Fetched? && net.response.status == 200 &&
                              r.store == OpenAndPut(st, CacheName, req, net.response))
  {
    if Classify(req.url) == External then CacheFirst(st, req, net) else StaleWhileRevalidate(st, req, net)
  }

  /** An external request found in the cache is answered from it, without the network and without a write. */
  lemma ExternalHitSkipsNetwork(st: Store, req: Request, net: NetOutcome)
    requires Classify(req.url) == External && Match(st, req).Some?
    ensures HandleFetch(st, req, net) == Handled(Served(Match(st, req).value), false, st)
  {
  }

  /**
   * On an external miss the network response is returned unchanged; it is
   * stored only when cacheable, and then the next lookup of the request
   * finds it.
   */
  lemma ExternalMissStoresCacheable(st: Store, req: Request, resp: Response)
    requires Valid(st)
    requires Classify(req.url) == External && Match(st, req).None?
    ensures HandleFetch(st, req, Fetched(resp)).reply == Served(resp)
    ensures HandleFetch(st, req, Fetched(resp)).fetched
    ensures !Cacheable(resp) ==> HandleFetch(st, req, Fetched(resp)).store == st
    ensures Cacheable(resp) && req.verb == Get ==> Match(HandleFetch(st, req, Fetched(resp)).store, req) == Some(resp)
  {
    if Cacheable(resp) && req.verb == Get {
      MatchAfterPut(st, req, resp);
    }
  }

  /**
   * Once an external miss stored a cacheable response, the same request is
   * served from the cache whatever the network would say, with no fetch.
   */
  lemma ExternalSecondRequestFromCache(st: Store, req: Request, resp: Response, later: NetOutcome)
    requires Valid(st)
    requires Classify(req.url) == External && req.verb == Get && Match(st, req).None? && Cacheable(resp)
    ensures var after := HandleFetch(st, req, Fetched(resp)).store;
            HandleFetch(after, req, later) == Handled(Served(resp), false, after)
  {
    MatchAfterPut(st, req, resp);
  }

  /** A network failure on an external miss rejects, and nothing is stored. */
  lemma ExternalFailureRejects(st: Store, req: Request)
    requires Classify(req.url) == External && Match(st, req).None?
    ensures HandleFetch(st, req, NetworkError) == Handled(Rejected, true, st)
  {
  }

  /**
   * A local request always goes to the network; a 200 overwrites the
   * request's entry in the current bucket and any other answer, or a
   * failure, leaves the store as it was.
   */
  lemma LocalRevalidates(st: Store, req: Request, net: NetOutcome)
    requires Classify(req.url) == Local
    ensures HandleFetch(st, req, net).fetched
    ensures net.Fetched? && net.response.status == 200 && req.verb == Get ==>
      BucketOf(HandleFetch(st, req, net).store, CacheName) == BucketOf(st, CacheName)[req.url := net.response]
    ensures !(net.Fetched? && net.response.status == 200) ==> HandleFetch(st, req, net).store == st
  {
  }

  /** A local request that is not cached and whose fetch fails resolves to `undefined`, storing nothing. */
  lemma LocalFailureWithoutCache(st: Store, req: Request)
    requires Classify(req.url) == Local && Match(st, req).None?
    ensures HandleFetch(st, req, NetworkError) == Handled(Undefined, true, st)
  {
  }

  /**
   * With only the current bucket left (after activation), a local request
   * holding an older copy `a` is answered with `a` while a fresh 200 `b` is
   * stored, and the next request for it is answered with `b`.
   */
  lemma LocalServesStaleThenFresh(st: Store, req: Request, b: Response, later: NetOutcome)
    requires Valid(st) && forall n :: n in st.buckets ==> n == CacheName
    requires Classify(req.url) == Local && req.verb == Get && Match(st, req).Some?
    requires b.status == 200
    ensures HandleFetch(st, req, Fetched(b)).reply == Served(Match(st, req).value)
    ensures HandleFetch(HandleFetch(st, req, Fetched(b)).store, req, later).reply == Served(b)
  {
    MatchAfterPut(st, req, b);
  }

  /** A response whose status is not 200 is never stored, on either route. */
  lemma Non200NeverStored(st: Store, req: Request, resp: Response)
    requires resp.status != 200
    ensures HandleFetch(st, req, Fetched(resp)).store == st
  {
  }

  /**
   * Opaque responses carry status 0, so the `opaque` alternative of the
   * external branch's type test never lets one through: only cors and basic
   * responses are ever stored by that branch.
   */
  lemma OpaqueNeverCacheable(resp: Response)
    requires WellFormed(resp)
    ensures Cacheable(resp) ==> resp.rtype == Cors || resp.rtype == Basic
  {
  }

  /**
   * Every write of the listener touches only the request's URL in the
   * current bucket: no other bucket and no other entry changes, and the
   * only bucket that can appear is the current one.
   */
  lemma FetchTouchesOnlyRequestEntry(st: Store, req: Request, net: NetOutcome)
    requires Valid(st)
    ensures Valid(HandleFetch(st, req, net).store)
    ensures forall n :: n != CacheName ==> BucketOf(HandleFetch(st, req, net).store, n) == BucketOf(st, n)
    ensures BucketOf(HandleFetch(st, req, net).store, CacheName) - {req.url} == BucketOf(st, CacheName) - {req.url}
    ensures HandleFetch(st, req, net).store.names in [st.names, st.names + [CacheName]]
  {
    var after := HandleFetch(st, req, net).store;
    if after != st {
      PutTouchesOnlyRequestEntry(st, req, net.response);
    }
  }

  /** The one write a fetch can make changes only the request's entry of `CACHE_NAME`. */
  lemma PutTouchesOnlyRequestEntry(st: Store, req: Request, resp: Response)
    requires Valid(st)
    ensures Valid(OpenAndPut(st, CacheName, req, resp))
    ensures BucketOf(OpenAndPut(st, CacheName, req, resp), CacheName) - {req.url} == BucketOf(st, CacheName) - {req.url}
    ensures OpenAndPut(st, CacheName, req, resp).names in [st.names, st.names + [CacheName]]
  {
    var b := BucketOf(st, CacheName);
    if req.verb == Get {
      assert b[req.url := resp] - {req.url} == b - {req.url};
    }
  }

  /**
   * Storing `resp` for a GET request whose URL no other bucket holds makes
   * the next match of that request return `resp`.
   */
  lemma MatchAfterPut(st: Store, req: Request, resp: Response)
    requires Valid(st) && req.verb == Get
    requires forall n :: n in st.names && n != CacheName ==> !Holds(st.buckets, n, req.url)
    ensures Match(OpenAndPut(st, CacheName, req, resp), req) == Some(resp)
  {
    var after := OpenAndPut(st, CacheName, req, resp);
    assert CacheName in after.names;
    assert Holds(after.buckets, CacheName, req.url);
    forall n | n in after.names && n != CacheName
      ensures !Holds(after.buckets, n, req.url)
    {
      assert BucketOf(after, n) == BucketOf(st, n);
    }
  }
}
