/**
 * The worker's `caches` global as an object: the origin's buckets, changed
 * in place by the Cache API calls the listeners make. Each call is one
 * atomic step; `State()` is the value the functions of `CacheState` take.
 */
module CacheApi {
  import opened Wrappers
  import opened Http
  import opened CacheState

  class CacheStorage {
    /** Bucket names in creation order, as `caches.keys()` lists them. */
    var names: seq<string>
    var buckets: map<string, Bucket>

    function State(): Store
      reads this
    {
      Store(names, buckets)
    }

    ghost predicate Valid()
      reads this
    {
      CacheState.Valid(State())
    }

    /** An origin with no buckets yet. */
    constructor ()
      ensures Valid() && State() == Store([], map[])
    {
      names := [];
      buckets := map[];
    }

    /** `caches.open(name)`: makes sure the bucket exists. */
    method Open(name: string)
      requires Valid()
      modifies this
      ensures Valid() && name in buckets
      ensures State() == CacheState.Open(old(State()), name)
    {
      if name !in buckets {
        names := names + [name];
        buckets := buckets[name := map[]];
      }
    }

    /** `cache.put(req, resp)` on the opened bucket `name`; rejected, changing nothing, unless a GET. */
    method Put(name: string, req: Request, resp: Response)
      requires Valid() && name in buckets
      modifies this
      ensures Valid() && names == old(names)
      ensures State() == OpenAndPut(old(State()), name, req, resp)
    {
      if req.verb == Get {
        buckets := buckets[name := buckets[name][req.url := resp]];
      }
    }

    /** `caches.delete(name)`, resolving to whether there was such a bucket. */
    method Delete(name: string) returns (deleted: bool)
      requires Valid()
      modifies this
      ensures Valid() && deleted == (name in old(buckets))
      ensures State() == CacheState.Delete(old(State()), name)
    {
      deleted := name in buckets;
      var next := CacheState.Delete(State(), name);
      names, buckets := next.names, next.buckets;
    }

    /**
     * `cache.addAll(urls)` on the opened bucket `name`: fetches every URL,
     * then stores all the responses, or none of them when any is refused.
     */
    method AddAll(name: string, urls: seq<Url>, net: Request -> NetOutcome) returns (ok: bool)
      requires Valid() && name in buckets
      modifies this
      ensures Valid() && ok == AddAllFetch(urls, net).Some?
      ensures State() == if ok then OpenAndPutAll(old(State()), name, AddAllFetch(urls, net).value) else old(State())
    {
      var entries := AddAllFetch(urls, net);
      ok := entries.Some?;
      if ok {
        buckets := buckets[name := buckets[name] + entries.value];
      }
    }
  }
}
