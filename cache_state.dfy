/**
 * The browser's cache storage as a value: named buckets in creation order,
 * each mapping a request URL to a stored response, and the Cache API
 * operations the worker calls, as functions on that value.
 */
module CacheState {
  import opened Wrappers
  import opened Http

  /** One named cache: request URL to stored response. */
  type Bucket = map<Url, Response>

  /** All buckets of the origin; `names` lists them in creation order. */
  datatype Store = Store(names: seq<string>, buckets: map<string, Bucket>)

  predicate Distinct(s: seq<string>) {
    forall i, j :: 0 <= i < j < |s| ==> s[i] != s[j]
  }

  /** Every bucket is listed exactly once in the creation order. */
  ghost predicate Valid(st: Store) {
    && Distinct(st.names)
    && (forall n :: n in st.names <==> n in st.buckets)
  }

  /** The contents of a bucket, empty when there is no such bucket. */
  function BucketOf(st: Store, name: string): Bucket {
    if name in st.buckets then st.buckets[name] else map[]
  }

  /** Bucket `name` exists and holds an entry for `url`. */
  predicate Holds(buckets: map<string, Bucket>, name: string, url: Url) {
    name in buckets && url in buckets[name]
  }

  /** The entry for `url` in the first bucket, in the order `names`, that holds one. */
  function FirstMatch(names: seq<string>, buckets: map<string, Bucket>, url: Url): (r: Option<Response>)
    ensures r.None? <==> forall k :: 0 <= k < |names| ==> !Holds(buckets, names[k], url)
    ensures r.Some? ==>
      exists k :: && 0 <= k < |names| && Holds(buckets, names[k], url)
                  && r.value == buckets[names[k]][url]
                  && forall j :: 0 <= j < k ==> !Holds(buckets, names[j], url)
  {
    if names == [] then
      None
    else if Holds(buckets, names[0], url) then
      Some(buckets[names[0]][url])
    else
      var r := FirstMatch(names[1..], buckets, url);
      assert forall k :: 0 < k < |names| ==> names[k] == names[1..][k - 1];
      r
  }

  /**
   * `caches.match(request)`: a GET request is answered from the oldest
   * bucket that holds its URL; any other method matches nothing.
   */
  function Match(st: Store, req: Request): (r: Option<Response>)
    ensures r.None? <==> req.verb != Get || forall n :: n in st.names ==> !Holds(st.buckets, n, req.url)
    ensures r.Some? ==> exists n :: n in st.names && Holds(st.buckets, n, req.url) && r.value == st.buckets[n][req.url]
  {
    if req.verb == Get then FirstMatch(st.names, st.buckets, req.url) else None
  }

  /** `caches.open(name)`: creates the bucket, empty and last in order, when it is missing. */
  function Open(st: Store, name: string): (r: Store)
    ensures name in r.buckets
    ensures forall n :: BucketOf(r, n) == BucketOf(st, n)
    ensures name in st.buckets ==> r == st
    ensures name !in st.buckets ==> r.names == st.names + [name]
    ensures Valid(st) ==> Valid(r)
  {
    if name in st.buckets then st else Store(st.names + [name], st.buckets[name := map[]])
  }

  /**
   * `caches.open(name).then(cache => cache.put(req, resp))`: the put
   * rejects a request that is not a GET, after the bucket was opened.
   */
  function OpenAndPut(st: Store, name: string, req: Request, resp: Response): (r: Store)
    ensures name in r.buckets && r.names == Open(st, name).names
    ensures BucketOf(r, name) == if req.verb == Get then BucketOf(st, name)[req.url := resp] else BucketOf(st, name)
    ensures forall n :: n != name ==> BucketOf(r, n) == BucketOf(st, n)
    ensures Valid(st) ==> Valid(r)
  {
    var ready := Open(st, name);
    if req.verb == Get then
      ready.(buckets := ready.buckets[name := ready.buckets[name][req.url := resp]])
    else
      ready
  }

  /** Opens bucket `name` and stores every entry of `entries` in it, replacing older ones. */
  function OpenAndPutAll(st: Store, name: string, entries: Bucket): (r: Store)
    ensures name in r.buckets && r.names == Open(st, name).names
    ensures BucketOf(r, name) == BucketOf(st, name) + entries
    ensures forall n :: n != name ==> BucketOf(r, n) == BucketOf(st, n)
    ensures Valid(st) ==> Valid(r)
  {
    var ready := Open(st, name);
    ready.(buckets := ready.buckets[name := ready.buckets[name] + entries])
  }

  /** `s` without `x`, the other elements kept in their order. */
  function Remove(s: seq<string>, x: string): seq<string> {
    if s == [] then []
    else if s[0] == x then Remove(s[1..], x)
    else [s[0]] + Remove(s[1..], x)
  }

  /** Removing `x` keeps exactly the elements other than `x`. */
  lemma {:induction false} RemoveMembers(s: seq<string>, x: string)
    ensures forall y :: y in Remove(s, x) <==> y in s && y != x
  {
    if s != [] {
      RemoveMembers(s[1..], x);
      assert s == [s[0]] + s[1..];
    }
  }

  /** Removing from a list without repeats leaves a list without repeats. */
  lemma {:induction false} RemoveDistinct(s: seq<string>, x: string)
    requires Distinct(s)
    ensures Distinct(Remove(s, x))
  {
    if s != [] {
      RemoveDistinct(s[1..], x);
      RemoveMembers(s[1..], x);
      assert s[0] !in s[1..];
    }
  }

  /** Removing an absent element changes nothing. */
  lemma {:induction false} RemoveAbsent(s: seq<string>, x: string)
    requires x !in s
    ensures Remove(s, x) == s
  {
    if s != [] {
      RemoveAbsent(s[1..], x);
      assert s == [s[0]] + s[1..];
    }
  }

  /**
   * In a list without repeats, removing a present `x` drops exactly the
   * position holding it and keeps the others in order.
   */
  lemma {:induction false} RemoveAt(s: seq<string>, x: string)
    requires Distinct(s) && x in s
    ensures exists i :: 0 <= i < |s| && s[i] == x && Remove(s, x) == s[..i] + s[i + 1..]
  {
    if s[0] == x {
      assert s[0] !in s[1..];
      RemoveAbsent(s[1..], x);
      assert s[..0] + s[1..] == s[1..];
    } else {
      assert x in s[1..];
      RemoveAt(s[1..], x);
      var rest := Remove(s[1..], x);
      var j :| 0 <= j < |s[1..]| && s[1..][j] == x && rest == s[1..][..j] + s[1..][j + 1..];
      assert s[..j + 1] + s[j + 2..] == [s[0]] + rest;
    }
  }

  /**
   * `caches.delete(name)`: removes the bucket and its entries; the other
   * names keep their creation order.
   */
  function Delete(st: Store, name: string): (r: Store)
    ensures name !in r.buckets && name !in r.names
    ensures forall n :: n != name ==> BucketOf(r, n) == BucketOf(st, n)
    ensures forall n :: n in r.names <==> n in st.names && n != name
    ensures name !in st.names ==> r.names == st.names
    ensures Valid(st) ==> Valid(r)
  {
    RemoveMembers(st.names, name);
    assert Distinct(st.names) ==> Distinct(Remove(st.names, name)) by {
      if Distinct(st.names) { RemoveDistinct(st.names, name); }
    }
    assert name !in st.names ==> Remove(st.names, name) == st.names by {
      if name !in st.names { RemoveAbsent(st.names, name); }
    }
    Store(Remove(st.names, name), st.buckets - {name})
  }

  /**
   * Deleting a listed bucket drops exactly its position from the creation
   * order; the other names keep their order.
   */
  lemma DeleteKeepsOrder(st: Store, name: string)
    requires Valid(st) && name in st.buckets
    ensures exists i :: && 0 <= i < |st.names| && st.names[i] == name
                        && Delete(st, name).names == st.names[..i] + st.names[i + 1..]
  {
    RemoveAt(st.names, name);
  }

  /**
   * `cache.addAll` accepts a fetched response only when its status is ok
   * (200 to 299) and not a partial 206.
   */
  predicate AddAllAccepts(o: NetOutcome) {
    o.Fetched? && 200 <= o.response.status <= 299 && o.response.status != 206
  }

  /**
   * The fetch half of `cache.addAll(urls)`: the entries to store when every
   * URL is fetched with an accepted response, and None, so that nothing is
   * stored, when any one of them is not.
   */
  function AddAllFetch(urls: seq<Url>, net: Request -> NetOutcome): (r: Option<Bucket>)
    ensures r.Some? <==> forall k :: 0 <= k < |urls| ==> AddAllAccepts(net(Request(Get, urls[k])))
    ensures r.Some? ==> forall u :: u in r.value <==> u in urls
    ensures r.Some? ==> forall u :: u in r.value ==> r.value[u] == net(Request(Get, u)).response
  {
    if urls == [] then
      Some(map[])
    else
      var first := net(Request(Get, urls[0]));
      var rest := AddAllFetch(urls[1..], net);
      assert forall k :: 0 < k < |urls| ==> urls[k] == urls[1..][k - 1];
      if AddAllAccepts(first) && rest.Some? then
        Some(rest.value[urls[0] := first.response])
      else
        None
  }
}
