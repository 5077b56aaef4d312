/**
 * The worker's two lifecycle listeners as functions on the cache store:
 * `install` pre-caches the app shell into the current bucket, `activate`
 * deletes every other bucket.
 */
module Lifecycle {
  import opened Wrappers
  import opened Http
  import opened Config
  import opened CacheState

  function DropDotSlash(a: string): string {
    if |a| >= 2 && a[..2] == "./" then a[2..] else a
  }

  /** An app-shell path resolved against `base`, the URL of the worker's directory. */
  function AssetUrl(base: Url, asset: string): (u: Url)
    ensures u.host == base.host
    ensures base.path <= u.path
    ensures |asset| >= 2 && asset[..2] == "./" ==> u.path == base.path + asset[2..]
  {
    Url(base.host, base.path + DropDotSlash(asset))
  }

  /** The URLs that `cache.addAll(STATIC_ASSETS)` requests, in list order. */
  function AppShell(base: Url): (r: seq<Url>)
    ensures |r| == |StaticAssets|
    ensures forall k :: 0 <= k < |r| ==> r[k] == AssetUrl(base, StaticAssets[k])
  {
    seq(|StaticAssets|, k requires 0 <= k < |StaticAssets| => AssetUrl(base, StaticAssets[k]))
  }

  /** The four app-shell URLs are pairwise different, whatever the worker's directory. */
  lemma AppShellDistinct(base: Url)
    ensures forall i, j :: 0 <= i < j < |AppShell(base)| ==> AppShell(base)[i] != AppShell(base)[j]
  {
    var shell := AppShell(base);
    assert |DropDotSlash(StaticAssets[0])| == 0;
    assert |DropDotSlash(StaticAssets[1])| == 10;
    assert |DropDotSlash(StaticAssets[2])| == 8;
    assert |DropDotSlash(StaticAssets[3])| == 13;
    assert forall k :: 0 <= k < 4 ==> |shell[k].path| == |base.path| + |DropDotSlash(StaticAssets[k])|;
  }

  datatype Installed = Installed(store: Store, ok: bool)

  /**
   * The `install` listener: `caches.open(CACHE_NAME)`, then
   * `cache.addAll(STATIC_ASSETS)`; `ok` is false when the install fails.
   */
  function Install(st: Store, base: Url, net: Request -> NetOutcome): (r: Installed)
    ensures CacheName in r.store.buckets
    ensures forall n :: n != CacheName ==> BucketOf(r.store, n) == BucketOf(st, n)
    ensures !r.ok ==> BucketOf(r.store, CacheName) == BucketOf(st, CacheName)
    ensures Valid(st) ==> Valid(r.store)
  {
    match AddAllFetch(AppShell(base), net)
    case None => Installed(Open(st, CacheName), false)
    case Some(entries) => Installed(OpenAndPutAll(st, CacheName, entries), true)
  }

  /** Install succeeds exactly when every app-shell asset is fetched with an accepted response. */
  lemma InstallOkIff(st: Store, base: Url, net: Request -> NetOutcome)
    ensures Install(st, base, net).ok <==>
            forall a :: a in StaticAssets ==> AddAllAccepts(net(Request(Get, AssetUrl(base, a))))
  {
    var shell := AppShell(base);
    if forall a :: a in StaticAssets ==> AddAllAccepts(net(Request(Get, AssetUrl(base, a)))) {
      assert forall k :: 0 <= k < |shell| ==> StaticAssets[k] in StaticAssets;
    } else {
      var a :| a in StaticAssets && !AddAllAccepts(net(Request(Get, AssetUrl(base, a))));
      var k :| 0 <= k < |StaticAssets| && StaticAssets[k] == a;
      assert shell[k] == AssetUrl(base, a);
    }
  }

  /**
   * A successful install stores each app-shell asset under its URL with the
   * response fetched for it and leaves every other entry of the current
   * bucket as it was.
   */
  lemma InstallStoresAppShell(st: Store, base: Url, net: Request -> NetOutcome)
    requires Install(st, base, net).ok
    ensures forall a :: a in StaticAssets ==>
      var u := AssetUrl(base, a);
      u in BucketOf(Install(st, base, net).store, CacheName) &&
      BucketOf(Install(st, base, net).store, CacheName)[u] == net(Request(Get, u)).response
    ensures forall u :: u !in AppShell(base) ==>
      && (u in BucketOf(Install(st, base, net).store, CacheName) <==> u in BucketOf(st, CacheName))
      && (u in BucketOf(st, CacheName) ==> BucketOf(Install(st, base, net).store, CacheName)[u] == BucketOf(st, CacheName)[u])
  {
    var shell := AppShell(base);
    var entries := AddAllFetch(shell, net).value;
    assert BucketOf(Install(st, base, net).store, CacheName) == BucketOf(st, CacheName) + entries;
    forall a | a in StaticAssets
      ensures AssetUrl(base, a) in entries
    {
      var k :| 0 <= k < |StaticAssets| && StaticAssets[k] == a;
      assert shell[k] == AssetUrl(base, a);
    }
  }

  /** Installing into an empty store leaves one bucket holding exactly the four app-shell entries. */
  lemma InstallIntoEmptyStore(base: Url, net: Request -> NetOutcome)
    requires Install(Store([], map[]), base, net).ok
    ensures Install(Store([], map[]), base, net).store.names == [CacheName]
    ensures |BucketOf(Install(Store([], map[]), base, net).store, CacheName)| == 4
  {
    var shell := AppShell(base);
    var entries := AddAllFetch(shell, net).value;
    var b := BucketOf(Install(Store([], map[]), base, net).store, CacheName);
    assert b == BucketOf(Store([], map[]), CacheName) + entries;
    AppShellDistinct(base);
    KeysOfDistinctUrls(b, shell);
  }

  /** A map keyed by exactly the URLs of a list without repeats has one entry per element. */
  lemma {:induction false} KeysOfDistinctUrls(m: Bucket, s: seq<Url>)
    requires forall i, j :: 0 <= i < j < |s| ==> s[i] != s[j]
    requires forall u :: u in m <==> u in s
    ensures |m| == |s|
  {
    DistinctUrlsCount(s);
    assert m.Keys == set u | u in s;
  }

  lemma {:induction false} DistinctUrlsCount(s: seq<Url>)
    requires forall i, j :: 0 <= i < j < |s| ==> s[i] != s[j]
    ensures |set u | u in s| == |s|
  {
    if s != [] {
      DistinctUrlsCount(s[1..]);
      assert (set u | u in s) == (set u | u in s[1..]) + {s[0]};
    }
  }

  /** Installing twice with the same network answers is the same as installing once. */
  lemma InstallIdempotent(st: Store, base: Url, net: Request -> NetOutcome)
    ensures Install(Install(st, base, net).store, base, net) == Install(st, base, net)
  {
    var once := Install(st, base, net);
    match AddAllFetch(AppShell(base), net)
    case None =>
    case Some(entries) =>
      var b := BucketOf(st, CacheName);
      assert (b + entries) + entries == b + entries;
  }

  /** One callback of `keyList.map`: delete the bucket unless it is the current one. */
  function DeleteIfStale(st: Store, key: string): (r: Store)
    ensures key != CacheName ==> key !in r.buckets && key !in r.names
    ensures forall n :: n != key || n == CacheName ==> BucketOf(r, n) == BucketOf(st, n)
    ensures CacheName in r.buckets <==> CacheName in st.buckets
    ensures forall n :: n in r.names ==> n in st.names
    ensures Valid(st) ==> Valid(r)
  {
    if key != CacheName then Delete(st, key) else st
  }

  /** The deletions issued by `Promise.all(keyList.map(...))`, applied in list order. */
  function Sweep(st: Store, keys: seq<string>): (r: Store)
    ensures forall n :: n in r.buckets ==> n in st.buckets && BucketOf(r, n) == BucketOf(st, n)
    ensures forall n :: n in keys && n != CacheName ==> n !in r.buckets
    ensures CacheName in r.buckets <==> CacheName in st.buckets
    ensures Valid(st) ==> Valid(r)
    decreases |keys|
  {
    if keys == [] then st else Sweep(DeleteIfStale(st, keys[0]), keys[1..])
  }

  /** The `activate` listener: sweep over the bucket names `caches.keys()` lists. */
  function Activate(st: Store): (r: Store)
    ensures forall n :: n in r.buckets ==> n in st.buckets && BucketOf(r, n) == BucketOf(st, n)
    ensures forall n :: n in st.names && n != CacheName ==> n !in r.buckets
    ensures CacheName in r.buckets <==> CacheName in st.buckets
    ensures Valid(st) ==> Valid(r)
  {
    Sweep(st, st.names)
  }

  /** What activation is meant to leave: the current generation alone, with its entries. */
  function CurrentOnly(st: Store): Store {
    if CacheName in st.buckets then Store([CacheName], map[CacheName := st.buckets[CacheName]])
    else Store([], map[])
  }

  /** Sweeping over a list that names every stale bucket leaves only the current one. */
  lemma {:induction false} SweepKeepsCurrentOnly(st: Store, keys: seq<string>)
    requires Valid(st)
    requires forall n :: n in st.names && n != CacheName ==> n in keys
    ensures Sweep(st, keys) == CurrentOnly(st)
    decreases |keys|
  {
    if keys == [] {
      if |st.names| >= 2 {
        ListedAt(st.names, 1);
        assert false;
      }
      if CacheName in st.buckets {
        assert st.names == [CacheName];
        assert st.buckets == map[CacheName := st.buckets[CacheName]];
      } else {
        if |st.names| > 0 {
          ListedAt(st.names, 0);
          assert false;
        }
        assert st.buckets == map[];
      }
    } else {
      var next := DeleteIfStale(st, keys[0]);
      assert CurrentOnly(next) == CurrentOnly(st);
      SweepKeepsCurrentOnly(next, keys[1..]);
    }
  }

  /**
   * Brings the terms `s[0]` and `s[k]` into scope through a postcondition,
   * so that the impossible branches above end in a bare `assert false`.
   */
  lemma ListedAt(s: seq<string>, k: nat)
    requires k < |s|
    ensures s[0] in s && s[k] in s
  {
  }

  /** Activation leaves exactly the current bucket, with its entries, when it existed. */
  lemma ActivateLeavesCurrentOnly(st: Store)
    requires Valid(st)
    ensures Activate(st) == CurrentOnly(st)
  {
    SweepKeepsCurrentOnly(st, st.names);
  }

  /**
   * After activation no bucket other than `CACHE_NAME` is left, and the
   * current bucket is present exactly when it was before, with its entries.
   */
  lemma ActivateSweepsStale(st: Store)
    requires Valid(st)
    ensures Valid(Activate(st))
    ensures forall n :: n in Activate(st).buckets ==> n == CacheName
    ensures CacheName in Activate(st).buckets <==> CacheName in st.buckets
    ensures BucketOf(Activate(st), CacheName) == BucketOf(st, CacheName)
  {
    ActivateLeavesCurrentOnly(st);
  }

  /** Activating twice is the same as activating once. */
  lemma ActivateIdempotent(st: Store)
    requires Valid(st)
    ensures Activate(Activate(st)) == Activate(st)
  {
    ActivateLeavesCurrentOnly(st);
    ActivateLeavesCurrentOnly(Activate(st));
  }

  /** Once activated, every match is answered from the current bucket alone. */
  lemma ActivatedMatchesCurrent(st: Store, req: Request)
    requires Valid(st)
    ensures Match(Activate(st), req) ==
      if req.verb == Get && req.url in BucketOf(st, CacheName)
      then Some(BucketOf(st, CacheName)[req.url]) else None
  {
    ActivateLeavesCurrentOnly(st);
  }
}
