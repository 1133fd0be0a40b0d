/** Which inventory a load caches for a group, and when it reads none. */
module IntersphinxFetch {
  import opened Options
  import opened Text
  import opened Intersphinx
  import opened IntersphinxTheorems
  import opened IntersphinxOrder

  // ---------------------------------------------------------------------------
  // Remote locations

  /** A place is remote if its own text holds "://", or, when it is not given, the URI's does. */
  ghost predicate IsRemote(uri: string, inv: string) {
    Contains(if inv == "" then uri else inv, "://")
  }

  lemma RemoteChars(s: string, i: int)
    requires OccursAt(s, "://", i)
    ensures s[i] == ':' && s[i + 1] == '/' && s[i + 2] == '/'
  {
    assert s[i..i + 3][0] == ':' && s[i..i + 3][1] == '/' && s[i..i + 3][2] == '/';
  }

  /** Appending a file name neither makes nor removes the text. */
  lemma RemoteWithFile(uri: string, tail: string)
    requires ':' !in tail && tail != ""
    requires if uri == "" || uri[|uri| - 1] == '/' then tail[0] != '/' else |tail| >= 2 && tail[1] != '/'
    ensures Contains(uri + tail, "://") <==> Contains(uri, "://")
  {
    var s := uri + tail;
    forall i ensures OccursAt(s, "://", i) <==> OccursAt(uri, "://", i) {
      if i + 3 <= |uri| {
        OccursInPrefix(uri, tail, "://", i);
      } else if OccursAt(s, "://", i) {
        RemoteChars(s, i);
        assert false;
      }
    }
  }

  lemma RemoteLocation(uri: string, inv: string)
    ensures Remote(Location(uri, inv)) <==> IsRemote(uri, inv)
  {
    if inv == "" {
      if uri == "" || uri[|uri| - 1] == '/' {
        RemoteWithFile(uri, INVENTORY_FILENAME);
      } else {
        RemoteWithFile(uri, "/" + INVENTORY_FILENAME);
        assert uri + "/" + INVENTORY_FILENAME == uri + ("/" + INVENTORY_FILENAME);
      }
    }
  }

  /** A place that is not given is "objects.inv" below the URI, whether that ends with a slash or not. */
  lemma DefaultLocation(uri: string)
    requires uri != "" && uri[|uri| - 1] != '/'
    ensures Location(uri, "") == Location(uri + "/", "") == uri + "/objects.inv" && Location("", "") == "objects.inv"
  {
    assert uri + "/" + INVENTORY_FILENAME == uri + "/objects.inv";
  }

  // ---------------------------------------------------------------------------
  // What is read

  /** The cached inventory of a URI is missing, or older than `limit` days. */
  ghost predicate Expired<X>(cache: seq<Cached<X>>, uri: string, now: int, limit: int) {
    forall c :: c in cache && c.uri == uri ==> c.time < now - 86400 * limit
  }

  /** The i-th place of a group has to be read, and gives an inventory that is not empty. */
  ghost predicate Gives<X>(cache: seq<Cached<X>>, g: Group<X>, now: int, limit: int, i: int) {
    && 0 <= i < |g.attempts|
    && g.attempts[i].outcome.Some? && g.attempts[i].outcome.value != map[]
    && (!IsRemote(g.uri, g.attempts[i].inv) || Expired(cache, g.uri, now, limit))
  }

  /** The first place that gives one. */
  ghost predicate GivesFirst<X>(cache: seq<Cached<X>>, g: Group<X>, now: int, limit: int, i: int) {
    Gives(cache, g, now, limit, i) && forall j :: 0 <= j < i ==> !Gives(cache, g, now, limit, j)
  }

  lemma {:induction false} FindByUri<X>(cache: seq<Cached<X>>, c: Cached<X>)
    requires UniqueUris(cache) && c in cache
    ensures Find(cache, c.uri) == Some(c)
    decreases cache
  {
    if c != cache[0] {
      var i :| 0 < i < |cache| && cache[i] == c;
      assert cache[0].uri != cache[i].uri;
      assert c == cache[1..][i - 1];
      FindByUri(cache[1..], c);
    }
  }

  lemma MustReadMeans<X>(cache: seq<Cached<X>>, uri: string, inv: string, now: int, limit: int)
    requires UniqueUris(cache)
    ensures MustRead(cache, uri, Location(uri, inv), now - 86400 * limit) <==>
            !IsRemote(uri, inv) || Expired(cache, uri, now, limit)
  {
    RemoteLocation(uri, inv);
    forall c | c in cache && c.uri == uri ensures Find(cache, uri) == Some(c) { FindByUri(cache, c); }
  }

  lemma {:induction false} FirstLoadedMeans<X>(cache: seq<Cached<X>>, g: Group<X>, now: int, limit: int, from: nat)
    requires UniqueUris(cache) && from <= |g.attempts|
    requires forall j :: 0 <= j < from ==> !Gives(cache, g, now, limit, j)
    ensures var loaded := FirstLoaded(cache, g.uri, g.attempts[from..], now - 86400 * limit);
            && (forall i :: GivesFirst(cache, g, now, limit, i) ==> loaded == g.attempts[i].outcome)
            && (loaded.Some? ==> exists i :: GivesFirst(cache, g, now, limit, i))
    decreases |g.attempts| - from
  {
    if from < |g.attempts| {
      MustReadMeans(cache, g.uri, g.attempts[from].inv, now, limit);
      assert g.attempts[from..][1..] == g.attempts[from + 1..];
      if Gives(cache, g, now, limit, from) {
        assert GivesFirst(cache, g, now, limit, from);
      } else {
        FirstLoadedMeans(cache, g, now, limit, from + 1);
      }
    }
  }

  lemma LoadedMeans<X>(cache: seq<Cached<X>>, g: Group<X>, now: int, limit: int)
    requires UniqueUris(cache)
    ensures var loaded := FirstLoaded(cache, g.uri, g.attempts, now - 86400 * limit);
            && (forall i :: GivesFirst(cache, g, now, limit, i) ==> loaded == g.attempts[i].outcome)
            && (loaded.Some? <==> exists i :: GivesFirst(cache, g, now, limit, i))
  {
    assert g.attempts[0..] == g.attempts;
    FirstLoadedMeans(cache, g, now, limit, 0);
  }

  /**
   * One group: if a place gives an inventory, the first that does is cached with
   * the group's name and the time of the load, in the place of the old one or at
   * the end; else nothing changes, and no update is reported.
   */
  lemma {:induction false} GroupCaches<X>(cache: seq<Cached<X>>, g: Group<X>, now: int, limit: int, i: int)
    requires UniqueUris(cache)
    ensures var load := Load([g], now, limit);
            && (GivesFirst(cache, g, now, limit, i) ==>
                  var e := Cached(g.uri, g.name, now, g.attempts[i].outcome.value);
                  && UpdatesAny(cache, [g], now, load.CacheTime())
                  && ((forall c :: c in cache ==> c.uri != g.uri) ==> LoadedCache(cache, load) == cache + [e])
                  && (forall k :: 0 <= k < |cache| && cache[k].uri == g.uri ==>
                        LoadedCache(cache, load) == cache[k := e]))
            && ((forall j :: !GivesFirst(cache, g, now, limit, j)) ==>
                  LoadedCache(cache, load) == cache && !UpdatesAny(cache, [g], now, load.CacheTime()))
  {
    var load := Load([g], now, limit);
    var ct := load.CacheTime();
    LoadedMeans(cache, g, now, limit);
    OneGroup(cache, g, now, ct);
    if GivesFirst(cache, g, now, limit, i) {
      var e := Cached(g.uri, g.name, now, g.attempts[i].outcome.value);
      PutMeans(cache, e);
    }
  }

  lemma OneGroup<X>(cache: seq<Cached<X>>, g: Group<X>, now: int, cacheTime: int)
    ensures FetchedAll(cache, [g], now, cacheTime) == FetchedGroup(cache, g, now, cacheTime)
    ensures UpdatesAny(cache, [g], now, cacheTime) <==> UpdatesGroup(cache, g, cacheTime)
  {
    assert [g][1..] == [];
    var cache1 := FetchedGroup(cache, g, now, cacheTime);
    assert FetchedAll(cache, [g], now, cacheTime) == FetchedAll(cache1, [], now, cacheTime);
  }

  lemma {:induction false} PutMeans<X>(cache: seq<Cached<X>>, e: Cached<X>)
    requires UniqueUris(cache)
    ensures (forall c :: c in cache ==> c.uri != e.uri) ==> Put(cache, e) == cache + [e]
    ensures forall k :: 0 <= k < |cache| && cache[k].uri == e.uri ==> Put(cache, e) == cache[k := e]
  {
    if cache != [] && cache[0].uri != e.uri {
      PutMeans(cache[1..], e);
      forall k | 0 <= k < |cache| && cache[k].uri == e.uri ensures Put(cache, e) == cache[k := e] {
        assert cache[k] == cache[1..][k - 1];
        assert cache[k := e] == [cache[0]] + cache[1..][k - 1 := e];
      }
      assert cache + [e] == [cache[0]] + (cache[1..] + [e]);
    } else if cache != [] {
      assert forall k :: 0 <= k < |cache| && cache[k].uri == e.uri ==> k == 0;
      assert [e] + cache[1..] == cache[0 := e];
    }
  }

  lemma FirstGiven<X>(cache: seq<Cached<X>>, g: Group<X>, now: int, limit: int, i: int, cacheTime: int)
    requires UniqueUris(cache) && cacheTime == now - 86400 * limit && GivesFirst(cache, g, now, limit, i)
    ensures 0 <= i < |g.attempts| && g.attempts[i].outcome.Some?
    ensures FirstLoaded(cache, g.uri, g.attempts, cacheTime) == g.attempts[i].outcome
  {
    LoadedMeans(cache, g, now, limit);
  }

  lemma NoneGiven<X>(cache: seq<Cached<X>>, g: Group<X>, now: int, limit: int, cacheTime: int)
    requires UniqueUris(cache) && cacheTime == now - 86400 * limit && forall j :: !GivesFirst(cache, g, now, limit, j)
    ensures FirstLoaded(cache, g.uri, g.attempts, cacheTime).None?
  {
    LoadedMeans(cache, g, now, limit);
  }

  /**
   * A whole load: what is cached for the URI of a group that no other group has
   * is the first inventory that its places give, else what was cached before.
   */
  lemma {:induction false} LoadCaches<X>(cache: seq<Cached<X>>, load: Load<X>, g: Group<X>, i: int)
    requires UniqueUris(cache) && ForUri(load.groups, g.uri) == [g]
    ensures var found := Find(LoadedCache(cache, load), g.uri);
            && (GivesFirst(cache, g, load.now, load.cacheLimit, i) ==>
                  found == Some(Cached(g.uri, g.name, load.now, g.attempts[i].outcome.value)))
            && ((forall j :: !GivesFirst(cache, g, load.now, load.cacheLimit, j)) ==> found == Find(cache, g.uri))
  {
    OwnGroupDecides(cache, load, g);
    if GivesFirst(cache, g, load.now, load.cacheLimit, i) {
      FirstGiven(cache, g, load.now, load.cacheLimit, i, load.CacheTime());
    } else if forall j :: !GivesFirst(cache, g, load.now, load.cacheLimit, j) {
      NoneGiven(cache, g, load.now, load.cacheLimit, load.CacheTime());
    }
  }

  lemma {:induction false} OwnGroupDecides<X>(cache: seq<Cached<X>>, load: Load<X>, g: Group<X>)
    requires ForUri(load.groups, g.uri) == [g]
    ensures var loaded := FirstLoaded(cache, g.uri, g.attempts, load.CacheTime());
            Find(LoadedCache(cache, load), g.uri) ==
            if loaded.Some? then Some(Cached(g.uri, g.name, load.now, loaded.value)) else Find(cache, g.uri)
  {
    EachGroupDecides(cache, load.groups, load.now, load.CacheTime(), g.uri);
  }

  lemma {:induction false} UpdatesGroupLocal<X>(a: seq<Cached<X>>, b: seq<Cached<X>>, g: Group<X>, cacheTime: int)
    requires Find(a, g.uri) == Find(b, g.uri)
    ensures UpdatesGroup(a, g, cacheTime) <==> UpdatesGroup(b, g, cacheTime)
  {
    FirstLoadedLocal(a, b, g.uri, g.attempts, cacheTime);
  }

  lemma {:induction false} UpdatesAnyIff<X>(cache: seq<Cached<X>>, groups: seq<Group<X>>, now: int, cacheTime: int)
    requires DistinctUris(groups)
    ensures UpdatesAny(cache, groups, now, cacheTime) <==> exists g :: g in groups && UpdatesGroup(cache, g, cacheTime)
    decreases |groups|
  {
    if groups != [] {
      var cache1 := FetchedGroup(cache, groups[0], now, cacheTime);
      FirstForUri(groups);
      UpdatesAnyIff(cache1, groups[1..], now, cacheTime);
      forall g | g in groups[1..] ensures UpdatesGroup(cache1, g, cacheTime) <==> UpdatesGroup(cache, g, cacheTime) {
        FetchedGroupFind(cache, cache, groups[0], now, cacheTime, g.uri);
        UpdatesGroupLocal(cache1, cache, g, cacheTime);
      }
      assert forall g :: g in groups <==> g == groups[0] || g in groups[1..];
    }
  }

  /** A load rebuilds the inventories exactly if some group gives an inventory. */
  lemma LoadUpdatesIff<X>(cache: seq<Cached<X>>, load: Load<X>)
    requires UniqueUris(cache) && DistinctUris(load.groups)
    ensures UpdatesAny(cache, load.groups, load.now, load.CacheTime()) <==>
            exists g, i :: g in load.groups && GivesFirst(cache, g, load.now, load.cacheLimit, i)
  {
    UpdatesAnyIff(cache, load.groups, load.now, load.CacheTime());
    forall g | g in load.groups
      ensures UpdatesGroup(cache, g, load.CacheTime()) <==>
              exists i :: GivesFirst(cache, g, load.now, load.cacheLimit, i)
    {
      LoadedMeans(cache, g, load.now, load.cacheLimit);
    }
  }
}
