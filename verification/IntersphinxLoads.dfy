/** What the inventory index keeps over a run of loads. */
module IntersphinxLoads {
  import opened Options
  import opened Intersphinx
  import opened IntersphinxOrder

  /** Two named inventories of the same name and time are the same. */
  ghost predicate TimesTell<X>(cache: seq<Cached<X>>) {
    forall c, d :: c in cache && d in cache && c.name != "" && c.name == d.name && c.time == d.time ==> c == d
  }

  ghost predicate Before<X>(cache: seq<Cached<X>>, now: int) {
    forall c :: c in cache ==> c.time < now
  }

  ghost predicate UpTo<X>(cache: seq<Cached<X>>, now: int) {
    forall c :: c in cache ==> c.time <= now
  }

  /** No inventory of this name was cached in this load. */
  ghost predicate NotYet<X>(cache: seq<Cached<X>>, name: string, now: int) {
    forall c :: c in cache && c.name == name ==> c.time < now
  }

  /** The groups have different names, as keys of a dictionary do; several may have none. */
  ghost predicate DistinctNames<X>(groups: seq<Group<X>>) {
    forall i, j :: 0 <= i < j < |groups| && groups[i].name != "" ==> groups[i].name != groups[j].name
  }

  lemma FetchedGroupTimes<X>(cache: seq<Cached<X>>, g: Group<X>, now: int, cacheTime: int)
    requires TimesTell(cache) && UpTo(cache, now) && (g.name != "" ==> NotYet(cache, g.name, now))
    ensures var cache1 := FetchedGroup(cache, g, now, cacheTime);
            TimesTell(cache1) && UpTo(cache1, now)
    ensures forall name :: name != g.name && NotYet(cache, name, now) ==>
              NotYet(FetchedGroup(cache, g, now, cacheTime), name, now)
  {
    var inv := FirstLoaded(cache, g.uri, g.attempts, cacheTime);
    if inv.Some? {
      var e := Cached(g.uri, g.name, now, inv.value);
      forall c | c in Put(cache, e) ensures c == e || c in cache { PutMembers(cache, e, c); }
    }
  }

  lemma {:induction false} FetchedAllTimes<X>(cache: seq<Cached<X>>, groups: seq<Group<X>>, now: int, cacheTime: int)
    requires TimesTell(cache) && UpTo(cache, now) && DistinctNames(groups)
    requires forall i :: 0 <= i < |groups| && groups[i].name != "" ==> NotYet(cache, groups[i].name, now)
    ensures TimesTell(FetchedAll(cache, groups, now, cacheTime)) && UpTo(FetchedAll(cache, groups, now, cacheTime), now)
    decreases |groups|
  {
    if groups != [] {
      var cache1, rest := FetchedGroup(cache, groups[0], now, cacheTime), groups[1..];
      FetchedGroupTimes(cache, groups[0], now, cacheTime);
      forall i | 0 <= i < |rest| && rest[i].name != "" ensures NotYet(cache1, rest[i].name, now) {
        assert rest[i] == groups[i + 1] && NotYet(cache, groups[i + 1].name, now);
      }
      FetchedAllTimes(cache1, rest, now, cacheTime);
    }
  }

  ghost function LoadedAll<X>(s: Index<X>, loads: seq<Load<X>>, h: map<X, Entries>): Index<X>
    decreases |loads|
  {
    if loads == [] then s else LoadedAll(Loaded(s, loads[0], h), loads[1..], h)
  }

  ghost predicate SomeLoadRaises<X>(s: Index<X>, loads: seq<Load<X>>, h: map<X, Entries>)
    decreases |loads|
  {
    loads != [] && (Raises(s.cache, loads[0], h) || SomeLoadRaises(Loaded(s, loads[0], h), loads[1..], h))
  }

  /** Loads at different seconds, each with differently named groups. */
  ghost predicate Successive<X>(loads: seq<Load<X>>) {
    && (forall i :: 0 <= i < |loads| ==> DistinctNames(loads[i].groups))
    && (forall i, j :: 0 <= i < j < |loads| ==> loads[i].now < loads[j].now)
  }

  lemma OneLoadSucceeds<X>(s: Index<X>, load: Load<X>, h: map<X, Entries>)
    requires s.synced && TimesTell(s.cache) && Before(s.cache, load.now) && DistinctNames(load.groups)
    ensures var s' := Loaded(s, load, h);
            !Raises(s.cache, load, h) && s'.synced && TimesTell(s'.cache) && UpTo(s'.cache, load.now)
  {
    FetchedAllTimes(s.cache, load.groups, load.now, load.CacheTime());
    var cache := LoadedCache(s.cache, load);
    forall c, d | c in cache && d in cache ensures !Incomparable(c, d, h) {}
  }

  /** Over every run of successive loads none raises, and both inventories are always the merge of the cache. */
  lemma {:induction false} EveryLoadSucceeds<X>(s: Index<X>, loads: seq<Load<X>>, h: map<X, Entries>)
    requires s.synced && TimesTell(s.cache) && Successive(loads)
    requires loads != [] ==> Before(s.cache, loads[0].now)
    ensures !SomeLoadRaises(s, loads, h) && LoadedAll(s, loads, h).synced
    decreases |loads|
  {
    if loads != [] {
      OneLoadSucceeds(s, loads[0], h);
      var rest := loads[1..];
      assert forall i :: 0 <= i < |rest| ==> rest[i] == loads[i + 1];
      EveryLoadSucceeds(Loaded(s, loads[0], h), rest, h);
    }
  }

  lemma LoadOneGroup<X>(cache: seq<Cached<X>>, name: string, uri: string, inv: map<string, X>)
    requires Find(cache, uri).None? && inv != map[]
    ensures var load := Load([Group(name, uri, [Attempt("", Some(inv))])], 0, 0);
            && LoadedCache(cache, load) == Put(cache, Cached(uri, name, 0, inv))
            && UpdatesAny(cache, load.groups, load.now, load.CacheTime())
  {
    var g := Group(name, uri, [Attempt("", Some(inv))]);
    assert [g][1..] == [];
    assert FirstLoaded(cache, uri, g.attempts, 0) == Some(inv);
    assert FetchedAll(cache, [g], 0, 0) == FetchedAll(FetchedGroup(cache, g, 0, 0), [], 0, 0);
  }

  /** Two loads in the same second that fetch different inventories under one name: the second one raises. */
  lemma SameSecondRaises<X>(
    name: string, u: string, v: string, a: map<string, X>, b: map<string, X>, h: map<X, Entries>)
    requires name != "" && u != v && a != map[] && b != map[] && InvOf(a, h) != InvOf(b, h)
    ensures var first := Load([Group(name, u, [Attempt("", Some(a))])], 0, 0);
            var second := Load([Group(name, v, [Attempt("", Some(b))])], 0, 0);
            && SomeLoadRaises(Index([], true), [first, second], h)
            && !LoadedAll(Index([], true), [first, second], h).synced
  {
    var g1, g2 := Group(name, u, [Attempt("", Some(a))]), Group(name, v, [Attempt("", Some(b))]);
    var first, second := Load([g1], 0, 0), Load([g2], 0, 0);
    var e1, e2 := Cached(u, name, 0, a), Cached(v, name, 0, b);
    var s0: Index<X> := Index([], true);
    LoadOneGroup(s0.cache, name, u, a);
    var s1 := Loaded(s0, first, h);
    assert s1.cache == [e1];
    LoadOneGroup(s1.cache, name, v, b);
    var s2 := Loaded(s1, second, h);
    assert s2.cache == [e1, e2];
    assert Incomparable(e1, e2, h);
    assert [first, second][1..] == [second] && [second][1..] == [];
    assert Raises(s1.cache, second, h);
    assert LoadedAll(s0, [first, second], h) == LoadedAll(s1, [second], h) == LoadedAll(s2, [], h);
    assert SomeLoadRaises(s1, [second], h);
  }
}
