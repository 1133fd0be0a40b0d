/**
 * The order in which the concurrent fetches of one load complete does not
 * matter for the main inventory, as long as the unnamed groups keep theirs.
 */
module IntersphinxOrder {
  import opened Options
  import opened Intersphinx
  import opened IntersphinxTheorems

  // ---------------------------------------------------------------------------
  // Caches that differ in the order of the named inventories

  /** The same inventories, with the unnamed ones in the same order. */
  ghost predicate SameUpToNamedOrder<X>(a: seq<Cached<X>>, b: seq<Cached<X>>) {
    && Unnamed(a) == Unnamed(b)
    && (forall c :: c in a && c.name != "" ==> c in b)
    && (forall c :: c in b && c.name != "" ==> c in a)
  }

  lemma NamedLastSame<X>(a: seq<Cached<X>>, b: seq<Cached<X>>, h: map<X, Entries>, t: string, o: string)
    requires SameUpToNamedOrder(a, b) && Sortable(b, h)
    ensures Last(SortedNamed(a), h, t, o).Some? ==> Last(SortedNamed(b), h, t, o) == Last(SortedNamed(a), h, t, o)
  {
    var s := SortedNamed(a);
    var k := LastHolder(s, h, t, o);
    if k >= 0 {
      OrderMembers(a, s[k]);
      SortedNamedAscending(a);
      forall c | c in b && c.name != "" && Says(c, h, t, o).Some? ensures AtMost(c, s[k]) {
        OrderMembers(a, c);
        var j :| 0 <= j < |s| && s[j] == c;
      }
      NamedLast(b, h, t, o, s[k]);
    }
  }

  lemma SortableSame<X>(a: seq<Cached<X>>, b: seq<Cached<X>>, h: map<X, Entries>)
    requires SameUpToNamedOrder(a, b) && Sortable(a, h)
    ensures Sortable(b, h)
  {
    forall x, y | x in b && y in b ensures !Incomparable(x, y, h) {
      if x.name != "" && y.name != "" {
        assert x in a && y in a;
      }
    }
  }

  lemma MembersSame<X>(a: seq<Cached<X>>, b: seq<Cached<X>>, e: Cached<X>)
    requires SameUpToNamedOrder(a, b)
    ensures e in MergeOrder(a) <==> e in MergeOrder(b)
  {
    OrderMembers(a, e);
    OrderMembers(b, e);
  }

  /** The main inventory does not depend on the order in which the named inventories were fetched. */
  lemma FetchOrderDoesNotMatter<X>(a: seq<Cached<X>>, b: seq<Cached<X>>, h: map<X, Entries>)
    requires SameUpToNamedOrder(a, b) && Sortable(a, h)
    ensures MergedAll(MergeOrder(a), h) == MergedAll(MergeOrder(b), h)
  {
    SortableSame(a, b, h);
    var ma, mb := MergedAll(MergeOrder(a), h), MergedAll(MergeOrder(b), h);
    forall t ensures t in ma <==> t in mb {
      MergedFromTypes(map[], MergeOrder(a), h, t);
      MergedFromTypes(map[], MergeOrder(b), h, t);
      forall e | e in MergeOrder(a) || e in MergeOrder(b) ensures e in MergeOrder(a) && e in MergeOrder(b) {
        MembersSame(a, b, e);
      }
    }
    assert ma.Keys == mb.Keys;
    forall t, o ensures Lookup(ma, t, o) == Lookup(mb, t, o) {
      LookupSame(a, b, h, t, o);
    }
    forall t | t in ma ensures ma[t] == mb[t] {
      forall o ensures o in ma[t] <==> o in mb[t] { assert Lookup(ma, t, o) == Lookup(mb, t, o); }
      assert ma[t].Keys == mb[t].Keys;
      forall o | o in ma[t] ensures ma[t][o] == mb[t][o] { assert Lookup(ma, t, o) == Lookup(mb, t, o); }
    }
  }

  lemma LookupSame<X>(a: seq<Cached<X>>, b: seq<Cached<X>>, h: map<X, Entries>, t: string, o: string)
    requires SameUpToNamedOrder(a, b) && Sortable(a, h) && Sortable(b, h)
    ensures Lookup(MergedAll(MergeOrder(a), h), t, o) == Lookup(MergedAll(MergeOrder(b), h), t, o)
  {
    MergedIsLast(MergeOrder(a), h, t, o);
    MergedIsLast(MergeOrder(b), h, t, o);
    LastAppend(SortedNamed(a), Unnamed(a), h, t, o);
    LastAppend(SortedNamed(b), Unnamed(b), h, t, o);
    NamedLastSame(a, b, h, t, o);
    NamedLastSame(b, a, h, t, o);
  }

  // ---------------------------------------------------------------------------
  // The cache that a load leaves

  ghost predicate UniqueUris<X>(cache: seq<Cached<X>>) {
    forall i, j :: 0 <= i < j < |cache| ==> cache[i].uri != cache[j].uri
  }

  ghost predicate DistinctUris<X>(groups: seq<Group<X>>) {
    forall i, j :: 0 <= i < j < |groups| ==> groups[i].uri != groups[j].uri
  }

  lemma {:induction false} PutMembers<X>(cache: seq<Cached<X>>, e: Cached<X>, c: Cached<X>)
    ensures c in Put(cache, e) ==> c == e || c in cache
    ensures e in Put(cache, e)
  {
    if cache != [] && cache[0].uri != e.uri {
      PutMembers(cache[1..], e, c);
    }
  }

  lemma {:induction false} PutUnique<X>(cache: seq<Cached<X>>, e: Cached<X>)
    requires UniqueUris(cache)
    ensures UniqueUris(Put(cache, e))
  {
    if cache != [] && cache[0].uri != e.uri {
      PutUnique(cache[1..], e);
      var rest := Put(cache[1..], e);
      forall j | 0 <= j < |rest| ensures rest[j].uri != cache[0].uri {
        PutMembers(cache[1..], e, rest[j]);
        if rest[j] != e {
          var k :| 0 <= k < |cache[1..]| && cache[1..][k] == rest[j];
          assert cache[0].uri != cache[k + 1].uri;
        }
      }
    }
  }

  lemma FetchedGroupUnique<X>(cache: seq<Cached<X>>, g: Group<X>, now: int, cacheTime: int)
    requires UniqueUris(cache)
    ensures UniqueUris(FetchedGroup(cache, g, now, cacheTime))
  {
    var inv := FirstLoaded(cache, g.uri, g.attempts, cacheTime);
    if inv.Some? { PutUnique(cache, Cached(g.uri, g.name, now, inv.value)); }
  }

  /** The cache keeps one inventory for each URI. */
  lemma {:induction false} FetchedUnique<X>(cache: seq<Cached<X>>, groups: seq<Group<X>>, now: int, cacheTime: int)
    requires UniqueUris(cache)
    ensures UniqueUris(FetchedAll(cache, groups, now, cacheTime))
    decreases |groups|
  {
    if groups != [] {
      FetchedGroupUnique(cache, groups[0], now, cacheTime);
      FetchedUnique(FetchedGroup(cache, groups[0], now, cacheTime), groups[1..], now, cacheTime);
    }
  }

  /** What replaces the cached inventory `e`, if a group loads something for its URI. */
  ghost function Decided<X>(
    cache: seq<Cached<X>>, groups: seq<Group<X>>, now: int, cacheTime: int, e: Cached<X>): Cached<X> {
    var own := ForUri(groups, e.uri);
    if own == [] then e else
    var inv := FirstLoaded(cache, e.uri, own[0].attempts, cacheTime);
    if inv.None? then e else Cached(e.uri, own[0].name, now, inv.value)
  }

  /** The inventories of `part`, each replaced by what its group loads. */
  ghost function Refreshed<X>(
    cache: seq<Cached<X>>, groups: seq<Group<X>>, now: int, cacheTime: int, part: seq<Cached<X>>): seq<Cached<X>>
    decreases part
  {
    if part == [] then []
    else [Decided(cache, groups, now, cacheTime, part[0])] + Refreshed(cache, groups, now, cacheTime, part[1..])
  }

  /** The inventories that the groups add, in the order of completion. */
  ghost function News<X>(cache: seq<Cached<X>>, groups: seq<Group<X>>, now: int, cacheTime: int): seq<Cached<X>> {
    if groups == [] then [] else
    var g, rest := groups[0], News(cache, groups[1..], now, cacheTime);
    var inv := FirstLoaded(cache, g.uri, g.attempts, cacheTime);
    if Find(cache, g.uri).None? && inv.Some? then [Cached(g.uri, g.name, now, inv.value)] + rest else rest
  }

  /** The first group, and the cache after it, decide the same for the URIs of other groups. */
  lemma DecidedRest<X>(cache: seq<Cached<X>>, groups: seq<Group<X>>, now: int, cacheTime: int, e: Cached<X>)
    requires groups != [] && groups[0].uri != e.uri
    ensures Decided(FetchedGroup(cache, groups[0], now, cacheTime), groups[1..], now, cacheTime, e) ==
            Decided(cache, groups, now, cacheTime, e)
  {
    var cache1, own := FetchedGroup(cache, groups[0], now, cacheTime), ForUri(groups[1..], e.uri);
    assert ForUri(groups, e.uri) == own;
    FetchedGroupFind(cache, cache, groups[0], now, cacheTime, e.uri);
    if own != [] { FirstLoadedLocal(cache1, cache, e.uri, own[0].attempts, cacheTime); }
  }

  lemma {:induction false} RefreshedRest<X>(
    cache: seq<Cached<X>>, groups: seq<Group<X>>, now: int, cacheTime: int, part: seq<Cached<X>>)
    requires groups != [] && forall e :: e in part ==> e.uri != groups[0].uri
    ensures Refreshed(FetchedGroup(cache, groups[0], now, cacheTime), groups[1..], now, cacheTime, part) ==
            Refreshed(cache, groups, now, cacheTime, part)
    decreases part
  {
    if part != [] {
      DecidedRest(cache, groups, now, cacheTime, part[0]);
      RefreshedRest(cache, groups, now, cacheTime, part[1..]);
    }
  }

  lemma {:induction false} NewsRest<X>(
    cache: seq<Cached<X>>, g: Group<X>, groups: seq<Group<X>>, now: int, cacheTime: int)
    requires forall g' :: g' in groups ==> g'.uri != g.uri
    ensures News(FetchedGroup(cache, g, now, cacheTime), groups, now, cacheTime) == News(cache, groups, now, cacheTime)
    decreases groups
  {
    if groups != [] {
      var first := groups[0];
      FetchedGroupFind(cache, cache, g, now, cacheTime, first.uri);
      FirstLoadedLocal(FetchedGroup(cache, g, now, cacheTime), cache, first.uri, first.attempts, cacheTime);
      NewsRest(cache, g, groups[1..], now, cacheTime);
    }
  }

  lemma {:induction false} NoneForUri<X>(groups: seq<Group<X>>, uri: string)
    requires forall g :: g in groups ==> g.uri != uri
    ensures ForUri(groups, uri) == []
  {
    if groups != [] { NoneForUri(groups[1..], uri); }
  }

  lemma FirstForUri<X>(groups: seq<Group<X>>)
    requires groups != [] && DistinctUris(groups)
    ensures DistinctUris(groups[1..]) && forall g :: g in groups[1..] ==> g.uri != groups[0].uri
    ensures ForUri(groups[1..], groups[0].uri) == [] && ForUri(groups, groups[0].uri) == [groups[0]]
  {
    forall g | g in groups[1..] ensures g.uri != groups[0].uri {
      var i :| 0 <= i < |groups[1..]| && groups[1..][i] == g;
      assert groups[i + 1] == g;
    }
    NoneForUri(groups[1..], groups[0].uri);
  }

  /** The entry for the URI of the first group, once that group has completed, is final. */
  lemma {:induction false} RefreshedFirst<X>(
    cache: seq<Cached<X>>, groups: seq<Group<X>>, now: int, cacheTime: int, part: seq<Cached<X>>)
    requires groups != [] && DistinctUris(groups) && UniqueUris(part)
    ensures var g := groups[0];
            var inv := FirstLoaded(cache, g.uri, g.attempts, cacheTime);
            var part' := if inv.None? then part else Put(part, Cached(g.uri, g.name, now, inv.value));
            Refreshed(FetchedGroup(cache, g, now, cacheTime), groups[1..], now, cacheTime, part') ==
            Refreshed(cache, groups, now, cacheTime, part) +
            if inv.Some? && Find(part, g.uri).None? then [Cached(g.uri, g.name, now, inv.value)] else []
    decreases part
  {
    var g := groups[0];
    FirstForUri(groups);
    if part == [] {
      var inv := FirstLoaded(cache, g.uri, g.attempts, cacheTime);
      if inv.Some? {
        var e := Cached(g.uri, g.name, now, inv.value);
        RefreshedNothing(FetchedGroup(cache, g, now, cacheTime), groups[1..], now, cacheTime, e);
      }
    } else if part[0].uri == g.uri {
      RefreshedOwn(cache, groups, now, cacheTime, part);
    } else {
      DecidedRest(cache, groups, now, cacheTime, part[0]);
      RefreshedFirst(cache, groups, now, cacheTime, part[1..]);
    }
  }

  lemma RefreshedNothing<X>(cache: seq<Cached<X>>, groups: seq<Group<X>>, now: int, cacheTime: int, e: Cached<X>)
    requires ForUri(groups, e.uri) == []
    ensures Refreshed(cache, groups, now, cacheTime, [e]) == [e]
  {
    assert [e][1..] == [];
  }

  lemma {:induction false} RefreshedOwn<X>(
    cache: seq<Cached<X>>, groups: seq<Group<X>>, now: int, cacheTime: int, part: seq<Cached<X>>)
    requires groups != [] && ForUri(groups[1..], groups[0].uri) == [] && ForUri(groups, groups[0].uri) == [groups[0]]
    requires part != [] && UniqueUris(part) && part[0].uri == groups[0].uri
    ensures var g := groups[0];
            var inv := FirstLoaded(cache, g.uri, g.attempts, cacheTime);
            var first := if inv.None? then part[0] else Cached(g.uri, g.name, now, inv.value);
            Refreshed(FetchedGroup(cache, g, now, cacheTime), groups[1..], now, cacheTime, [first] + part[1..]) ==
            Refreshed(cache, groups, now, cacheTime, part)
  {
    var g := groups[0];
    var inv := FirstLoaded(cache, g.uri, g.attempts, cacheTime);
    var first := if inv.None? then part[0] else Cached(g.uri, g.name, now, inv.value);
    forall e | e in part[1..] ensures e.uri != g.uri {
      var k :| 0 <= k < |part[1..]| && part[1..][k] == e;
      assert part[0].uri != part[k + 1].uri;
    }
    RefreshedRest(cache, groups, now, cacheTime, part[1..]);
    assert ([first] + part[1..])[1..] == part[1..];
    assert Decided(cache, groups, now, cacheTime, part[0]) == first;
  }

  /** What the first group adds, if it loads something for a new URI. */
  ghost function FirstNews<X>(cache: seq<Cached<X>>, g: Group<X>, now: int, cacheTime: int): seq<Cached<X>> {
    var inv := FirstLoaded(cache, g.uri, g.attempts, cacheTime);
    if inv.Some? && Find(cache, g.uri).None? then [Cached(g.uri, g.name, now, inv.value)] else []
  }

  lemma NewsCons<X>(cache: seq<Cached<X>>, groups: seq<Group<X>>, now: int, cacheTime: int)
    requires groups != []
    ensures News(cache, groups, now, cacheTime) ==
            FirstNews(cache, groups[0], now, cacheTime) + News(cache, groups[1..], now, cacheTime)
  {
    var rest := News(cache, groups[1..], now, cacheTime);
    assert [] + rest == rest;
  }

  lemma Associate<T>(x: seq<T>, y: seq<T>, z: seq<T>)
    ensures x + y + z == x + (y + z)
  {}

  /** The cache after a load: the old inventories refreshed in place, then the new ones as they completed. */
  lemma {:induction false} FetchedParts<X>(cache: seq<Cached<X>>, groups: seq<Group<X>>, now: int, cacheTime: int)
    requires UniqueUris(cache) && DistinctUris(groups)
    ensures FetchedAll(cache, groups, now, cacheTime) ==
            Refreshed(cache, groups, now, cacheTime, cache) + News(cache, groups, now, cacheTime)
    decreases |groups|
  {
    if groups == [] {
      RefreshedByNobody(cache, now, cacheTime, cache);
    } else {
      var cache1 := FetchedGroup(cache, groups[0], now, cacheTime);
      FetchedGroupUnique(cache, groups[0], now, cacheTime);
      FirstForUri(groups);
      FetchedParts(cache1, groups[1..], now, cacheTime);
      PartsStep(cache, groups, now, cacheTime);
    }
  }

  lemma {:induction false} PartsStep<X>(cache: seq<Cached<X>>, groups: seq<Group<X>>, now: int, cacheTime: int)
    requires groups != [] && UniqueUris(cache) && DistinctUris(groups)
    ensures var cache1 := FetchedGroup(cache, groups[0], now, cacheTime);
            Refreshed(cache1, groups[1..], now, cacheTime, cache1) + News(cache1, groups[1..], now, cacheTime) ==
            Refreshed(cache, groups, now, cacheTime, cache) + News(cache, groups, now, cacheTime)
  {
    var g, rest := groups[0], groups[1..];
    FirstForUri(groups);
    RefreshedFirst(cache, groups, now, cacheTime, cache);
    NewsRest(cache, g, rest, now, cacheTime);
    NewsCons(cache, groups, now, cacheTime);
    Associate(Refreshed(cache, groups, now, cacheTime, cache), FirstNews(cache, g, now, cacheTime),
              News(cache, rest, now, cacheTime));
  }

  lemma {:induction false} RefreshedByNobody<X>(cache: seq<Cached<X>>, now: int, cacheTime: int, part: seq<Cached<X>>)
    ensures Refreshed(cache, [], now, cacheTime, part) == part
    decreases part
  {
    if part != [] { RefreshedByNobody(cache, now, cacheTime, part[1..]); }
  }

  // ---------------------------------------------------------------------------
  // Two orders of completion

  function UnnamedGroups<X>(groups: seq<Group<X>>): seq<Group<X>> {
    if groups == [] then []
    else (if groups[0].name == "" then [groups[0]] else []) + UnnamedGroups(groups[1..])
  }

  lemma {:induction false} UnnamedAppend<X>(a: seq<Cached<X>>, b: seq<Cached<X>>)
    ensures Unnamed(a + b) == Unnamed(a) + Unnamed(b)
  {
    if a == [] {
      assert a + b == b;
    } else {
      assert (a + b)[1..] == a[1..] + b;
      UnnamedAppend(a[1..], b);
    }
  }

  lemma {:induction false} UnnamedNews<X>(cache: seq<Cached<X>>, groups: seq<Group<X>>, now: int, cacheTime: int)
    ensures Unnamed(News(cache, groups, now, cacheTime)) == News(cache, UnnamedGroups(groups), now, cacheTime)
  {
    if groups != [] {
      UnnamedNews(cache, groups[1..], now, cacheTime);
      var rest := UnnamedGroups(groups[1..]);
      assert [] + rest == rest;
    }
  }

  /** The groups `a` and `b` are the same, completing in different orders. */
  ghost predicate SameGroups<X>(a: seq<Group<X>>, b: seq<Group<X>>) {
    && DistinctUris(a) && DistinctUris(b)
    && (forall g :: g in a ==> g in b) && (forall g :: g in b ==> g in a)
  }

  lemma {:induction false} OneForUri<X>(groups: seq<Group<X>>, g: Group<X>)
    requires DistinctUris(groups) && g in groups
    ensures ForUri(groups, g.uri) == [g]
    decreases groups
  {
    FirstForUri(groups);
    if g != groups[0] {
      OneForUri(groups[1..], g);
      assert [] + [g] == [g];
    }
  }

  lemma SameForUri<X>(a: seq<Group<X>>, b: seq<Group<X>>, uri: string)
    requires SameGroups(a, b)
    ensures ForUri(a, uri) == ForUri(b, uri)
  {
    if g :| g in a && g.uri == uri {
      OneForUri(a, g);
      OneForUri(b, g);
    } else {
      NoneForUri(a, uri);
      NoneForUri(b, uri);
    }
  }

  lemma {:induction false} RefreshedSame<X>(
    cache: seq<Cached<X>>, a: seq<Group<X>>, b: seq<Group<X>>, now: int, cacheTime: int, part: seq<Cached<X>>)
    requires SameGroups(a, b)
    ensures Refreshed(cache, a, now, cacheTime, part) == Refreshed(cache, b, now, cacheTime, part)
    decreases part
  {
    if part != [] {
      SameForUri(a, b, part[0].uri);
      RefreshedSame(cache, a, b, now, cacheTime, part[1..]);
    }
  }

  lemma {:induction false} NewsMembers<X>(
    cache: seq<Cached<X>>, groups: seq<Group<X>>, now: int, cacheTime: int, c: Cached<X>)
    ensures c in News(cache, groups, now, cacheTime) <==>
            exists g :: g in groups && Find(cache, g.uri).None? && IsLoadedBy(cache, g, now, cacheTime, c)
  {
    if groups != [] {
      NewsMembers(cache, groups[1..], now, cacheTime, c);
      assert forall g :: g in groups <==> g == groups[0] || g in groups[1..];
    }
  }

  /** `c` is what group `g` loads. */
  ghost predicate IsLoadedBy<X>(cache: seq<Cached<X>>, g: Group<X>, now: int, cacheTime: int, c: Cached<X>) {
    var inv := FirstLoaded(cache, g.uri, g.attempts, cacheTime);
    inv.Some? && c == Cached(g.uri, g.name, now, inv.value)
  }

  /** Two orders of completion that keep the unnamed groups in order differ in the order of named ones only. */
  lemma SameCacheUpToNamedOrder<X>(
    cache: seq<Cached<X>>, a: seq<Group<X>>, b: seq<Group<X>>, now: int, cacheTime: int)
    requires UniqueUris(cache) && SameGroups(a, b) && UnnamedGroups(a) == UnnamedGroups(b)
    ensures SameUpToNamedOrder(FetchedAll(cache, a, now, cacheTime), FetchedAll(cache, b, now, cacheTime))
  {
    FetchedParts(cache, a, now, cacheTime);
    FetchedParts(cache, b, now, cacheTime);
    RefreshedSame(cache, a, b, now, cacheTime, cache);
    SameNews(cache, a, b, now, cacheTime);
    SameAfter(Refreshed(cache, a, now, cacheTime, cache),
              News(cache, a, now, cacheTime), News(cache, b, now, cacheTime));
  }

  lemma {:induction false} SameNews<X>(
    cache: seq<Cached<X>>, a: seq<Group<X>>, b: seq<Group<X>>, now: int, cacheTime: int)
    requires SameGroups(a, b) && UnnamedGroups(a) == UnnamedGroups(b)
    ensures SameUpToNamedOrder(News(cache, a, now, cacheTime), News(cache, b, now, cacheTime))
  {
    var na, nb := News(cache, a, now, cacheTime), News(cache, b, now, cacheTime);
    UnnamedNews(cache, a, now, cacheTime);
    UnnamedNews(cache, b, now, cacheTime);
    forall c | c in na ensures c in nb {
      NewsMembers(cache, a, now, cacheTime, c);
      NewsMembers(cache, b, now, cacheTime, c);
    }
    forall c | c in nb ensures c in na {
      NewsMembers(cache, a, now, cacheTime, c);
      NewsMembers(cache, b, now, cacheTime, c);
    }
  }

  lemma {:induction false} SameAfter<X>(front: seq<Cached<X>>, a: seq<Cached<X>>, b: seq<Cached<X>>)
    requires SameUpToNamedOrder(a, b)
    ensures SameUpToNamedOrder(front + a, front + b)
  {
    UnnamedAppend(front, a);
    UnnamedAppend(front, b);
  }

  /** The order in which the fetches of named groups complete does not change the main inventory. */
  lemma CompletionOrderGivesSameMerge<X>(
    cache: seq<Cached<X>>, a: seq<Group<X>>, b: seq<Group<X>>, now: int, cacheTime: int, h: map<X, Entries>)
    requires UniqueUris(cache) && SameGroups(a, b) && UnnamedGroups(a) == UnnamedGroups(b)
    ensures var ca, cb := FetchedAll(cache, a, now, cacheTime), FetchedAll(cache, b, now, cacheTime);
            && (Sortable(ca, h) <==> Sortable(cb, h))
            && (Sortable(ca, h) ==> MergedAll(MergeOrder(ca), h) == MergedAll(MergeOrder(cb), h))
  {
    var ca, cb := FetchedAll(cache, a, now, cacheTime), FetchedAll(cache, b, now, cacheTime);
    SameCacheUpToNamedOrder(cache, a, b, now, cacheTime);
    SameUpToNamedOrderBack(ca, cb);
    if Sortable(ca, h) {
      SortableSame(ca, cb, h);
      FetchOrderDoesNotMatter(ca, cb, h);
    }
    if Sortable(cb, h) { SortableSame(cb, ca, h); }
  }

  lemma SameUpToNamedOrderBack<X>(a: seq<Cached<X>>, b: seq<Cached<X>>)
    requires SameUpToNamedOrder(a, b)
    ensures SameUpToNamedOrder(b, a)
  {}
}
