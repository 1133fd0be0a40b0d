/** What a load leaves in the cache, and which inventory each merged entry comes from. */
module IntersphinxTheorems {
  import opened Options
  import opened Intersphinx

  // ---------------------------------------------------------------------------
  // What is cached

  lemma {:induction false} PutFind<X>(cache: seq<Cached<X>>, e: Cached<X>, uri: string)
    ensures Find(Put(cache, e), uri) == if uri == e.uri then Some(e) else Find(cache, uri)
  {
    if cache != [] && cache[0].uri != e.uri {
      PutFind(cache[1..], e, uri);
    }
  }

  /** Whether a group must be read depends on its own cached inventory only. */
  lemma {:induction false} FirstLoadedLocal<X>(
    a: seq<Cached<X>>, b: seq<Cached<X>>, uri: string, attempts: seq<Attempt<X>>, cacheTime: int)
    requires Find(a, uri) == Find(b, uri)
    ensures FirstLoaded(a, uri, attempts, cacheTime) == FirstLoaded(b, uri, attempts, cacheTime)
    decreases attempts
  {
    if attempts != [] {
      FirstLoadedLocal(a, b, uri, attempts[1..], cacheTime);
    }
  }

  /** The groups with this URI, in their order. */
  function ForUri<X>(groups: seq<Group<X>>, uri: string): (own: seq<Group<X>>)
    ensures forall g :: g in own ==> g in groups && g.uri == uri
    ensures forall g :: g in groups && g.uri == uri ==> g in own
  {
    if groups == [] then []
    else (if groups[0].uri == uri then [groups[0]] else []) + ForUri(groups[1..], uri)
  }

  /** What a group caches depends on its own cached inventory only, and changes no other. */
  lemma FetchedGroupFind<X>(a: seq<Cached<X>>, b: seq<Cached<X>>, g: Group<X>, now: int, cacheTime: int, uri: string)
    requires Find(a, uri) == Find(b, uri)
    ensures g.uri == uri ==>
              Find(FetchedGroup(a, g, now, cacheTime), uri) == Find(FetchedGroup(b, g, now, cacheTime), uri)
    ensures g.uri != uri ==> Find(FetchedGroup(a, g, now, cacheTime), uri) == Find(a, uri)
  {
    var inv, inv' := FirstLoaded(a, g.uri, g.attempts, cacheTime), FirstLoaded(b, g.uri, g.attempts, cacheTime);
    if g.uri == uri { FirstLoadedLocal(a, b, uri, g.attempts, cacheTime); }
    if inv.Some? { PutFind(a, Cached(g.uri, g.name, now, inv.value), uri); }
    if inv'.Some? { PutFind(b, Cached(g.uri, g.name, now, inv'.value), uri); }
  }

  lemma {:induction false} OwnEntryDecides<X>(
    a: seq<Cached<X>>, b: seq<Cached<X>>, groups: seq<Group<X>>, now: int, cacheTime: int, uri: string)
    requires Find(a, uri) == Find(b, uri)
    ensures Find(FetchedAll(a, groups, now, cacheTime), uri) ==
            Find(FetchedAll(b, ForUri(groups, uri), now, cacheTime), uri)
    decreases |groups|
  {
    if groups != [] {
      var g, rest := groups[0], groups[1..];
      FetchedGroupFind(a, b, g, now, cacheTime, uri);
      if g.uri == uri {
        assert ForUri(groups, uri)[1..] == ForUri(rest, uri);
        OwnEntryDecides(FetchedGroup(a, g, now, cacheTime), FetchedGroup(b, g, now, cacheTime),
                        rest, now, cacheTime, uri);
      } else {
        assert ForUri(groups, uri) == ForUri(rest, uri);
        OwnEntryDecides(FetchedGroup(a, g, now, cacheTime), b, rest, now, cacheTime, uri);
      }
    }
  }

  /** What a group leaves cached for its URI: what it loads, if it loads something. */
  ghost function LoadedFor<X>(cache: seq<Cached<X>>, g: Group<X>, now: int, cacheTime: int): Option<Cached<X>> {
    var inv := FirstLoaded(cache, g.uri, g.attempts, cacheTime);
    if inv.Some? then Some(Cached(g.uri, g.name, now, inv.value)) else Find(cache, g.uri)
  }

  /** Whatever else completes in between, only the groups of a URI decide what is cached for it. */
  lemma EachGroupDecides<X>(cache: seq<Cached<X>>, groups: seq<Group<X>>, now: int, cacheTime: int, uri: string)
    ensures var found, own := Find(FetchedAll(cache, groups, now, cacheTime), uri), ForUri(groups, uri);
            && found == Find(FetchedAll(cache, own, now, cacheTime), uri)
            && (own == [] ==> found == Find(cache, uri))
            && (|own| == 1 ==> found == LoadedFor(cache, own[0], now, cacheTime))
  {
    var own := ForUri(groups, uri);
    OwnEntryDecides(cache, cache, groups, now, cacheTime, uri);
    if |own| == 1 {
      assert own[1..] == [];
      var inv := FirstLoaded(cache, uri, own[0].attempts, cacheTime);
      if inv.Some? { PutFind(cache, Cached(uri, own[0].name, now, inv.value), uri); }
    }
  }

  /** Two orders of completion that agree for a URI leave the same inventory cached for it. */
  lemma CompletionOrderDoesNotMatter<X>(
    cache: seq<Cached<X>>, a: seq<Group<X>>, b: seq<Group<X>>, now: int, cacheTime: int, uri: string)
    requires ForUri(a, uri) == ForUri(b, uri)
    ensures Find(FetchedAll(cache, a, now, cacheTime), uri) == Find(FetchedAll(cache, b, now, cacheTime), uri)
  {
    EachGroupDecides(cache, a, now, cacheTime, uri);
    EachGroupDecides(cache, b, now, cacheTime, uri);
  }

  // ---------------------------------------------------------------------------
  // The order of names

  lemma {:induction false} LessTransitive(a: string, b: string, c: string)
    requires StringLess(a, b) && StringLess(b, c)
    ensures StringLess(a, c)
  {
    if a != "" && a[0] == b[0] == c[0] {
      LessTransitive(a[1..], b[1..], c[1..]);
    }
  }

  lemma {:induction false} LessAsymmetric(a: string, b: string)
    requires StringLess(a, b)
    ensures !StringLess(b, a) && a != b
  {
    if a != "" && a[0] == b[0] {
      LessAsymmetric(a[1..], b[1..]);
    }
  }

  lemma {:induction false} LessTotal(a: string, b: string)
    ensures StringLess(a, b) || StringLess(b, a) || a == b
  {
    if a != "" && b != "" && a[0] == b[0] {
      LessTotal(a[1..], b[1..]);
      assert a == [a[0]] + a[1..] && b == [b[0]] + b[1..];
    }
  }

  /** `a` comes before `b` in the dictionary: at the first difference it has the smaller character, or ends. */
  ghost predicate Precedes(a: string, b: string, k: nat) {
    k <= |a| && k < |b| && a[..k] == b[..k] && (k == |a| || a[k] < b[k])
  }

  lemma {:induction false} LessMeans(a: string, b: string)
    ensures StringLess(a, b) <==> exists k: nat :: Precedes(a, b, k)
  {
    if b != "" && (a == "" || a[0] < b[0]) {
      assert Precedes(a, b, 0);
    } else if a != "" && b != "" && a[0] == b[0] {
      LessMeans(a[1..], b[1..]);
      if k: nat :| Precedes(a[1..], b[1..], k) { PrecedesCons(a, b, k); }
      if k: nat :| Precedes(a, b, k) { PrecedesTail(a, b, k); }
    } else {
      forall k: nat ensures !Precedes(a, b, k) {
        if 0 < k <= |a| && k < |b| { assert a[..k][0] != b[..k][0]; }
      }
    }
  }

  lemma PrecedesCons(a: string, b: string, k: nat)
    requires a != "" && b != "" && a[0] == b[0] && Precedes(a[1..], b[1..], k)
    ensures Precedes(a, b, k + 1)
  {
    assert a[..k + 1] == [a[0]] + a[1..][..k] && b[..k + 1] == [b[0]] + b[1..][..k];
  }

  lemma PrecedesTail(a: string, b: string, k: nat)
    requires a != "" && b != "" && a[0] == b[0] && Precedes(a, b, k)
    ensures k > 0 && Precedes(a[1..], b[1..], k - 1)
  {
    assert a[1..][..k - 1] == a[..k][1..] && b[1..][..k - 1] == b[..k][1..];
  }

  lemma AtMostTransitive<X>(a: Cached<X>, b: Cached<X>, c: Cached<X>)
    requires AtMost(a, b) && AtMost(b, c)
    ensures AtMost(a, c)
  {
    if StringLess(a.name, b.name) && StringLess(b.name, c.name) {
      LessTransitive(a.name, b.name, c.name);
    }
  }

  lemma AtMostAntisymmetric<X>(a: Cached<X>, b: Cached<X>)
    requires AtMost(a, b) && AtMost(b, a)
    ensures a.name == b.name && a.time == b.time
  {
    if StringLess(a.name, b.name) { LessAsymmetric(a.name, b.name); }
    if StringLess(b.name, a.name) { LessAsymmetric(b.name, a.name); }
  }

  ghost predicate Ascending<X>(s: seq<Cached<X>>) {
    forall i, j :: 0 <= i < j < |s| ==> AtMost(s[i], s[j])
  }

  lemma {:induction false} InsertedAscending<X>(e: Cached<X>, s: seq<Cached<X>>)
    requires Ascending(s)
    ensures Ascending(Inserted(e, s))
  {
    var r := Inserted(e, s);
    if s != [] && AtMost(e, s[0]) {
      forall j | 0 <= j < |s| ensures AtMost(e, s[j]) {
        if j > 0 { AtMostTransitive(e, s[0], s[j]); }
      }
    } else if s != [] {
      InsertedAscending(e, s[1..]);
      LessTotal(e.name, s[0].name);
      var rest := Inserted(e, s[1..]);
      forall j | 0 <= j < |rest| ensures AtMost(s[0], rest[j]) {
        InsertedMembers(e, s[1..], rest[j]);
      }
    }
  }

  lemma {:induction false} SortedNamedAscending<X>(cache: seq<Cached<X>>)
    ensures Ascending(SortedNamed(cache))
  {
    if cache != [] {
      SortedNamedAscending(cache[1..]);
      if cache[0].name != "" { InsertedAscending(cache[0], SortedNamed(cache[1..])); }
    }
  }

  // ---------------------------------------------------------------------------
  // The last inventory that holds an entry

  ghost function Lookup(m: Inventory, t: string, o: string): Option<Item> {
    if t in m && o in m[t] then Some(m[t][o]) else None
  }

  /** What a cached inventory says of object `o` of type `t`. */
  ghost function Says<X>(e: Cached<X>, h: map<X, Entries>, t: string, o: string): Option<Item> {
    Lookup(InvOf(e.inv, h), t, o)
  }

  ghost function Last<X>(s: seq<Cached<X>>, h: map<X, Entries>, t: string, o: string): Option<Item> {
    if s == [] then None
    else if Last(s[1..], h, t, o).Some? then Last(s[1..], h, t, o)
    else Says(s[0], h, t, o)
  }

  lemma {:induction false} LastAppend<X>(a: seq<Cached<X>>, b: seq<Cached<X>>, h: map<X, Entries>, t: string, o: string)
    ensures Last(a + b, h, t, o) == if Last(b, h, t, o).Some? then Last(b, h, t, o) else Last(a, h, t, o)
  {
    if a == [] {
      assert a + b == b;
    } else {
      assert (a + b)[1..] == a[1..] + b;
      LastAppend(a[1..], b, h, t, o);
    }
  }

  /** The last holder, by its place. */
  lemma {:induction false} LastHolder<X>(s: seq<Cached<X>>, h: map<X, Entries>, t: string, o: string) returns (k: int)
    ensures -1 <= k < |s|
    ensures Last(s, h, t, o) == if k == -1 then None else Says(s[k], h, t, o)
    ensures k >= 0 ==> Says(s[k], h, t, o).Some?
    ensures forall j :: k < j < |s| ==> Says(s[j], h, t, o).None?
    decreases s
  {
    if s == [] {
      k := -1;
    } else {
      var k' := LastHolder(s[1..], h, t, o);
      k := if k' >= 0 then k' + 1 else if Says(s[0], h, t, o).Some? then 0 else -1;
      forall j | k < j < |s| ensures Says(s[j], h, t, o).None? {
        if j > 0 { assert s[j] == s[1..][j - 1]; }
      }
    }
  }

  lemma MergedOneLookup(m: Inventory, inv: Inventory, t: string, o: string)
    ensures Lookup(MergedOne(m, inv), t, o) == if Lookup(inv, t, o).Some? then Lookup(inv, t, o) else Lookup(m, t, o)
  {
    if t in m || t in inv {
      assert MergedOne(m, inv)[t] == EntriesOf(m, t) + EntriesOf(inv, t);
    }
  }

  lemma {:induction false} MergedFromLookup<X>(
    m: Inventory, order: seq<Cached<X>>, h: map<X, Entries>, t: string, o: string)
    ensures Lookup(MergedFrom(m, order, h), t, o) ==
            if Last(order, h, t, o).Some? then Last(order, h, t, o) else Lookup(m, t, o)
    decreases order
  {
    if order != [] {
      var inv := InvOf(order[0].inv, h);
      MergedOneLookup(m, inv, t, o);
      MergedFromLookup(MergedOne(m, inv), order[1..], h, t, o);
    }
  }

  /** Merging keeps, for every entry, what the last inventory holding it says. */
  lemma MergedIsLast<X>(order: seq<Cached<X>>, h: map<X, Entries>, t: string, o: string)
    ensures Lookup(MergedAll(order, h), t, o) == Last(order, h, t, o)
  {
    MergedFromLookup(map[], order, h, t, o);
  }

  /** `t` is a type of one of the inventories. */
  ghost predicate HasType<X>(order: seq<Cached<X>>, h: map<X, Entries>, t: string) {
    exists e :: e in order && t in InvOf(e.inv, h)
  }

  lemma {:induction false} MergedFromTypes<X>(m: Inventory, order: seq<Cached<X>>, h: map<X, Entries>, t: string)
    ensures t in MergedFrom(m, order, h) <==> t in m || HasType(order, h, t)
    decreases order
  {
    if order != [] {
      MergedFromTypes(MergedOne(m, InvOf(order[0].inv, h)), order[1..], h, t);
      assert forall e :: e in order <==> e == order[0] || e in order[1..];
    }
  }

  // ---------------------------------------------------------------------------
  // Where a merged entry comes from

  /** `e` holds the entry and has the greatest (name, time) of the named inventories that do. */
  ghost predicate GreatestNamed<X>(cache: seq<Cached<X>>, h: map<X, Entries>, t: string, o: string, e: Cached<X>) {
    && e in cache && e.name != "" && Says(e, h, t, o).Some?
    && forall c :: c in cache && c.name != "" && Says(c, h, t, o).Some? ==> AtMost(c, e)
  }

  /** The entry at place `i` is the last unnamed inventory that holds the entry. */
  ghost predicate LastUnnamed<X>(cache: seq<Cached<X>>, h: map<X, Entries>, t: string, o: string, i: nat) {
    && i < |cache| && cache[i].name == "" && Says(cache[i], h, t, o).Some?
    && forall j :: i < j < |cache| && cache[j].name == "" ==> Says(cache[j], h, t, o).None?
  }

  lemma {:induction false} UnnamedLast<X>(cache: seq<Cached<X>>, h: map<X, Entries>, t: string, o: string, i: nat)
    requires LastUnnamed(cache, h, t, o, i)
    ensures Last(Unnamed(cache), h, t, o) == Says(cache[i], h, t, o)
    decreases cache
  {
    if i > 0 {
      UnnamedLast(cache[1..], h, t, o, i - 1);
    } else {
      forall c | c in Unnamed(cache[1..]) ensures Says(c, h, t, o).None? {
        OrderMembers(cache[1..], c);
        var j :| 0 <= j < |cache[1..]| && cache[1..][j] == c;
        assert cache[j + 1] == c;
      }
      var k := LastHolder(Unnamed(cache[1..]), h, t, o);
    }
  }

  lemma NamedLast<X>(cache: seq<Cached<X>>, h: map<X, Entries>, t: string, o: string, e: Cached<X>)
    requires Sortable(cache, h) && GreatestNamed(cache, h, t, o, e)
    ensures Last(SortedNamed(cache), h, t, o) == Says(e, h, t, o)
  {
    var s := SortedNamed(cache);
    OrderMembers(cache, e);
    var j :| 0 <= j < |s| && s[j] == e;
    var k := LastHolder(s, h, t, o);
    OrderMembers(cache, s[k]);
    SortedNamedAscending(cache);
    if j != k {
      AtMostAntisymmetric(e, s[k]);
      assert !Incomparable(e, s[k], h);
    }
  }

  /**
   * A merged entry comes from the last unnamed inventory that holds it, else
   * from the named one with the greatest name (and time) that does; and an
   * entry that no cached inventory holds is not merged.
   */
  lemma MergedEntryComesFrom<X>(cache: seq<Cached<X>>, h: map<X, Entries>, t: string, o: string)
    requires Sortable(cache, h)
    ensures var found := Lookup(MergedAll(MergeOrder(cache), h), t, o);
            && (found.Some? <==> exists e :: e in cache && Says(e, h, t, o).Some?)
            && (forall i: nat :: LastUnnamed(cache, h, t, o, i) ==> found == Says(cache[i], h, t, o))
            && (forall e ::
                  && GreatestNamed(cache, h, t, o, e)
                  && (forall c :: c in cache && c.name == "" ==> Says(c, h, t, o).None?) ==>
                  found == Says(e, h, t, o))
  {
    var order := MergeOrder(cache);
    MergedIsLast(order, h, t, o);
    LastAppend(SortedNamed(cache), Unnamed(cache), h, t, o);
    var k := LastHolder(order, h, t, o);
    if k >= 0 {
      OrderMembers(cache, order[k]);
    }
    forall e | e in cache && Says(e, h, t, o).Some? ensures k >= 0 {
      OrderMembers(cache, e);
      var j :| 0 <= j < |order| && order[j] == e;
    }
    forall i: nat | LastUnnamed(cache, h, t, o, i) ensures Last(order, h, t, o) == Says(cache[i], h, t, o) {
      UnnamedLast(cache, h, t, o, i);
    }
    forall e | GreatestNamed(cache, h, t, o, e) && (forall c :: c in cache && c.name == "" ==> Says(c, h, t, o).None?)
      ensures Last(order, h, t, o) == Says(e, h, t, o)
    {
      NamedLast(cache, h, t, o, e);
      NoUnnamedHolder(cache, h, t, o);
    }
  }

  lemma NoUnnamedHolder<X>(cache: seq<Cached<X>>, h: map<X, Entries>, t: string, o: string)
    requires forall c :: c in cache && c.name == "" ==> Says(c, h, t, o).None?
    ensures Last(Unnamed(cache), h, t, o).None?
  {
    var k := LastHolder(Unnamed(cache), h, t, o);
    if k >= 0 {
      OrderMembers(cache, Unnamed(cache)[k]);
    }
  }

  // ---------------------------------------------------------------------------
  // The named inventories

  lemma {:induction false} NamedIsLast<X>(
    named: map<string, map<string, X>>, order: seq<Cached<X>>, name: string) returns (k: int)
    requires name != ""
    ensures -1 <= k < |order|
    ensures k == -1 ==> (name in NamedFrom(named, order) <==> name in named)
    ensures k == -1 && name in named ==> NamedFrom(named, order)[name] == named[name]
    ensures k >= 0 ==>
              && name in NamedFrom(named, order) && order[k].name == name
              && NamedFrom(named, order)[name] == order[k].inv
    ensures forall j :: k < j < |order| ==> order[j].name != name
    decreases order
  {
    if order == [] {
      k := -1;
    } else {
      var j := NamedIsLast(WithNamed(named, order[0]), order[1..], name);
      k := if j >= 0 then j + 1 else if order[0].name == name then 0 else -1;
      forall i | k < i < |order| ensures order[i].name != name {
        if i > 0 { assert order[i] == order[1..][i - 1]; }
      }
    }
  }

  /** A name gives access to its most recently fetched inventory. */
  lemma NamedIsMostRecent<X>(cache: seq<Cached<X>>, h: map<X, Entries>, e: Cached<X>)
    requires Sortable(cache, h) && e in cache && e.name != ""
    requires forall c :: c in cache && c.name == e.name ==> c.time <= e.time
    ensures e.name in NamedAll(MergeOrder(cache))
    ensures InvOf(NamedAll(MergeOrder(cache))[e.name], h) == InvOf(e.inv, h)
  {
    var order := MergeOrder(cache);
    var s := SortedNamed(cache);
    var k := NamedIsLast(map[], order, e.name);
    OrderMembers(cache, e);
    var j :| 0 <= j < |s| && s[j] == e;
    assert order[j] == e;
    OrderMembers(cache, order[k]);
    assert k < |s| by {
      assert forall i :: |s| <= i < |order| ==> order[i] in Unnamed(cache);
    }
    SortedNamedAscending(cache);
    if j != k {
      assert AtMost(e, order[k]);
      AtMostAntisymmetric(e, order[k]);
      assert !Incomparable(e, order[k], h);
    }
  }

  /** The names are exactly those of the cached inventories. */
  lemma NamedExactly<X>(cache: seq<Cached<X>>, name: string)
    ensures name in NamedAll(MergeOrder(cache)) <==> name != "" && exists c :: c in cache && c.name == name
  {
    var order := MergeOrder(cache);
    if name == "" {
      NoEmptyName(map[], order);
    } else {
      var k := NamedIsLast(map[], order, name);
      if k >= 0 { OrderMembers(cache, order[k]); }
      forall c | c in cache && c.name == name ensures k >= 0 {
        OrderMembers(cache, c);
        var i :| 0 <= i < |order| && order[i] == c;
      }
    }
  }

  lemma {:induction false} NoEmptyName<X>(named: map<string, map<string, X>>, order: seq<Cached<X>>)
    requires "" !in named
    ensures "" !in NamedFrom(named, order)
    decreases order
  {
    if order != [] { NoEmptyName(WithNamed(named, order[0]), order[1..]); }
  }
}
