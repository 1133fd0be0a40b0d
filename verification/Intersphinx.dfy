/**
 * The intersphinx inventory index kept beside its cache: load_mappings fetches
 * groups of inventories into the cache and, only if a group reports an update,
 * rebuilds the main and the named inventory from the whole cache.
 *
 * Inner dictionaries are objects here, because the question is whether merging
 * them can change the cached ones. `X` is such an object in the code, and its
 * value in the theorems.
 */
module Intersphinx {
  import opened Options
  import opened Text

  datatype Item = Item(project: string, version: string, uri: string, displayName: string)

  type Entries = map<string, Item>

  /** An inner dictionary of an inventory: object names to items. */
  class Objects {
    var entries: Entries
    constructor ()
      ensures entries == map[]
    {
      entries := map[];
    }
  }

  /** An item of the cache dictionary, which keeps insertion order; an empty name is no name. */
  datatype Cached<X> = Cached(uri: string, name: string, time: int, inv: map<string, X>)

  /** One place to read an inventory from, and what reading it would give; None is an exception. */
  datatype Attempt<X> = Attempt(inv: string, outcome: Option<map<string, X>>)

  datatype Group<X> = Group(name: string, uri: string, attempts: seq<Attempt<X>>)

  const INVENTORY_FILENAME := "objects.inv"
  const SECONDS_PER_DAY := 86400

  // ---------------------------------------------------------------------------
  // Fetching

  /** posixpath.join(uri, INVENTORY_FILENAME) when no location is given. */
  function Location(uri: string, inv: string): string {
    if inv != "" then inv
    else if uri == "" || uri[|uri| - 1] == '/' then uri + INVENTORY_FILENAME
    else uri + "/" + INVENTORY_FILENAME
  }

  predicate Remote(location: string) {
    Contains(location, "://")
  }

  function Find<X>(cache: seq<Cached<X>>, uri: string): (e: Option<Cached<X>>)
    ensures e.Some? ==> e.value in cache && e.value.uri == uri
    ensures e.None? ==> forall c :: c in cache ==> c.uri != uri
  {
    if cache == [] then None else if cache[0].uri == uri then Some(cache[0]) else Find(cache[1..], uri)
  }

  /** Assignment to a dictionary key: in place if it is there, else at the end. */
  function Put<X>(cache: seq<Cached<X>>, e: Cached<X>): seq<Cached<X>> {
    if cache == [] then [e]
    else if cache[0].uri == e.uri then [e] + cache[1..]
    else [cache[0]] + Put(cache[1..], e)
  }

  /** Local inventories are always read, remote ones only when missing or expired. */
  predicate MustRead<X>(cache: seq<Cached<X>>, uri: string, location: string, cacheTime: int) {
    var e := Find(cache, uri);
    !Remote(location) || e.None? || e.value.time < cacheTime
  }

  /** The first attempt that has to be made and gives a non-empty inventory. */
  function FirstLoaded<X>(
    cache: seq<Cached<X>>, uri: string, attempts: seq<Attempt<X>>, cacheTime: int): Option<map<string, X>> {
    if attempts == [] then None
    else
      var a := attempts[0];
      if MustRead(cache, uri, Location(uri, a.inv), cacheTime) && a.outcome.Some? && a.outcome.value != map[]
      then a.outcome
      else FirstLoaded(cache, uri, attempts[1..], cacheTime)
  }

  function FetchedGroup<X>(cache: seq<Cached<X>>, g: Group<X>, now: int, cacheTime: int): seq<Cached<X>> {
    var inv := FirstLoaded(cache, g.uri, g.attempts, cacheTime);
    if inv.None? then cache else Put(cache, Cached(g.uri, g.name, now, inv.value))
  }

  predicate UpdatesGroup<X>(cache: seq<Cached<X>>, g: Group<X>, cacheTime: int) {
    FirstLoaded(cache, g.uri, g.attempts, cacheTime).Some?
  }

  /** The groups in the order in which their fetches complete. */
  function FetchedAll<X>(cache: seq<Cached<X>>, groups: seq<Group<X>>, now: int, cacheTime: int): seq<Cached<X>>
    decreases |groups|
  {
    if groups == [] then cache
    else FetchedAll(FetchedGroup(cache, groups[0], now, cacheTime), groups[1..], now, cacheTime)
  }

  predicate UpdatesAny<X>(cache: seq<Cached<X>>, groups: seq<Group<X>>, now: int, cacheTime: int)
    decreases |groups|
  {
    groups != [] &&
    (UpdatesGroup(cache, groups[0], cacheTime) ||
     UpdatesAny(FetchedGroup(cache, groups[0], now, cacheTime), groups[1..], now, cacheTime))
  }

  /** When no group reports an update the cache is what it was. */
  lemma {:induction false} NoUpdateNoChange<X>(cache: seq<Cached<X>>, groups: seq<Group<X>>, now: int, cacheTime: int)
    requires !UpdatesAny(cache, groups, now, cacheTime)
    ensures FetchedAll(cache, groups, now, cacheTime) == cache
    decreases |groups|
  {
    if groups != [] {
      NoUpdateNoChange(cache, groups[1..], now, cacheTime);
    }
  }

  // ---------------------------------------------------------------------------
  // The order of merging

  /** Python's order of strings, by code point. */
  predicate StringLess(a: string, b: string) {
    b != "" && (a == "" || a[0] < b[0] || (a[0] == b[0] && StringLess(a[1..], b[1..])))
  }

  /** The order of the tuples (name, time, ...) by their first two parts. */
  predicate AtMost<X>(a: Cached<X>, b: Cached<X>) {
    StringLess(a.name, b.name) || (a.name == b.name && a.time <= b.time)
  }

  function Inserted<X>(e: Cached<X>, sorted: seq<Cached<X>>): seq<Cached<X>> {
    if sorted == [] || AtMost(e, sorted[0]) then [e] + sorted else [sorted[0]] + Inserted(e, sorted[1..])
  }

  function SortedNamed<X>(cache: seq<Cached<X>>): seq<Cached<X>> {
    if cache == [] then []
    else if cache[0].name == "" then SortedNamed(cache[1..])
    else Inserted(cache[0], SortedNamed(cache[1..]))
  }

  function Unnamed<X>(cache: seq<Cached<X>>): seq<Cached<X>> {
    if cache == [] then []
    else if cache[0].name == "" then [cache[0]] + Unnamed(cache[1..])
    else Unnamed(cache[1..])
  }

  function MergeOrder<X>(cache: seq<Cached<X>>): seq<Cached<X>> {
    SortedNamed(cache) + Unnamed(cache)
  }

  lemma {:induction false} InsertedMembers<X>(e: Cached<X>, sorted: seq<Cached<X>>, c: Cached<X>)
    ensures c in Inserted(e, sorted) <==> c == e || c in sorted
  {
    if sorted != [] && !AtMost(e, sorted[0]) {
      InsertedMembers(e, sorted[1..], c);
    }
  }

  /** Merging visits every cached inventory: first the named ones, then the unnamed. */
  lemma {:induction false} OrderMembers<X>(cache: seq<Cached<X>>, c: Cached<X>)
    ensures c in SortedNamed(cache) <==> c in cache && c.name != ""
    ensures c in Unnamed(cache) <==> c in cache && c.name == ""
    ensures c in MergeOrder(cache) <==> c in cache
  {
    if cache != [] {
      OrderMembers(cache[1..], c);
      assert c in cache <==> c == cache[0] || c in cache[1..];
      if cache[0].name != "" {
        InsertedMembers(cache[0], SortedNamed(cache[1..]), c);
      }
    }
  }

  // ---------------------------------------------------------------------------
  // Merging

  type Inventory = map<string, Entries>

  function EntriesOf(m: Inventory, t: string): Entries {
    if t in m then m[t] else map[]
  }

  /** The main inventory after `inv` has been merged into it. */
  function MergedOne(m: Inventory, inv: Inventory): Inventory {
    map t | t in m.Keys + inv.Keys :: EntriesOf(m, t) + EntriesOf(inv, t)
  }

  function Kept(inv: Inventory, types: set<string>): Inventory {
    map t | t in inv && t in types :: inv[t]
  }

  lemma MergedOneNothing(m: Inventory, inv: Inventory, none: set<string>)
    requires none == {}
    ensures MergedOne(m, Kept(inv, none)) == m
  {
    assert forall t :: t in m ==> m[t] + map[] == m[t];
  }

  function Updated(m: Inventory, t: string, entries: Entries): Inventory {
    m[t := EntriesOf(m, t) + entries]
  }

  lemma KeptOneMore(inv: Inventory, types: set<string>, types': set<string>, t: string, u: string)
    requires t in inv && t !in types && types' == types + {t}
    ensures EntriesOf(Kept(inv, types'), u) == if u == t then inv[t] else EntriesOf(Kept(inv, types), u)
    ensures EntriesOf(Kept(inv, types), t) == map[]
  {}

  lemma MergedOneAt(m: Inventory, inv: Inventory, u: string)
    ensures u in MergedOne(m, inv) <==> u in m || u in inv
    ensures EntriesOf(MergedOne(m, inv), u) == EntriesOf(m, u) + EntriesOf(inv, u)
  {
    if u !in m && u !in inv { assert EntriesOf(m, u) + EntriesOf(inv, u) == map[]; }
  }

  lemma UpdatedFromDefault(m: Inventory, t: string, entries: Entries)
    ensures var m' := m[t := EntriesOf(m, t)]; Updated(m, t, entries) == m'[t := m'[t] + entries]
  {}

  lemma SameInventory(a: Inventory, b: Inventory)
    requires forall u :: (u in a <==> u in b) && EntriesOf(a, u) == EntriesOf(b, u)
    ensures a == b
  {
    assert a.Keys == b.Keys;
    forall u | u in a ensures a[u] == b[u] {
      assert EntriesOf(a, u) == EntriesOf(b, u);
    }
  }

  lemma MergedOneStepAt(m: Inventory, inv: Inventory, types: set<string>, types': set<string>, t: string, u: string)
    requires t in inv && t !in types && types' == types + {t}
    ensures var a, b := MergedOne(m, Kept(inv, types')), Updated(MergedOne(m, Kept(inv, types)), t, inv[t]);
            (u in a <==> u in b) && EntriesOf(a, u) == EntriesOf(b, u)
  {
    MergedOneAt(m, Kept(inv, types), u);
    MergedOneAt(m, Kept(inv, types'), u);
    KeptOneMore(inv, types, types', t, u);
    assert EntriesOf(m, u) + map[] == EntriesOf(m, u);
  }

  lemma MergedOneStep(m: Inventory, inv: Inventory, types: set<string>, types': set<string>, t: string)
    requires t in inv && t !in types && types' == types + {t}
    ensures MergedOne(m, Kept(inv, types')) == Updated(MergedOne(m, Kept(inv, types)), t, inv[t])
  {
    var a, b := MergedOne(m, Kept(inv, types')), Updated(MergedOne(m, Kept(inv, types)), t, inv[t]);
    forall u ensures (u in a <==> u in b) && EntriesOf(a, u) == EntriesOf(b, u) {
      MergedOneStepAt(m, inv, types, types', t, u);
    }
    SameInventory(a, b);
  }

  /** The value of an inventory whose inner dictionaries hold what `h` says. */
  ghost function InvOf<X>(inv: map<string, X>, h: map<X, Entries>): Inventory {
    map t | t in inv && inv[t] in h :: h[inv[t]]
  }

  /** Merging the inventories of `order`, one after the other, into `m`. */
  ghost function MergedFrom<X>(m: Inventory, order: seq<Cached<X>>, h: map<X, Entries>): Inventory
    decreases order
  {
    if order == [] then m else MergedFrom(MergedOne(m, InvOf(order[0].inv, h)), order[1..], h)
  }

  ghost function MergedAll<X>(order: seq<Cached<X>>, h: map<X, Entries>): Inventory {
    MergedFrom(map[], order, h)
  }

  function WithNamed<X>(named: map<string, map<string, X>>, e: Cached<X>): map<string, map<string, X>> {
    if e.name == "" then named else named[e.name := e.inv]
  }

  function NamedFrom<X>(named: map<string, map<string, X>>, order: seq<Cached<X>>): map<string, map<string, X>>
    decreases order
  {
    if order == [] then named else NamedFrom(WithNamed(named, order[0]), order[1..])
  }

  function NamedAll<X>(order: seq<Cached<X>>): map<string, map<string, X>> {
    NamedFrom(map[], order)
  }

  /** Two entries that sorting would have to tell apart by their inventories, which raises. */
  ghost predicate Incomparable<X>(a: Cached<X>, b: Cached<X>, h: map<X, Entries>) {
    a.name != "" && a.name == b.name && a.time == b.time && InvOf(a.inv, h) != InvOf(b.inv, h)
  }

  ghost predicate Sortable<X>(cache: seq<Cached<X>>, h: map<X, Entries>) {
    forall a, b {:trigger Incomparable(a, b, h)} :: a in cache && b in cache ==> !Incomparable(a, b, h)
  }

  // ---------------------------------------------------------------------------
  // Loading

  /** One call of load_mappings. */
  datatype Load<X> = Load(groups: seq<Group<X>>, now: int, cacheLimit: int) {
    function CacheTime(): int { now - cacheLimit * SECONDS_PER_DAY }
  }

  /** The cache, and whether both inventories are the merge of all of it. */
  datatype Index<X> = Index(cache: seq<Cached<X>>, synced: bool)

  function LoadedCache<X>(cache: seq<Cached<X>>, load: Load<X>): seq<Cached<X>> {
    FetchedAll(cache, load.groups, load.now, load.CacheTime())
  }

  /** The rebuild is skipped when no group reports an update; it fails when sorting raises. */
  ghost function Loaded<X>(s: Index<X>, load: Load<X>, h: map<X, Entries>): Index<X> {
    var cache := LoadedCache(s.cache, load);
    Index(cache, if UpdatesAny(s.cache, load.groups, load.now, load.CacheTime()) then Sortable(cache, h) else s.synced)
  }

  ghost predicate Raises<X>(cache: seq<Cached<X>>, load: Load<X>, h: map<X, Entries>) {
    UpdatesAny(cache, load.groups, load.now, load.CacheTime()) && !Sortable(LoadedCache(cache, load), h)
  }

  lemma {:induction false} NamesAreAdded<X>(named: map<string, map<string, X>>, order: seq<Cached<X>>, e: Cached<X>)
    requires e.name != "" && (e in order || e.name in named)
    ensures e.name in NamedFrom(named, order)
    decreases order
  {
    if order != [] {
      NamesAreAdded(WithNamed(named, order[0]), order[1..], e);
    }
  }

  /** Where sorting raises there are named inventories, and so the cleared ones are not the merge. */
  lemma UnsortableHasNames<X>(cache: seq<Cached<X>>, h: map<X, Entries>)
    requires !Sortable(cache, h)
    ensures NamedAll(MergeOrder(cache)) != map[]
  {
    var a, b :| a in cache && b in cache && Incomparable(a, b, h);
    OrderMembers(cache, a);
    NamesAreAdded(map[], MergeOrder(cache), a);
  }

  // ---------------------------------------------------------------------------
  // The code

  function Contents(inv: map<string, Objects>): Inventory
    reads inv.Values
  {
    map t | t in inv :: inv[t].entries
  }

  ghost function Footprint(cache: seq<Cached<Objects>>): set<Objects> {
    set c, t | c in cache && t in c.inv :: c.inv[t]
  }

  /** What the inner dictionaries of the cached inventories hold. */
  ghost function Snapshot(cache: seq<Cached<Objects>>): map<Objects, Entries>
    reads Footprint(cache)
  {
    map o | o in Footprint(cache) :: o.entries
  }

  /** An inner dictionary for every type, no two types sharing one. */
  ghost predicate Separate(inv: map<string, Objects>) {
    forall t, u :: t in inv && u in inv && inv[t] == inv[u] ==> t == u
  }

  lemma SnapshotContents(cache: seq<Cached<Objects>>, e: Cached<Objects>)
    requires e in cache
    ensures InvOf(e.inv, Snapshot(cache)) == Contents(e.inv)
  {}

  class InventoryAdapter {
    var cache: seq<Cached<Objects>>
    var mainInventory: map<string, Objects>
    var namedInventory: map<string, map<string, Objects>>

    /** Both inventories are the merge of the whole current cache. */
    ghost predicate Synced()
      reads this, mainInventory.Values, Footprint(cache)
    {
      && Contents(mainInventory) == MergedAll(MergeOrder(cache), Snapshot(cache))
      && namedInventory == NamedAll(MergeOrder(cache))
    }

    twostate lemma SyncedSame()
      requires unchanged(this)
      requires forall o: Objects :: o in Footprint(cache) || o in mainInventory.Values ==> unchanged(o)
      ensures Synced() <==> old(Synced())
    {
      assert Snapshot(cache) == old(Snapshot(cache));
      assert Contents(mainInventory) == old(Contents(mainInventory));
    }

    constructor ()
      ensures cache == [] && mainInventory == map[] && namedInventory == map[]
      ensures Synced()
    {
      cache, mainInventory, namedInventory := [], map[], map[];
    }

    method FetchInventoryGroup(g: Group<Objects>, now: int, cacheTime: int) returns (updated: bool)
      modifies `cache
      ensures cache == FetchedGroup(old(cache), g, now, cacheTime)
      ensures updated <==> UpdatesGroup(old(cache), g, cacheTime)
    {
      var todo := g.attempts;
      while todo != []
        invariant cache == old(cache)
        invariant FirstLoaded(cache, g.uri, g.attempts, cacheTime) == FirstLoaded(cache, g.uri, todo, cacheTime)
      {
        var location := Location(g.uri, todo[0].inv);
        if MustRead(cache, g.uri, location, cacheTime) {
          var invdata := todo[0].outcome;
          if invdata.Some? && invdata.value != map[] {
            cache := Put(cache, Cached(g.uri, g.name, now, invdata.value));
            return true;
          }
        }
        todo := todo[1..];
      }
      return false;
    }

    /** `groups` are in the order in which the concurrent fetches complete. */
    method FetchAll(groups: seq<Group<Objects>>, now: int, cacheTime: int) returns (anyUpdated: bool)
      modifies `cache
      ensures cache == FetchedAll(old(cache), groups, now, cacheTime)
      ensures anyUpdated <==> UpdatesAny(old(cache), groups, now, cacheTime)
    {
      anyUpdated := false;
      var todo := groups;
      while todo != []
        invariant FetchedAll(old(cache), groups, now, cacheTime) == FetchedAll(cache, todo, now, cacheTime)
        invariant UpdatesAny(old(cache), groups, now, cacheTime) <==>
                    anyUpdated || UpdatesAny(cache, todo, now, cacheTime)
      {
        var updated := FetchInventoryGroup(todo[0], now, cacheTime);
        anyUpdated := anyUpdated || updated;
        todo := todo[1..];
      }
    }

    /** main_inventory.setdefault(type, {}) */
    method SetDefault(t: string)
      requires Separate(mainInventory)
      modifies `mainInventory
      ensures Separate(mainInventory) && t in mainInventory
      ensures fresh(mainInventory.Values - old(mainInventory.Values))
      ensures Contents(mainInventory) == var m := old(Contents(mainInventory)); m[t := EntriesOf(m, t)]
    {
      if t !in mainInventory {
        var o := new Objects();
        mainInventory := mainInventory[t := o];
        assert mainInventory.Values <= old(mainInventory.Values) + {o};
      }
    }

    /** main_inventory.setdefault(type, {}).update(objects) */
    method UpdateType(t: string, objects: Objects)
      requires Separate(mainInventory) && objects !in mainInventory.Values
      modifies `mainInventory, mainInventory.Values
      ensures Separate(mainInventory) && fresh(mainInventory.Values - old(mainInventory.Values))
      ensures Contents(mainInventory) == Updated(old(Contents(mainInventory)), t, objects.entries)
    {
      SetDefault(t);
      ghost var m := Contents(mainInventory);
      UpdatedFromDefault(old(Contents(mainInventory)), t, objects.entries);
      var target := mainInventory[t];
      target.entries := target.entries + objects.entries;
      assert Contents(mainInventory) == m[t := m[t] + objects.entries];
    }

    /** The inner loop: only dictionaries already in the main inventory, or made here, are changed. */
    method MergeIn(inv: map<string, Objects>)
      requires Separate(mainInventory) && mainInventory.Values !! inv.Values
      modifies `mainInventory, mainInventory.Values
      ensures Separate(mainInventory) && fresh(mainInventory.Values - old(mainInventory.Values))
      ensures Contents(mainInventory) == MergedOne(old(Contents(mainInventory)), old(Contents(inv)))
    {
      ghost var start, other := Contents(mainInventory), Contents(inv);
      var todo := inv.Keys;
      MergedOneNothing(start, other, inv.Keys - todo);
      while todo != {}
        invariant todo <= inv.Keys && Separate(mainInventory)
        invariant fresh(mainInventory.Values - old(mainInventory.Values))
        invariant mainInventory.Values !! inv.Values
        invariant Contents(inv) == other
        invariant Contents(mainInventory) == MergedOne(start, Kept(other, inv.Keys - todo))
      {
        var t :| t in todo;
        MergedOneStep(start, other, inv.Keys - todo, inv.Keys - (todo - {t}), t);
        assert inv[t] in inv.Values && inv[t].entries == other[t];
        UpdateType(t, inv[t]);
        todo := todo - {t};
      }
      assert Kept(other, inv.Keys - todo) == other;
    }

    method Rebuild()
      modifies this
      ensures cache == old(cache) && Snapshot(cache) == old(Snapshot(cache)) && Synced()
    {
      var order := MergeOrder(cache);
      forall e | e in order ensures e in cache { OrderMembers(cache, e); }
      Clear();
      MergeAll(order, Snapshot(cache));
    }

    method MergeAll(order: seq<Cached<Objects>>, ghost h: map<Objects, Entries>)
      requires mainInventory == map[] && namedInventory == map[] && Snapshot(cache) == h
      requires forall e :: e in order ==> e in cache
      modifies `mainInventory, `namedInventory
      ensures Snapshot(cache) == h
      ensures Contents(mainInventory) == MergedAll(order, h) && namedInventory == NamedAll(order)
    {
      var todo := order;
      assert Contents(mainInventory) == map[];
      ghost var whole, names := MergedAll(order, h), NamedAll(order);
      while todo != []
        invariant forall e :: e in todo ==> e in cache
        invariant Separate(mainInventory) && fresh(mainInventory.Values) && Snapshot(cache) == h
        invariant mainInventory.Values !! Footprint(cache)
        invariant whole == MergedFrom(Contents(mainInventory), todo, h) && names == NamedFrom(namedInventory, todo)
      {
        MergeNext(todo, h, whole, names);
        todo := todo[1..];
      }
    }

    method MergeNext(
      todo: seq<Cached<Objects>>, ghost h: map<Objects, Entries>, ghost whole: Inventory, ghost names: map<string,
      map<string, Objects>>)
      requires todo != [] && todo[0] in cache && Snapshot(cache) == h
      requires Separate(mainInventory) && mainInventory.Values !! Footprint(cache)
      requires whole == MergedFrom(Contents(mainInventory), todo, h) && names == NamedFrom(namedInventory, todo)
      modifies `namedInventory, `mainInventory, mainInventory.Values
      ensures Separate(mainInventory) && fresh(mainInventory.Values - old(mainInventory.Values)) && Snapshot(cache) == h
      ensures mainInventory.Values !! Footprint(cache)
      ensures whole == MergedFrom(Contents(mainInventory), todo[1..], h)
      ensures names == NamedFrom(namedInventory, todo[1..])
    {
      MergeCached(todo[0], h);
    }

    /** The body of the outer loop. */
    method MergeCached(e: Cached<Objects>, ghost h: map<Objects, Entries>)
      requires e in cache && Snapshot(cache) == h
      requires Separate(mainInventory) && mainInventory.Values !! Footprint(cache)
      modifies `namedInventory, `mainInventory, mainInventory.Values
      ensures Separate(mainInventory) && fresh(mainInventory.Values - old(mainInventory.Values))
      ensures Contents(mainInventory) == MergedOne(old(Contents(mainInventory)), InvOf(e.inv, h))
      ensures namedInventory == WithNamed(old(namedInventory), e)
      ensures Snapshot(cache) == h
    {
      AddNamed(e);
      MergeObjects(e, h);
    }

    method AddNamed(e: Cached<Objects>)
      modifies `namedInventory
      ensures namedInventory == WithNamed(old(namedInventory), e)
      ensures Contents(mainInventory) == old(Contents(mainInventory)) && Snapshot(cache) == old(Snapshot(cache))
    {
      if e.name != "" {
        namedInventory := namedInventory[e.name := e.inv];
      }
    }

    method MergeObjects(e: Cached<Objects>, ghost h: map<Objects, Entries>)
      requires e in cache && Snapshot(cache) == h
      requires Separate(mainInventory) && mainInventory.Values !! Footprint(cache)
      modifies `mainInventory, mainInventory.Values
      ensures Separate(mainInventory) && fresh(mainInventory.Values - old(mainInventory.Values))
      ensures Contents(mainInventory) == MergedOne(old(Contents(mainInventory)), InvOf(e.inv, h))
      ensures Snapshot(cache) == h
    {
      SnapshotContents(cache, e);
      assert e.inv.Values <= Footprint(cache);
      MergeIn(e.inv);
    }

    /** Whether the tuples can be sorted: inventories are compared only when names and times are equal. */
    method CanSort() returns (ok: bool)
      ensures ok <==> Sortable(cache, Snapshot(cache))
    {
      for i := 0 to |cache|
        invariant forall a, b :: a in cache[..i] && b in cache ==> !Incomparable(a, b, Snapshot(cache))
      {
        ok := CanCompare(cache[i]);
        if !ok {
          return;
        }
        assert cache[..i + 1] == cache[..i] + [cache[i]];
      }
      return true;
    }

    method CanCompare(a: Cached<Objects>) returns (ok: bool)
      requires a in cache
      ensures ok <==> forall b :: b in cache ==> !Incomparable(a, b, Snapshot(cache))
    {
      ghost var h := Snapshot(cache);
      forall b | b in cache ensures InvOf(b.inv, h) == Contents(b.inv) { SnapshotContents(cache, b); }
      for j := 0 to |cache|
        invariant forall b :: b in cache[..j] ==> !Incomparable(a, b, h)
      {
        var b := cache[j];
        var same := Contents(a.inv) == Contents(b.inv);
        assert same <==> InvOf(a.inv, h) == InvOf(b.inv, h);
        if a.name != "" && a.name == b.name && a.time == b.time && !same {
          assert Incomparable(a, b, h);
          return false;
        }
        assert !Incomparable(a, b, h);
        assert cache[..j + 1] == cache[..j] + [b];
      }
      return true;
    }

    /**
     * load_mappings. The frame says that no cached inventory is changed: only
     * this object is, and dictionaries made during the call.
     */
    method LoadMappings(groups: seq<Group<Objects>>, now: int, cacheLimit: int) returns (raised: bool)
      modifies this
      ensures Index(cache, Synced()) ==
              Loaded(old(Index(cache, Synced())), Load(groups, now, cacheLimit), Snapshot(cache))
      ensures raised <==> Raises(old(cache), Load(groups, now, cacheLimit), Snapshot(cache))
      ensures raised ==> mainInventory == map[] && namedInventory == map[]
    {
      var cacheTime := now - cacheLimit * SECONDS_PER_DAY;
      var anyUpdated := FetchAll(groups, now, cacheTime);
      if !anyUpdated {
        NoUpdateNoChange(old(cache), groups, now, cacheTime);
        SyncedSame();
        return false;
      }
      raised := Refresh();
    }

    /** inventories.clear() and what follows it. */
    method Refresh() returns (raised: bool)
      modifies this
      ensures cache == old(cache)
      ensures raised <==> !Sortable(cache, Snapshot(cache))
      ensures Synced() <==> !raised
      ensures raised ==> mainInventory == map[] && namedInventory == map[]
    {
      var ok := CanSort();
      if !ok {
        UnsortableHasNames(cache, Snapshot(cache));
        Clear();
        return true;
      }
      Rebuild();
      return false;
    }

    method Clear()
      modifies `mainInventory, `namedInventory
      ensures mainInventory == map[] && namedInventory == map[]
      ensures Snapshot(cache) == old(Snapshot(cache))
    {
      mainInventory, namedInventory := map[], map[];
    }
  }
}
