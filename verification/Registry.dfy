/**
 * The factory registry: four related maps, changed by the RegisterFactory
 * constructors, by disableFactory, by the first lookup by type and by the
 * replace/restore pair that tests use.
 *
 * `State` is the value of the four maps. The functions on it say what one
 * operation does; `FactoryRegistry` is the code, proved against them; the
 * theorems about whole runs are in module RegistryRuns.
 */
module Registry {
  import opened Options

  /** A factory object. `id` stands for its address, so `==` is pointer equality. */
  datatype Factory = Factory(id: nat, name: string, configType: string)

  datatype BuildVersion =
    BuildVersion(major: nat, minor: nat, patch: nat, metadata: map<string, string>)

  /** A factory pointer by name or by type; `None` is the null pointer. */
  type Pointers = map<string, Option<Factory>>

  datatype State = State(
    factories: Pointers,
    deprecated: map<string, string>,
    versions: map<string, BuildVersion>,
    byType: Option<Pointers>)  // None until the first lookup by type

  const EMPTY := State(map[], map[], map[], None)

  function Canonical(s: State, name: string): string {
    if name in s.deprecated then s.deprecated[name] else name
  }

  function VersionOf(s: State, name: string): Option<BuildVersion> {
    if name in s.versions then Some(s.versions[name]) else None
  }

  /** Whether `name` passes the deprecation check; `allow` is the runtime's policy. */
  predicate Allowed(s: State, name: string, allow: (string, string) -> bool) {
    name in s.deprecated ==> allow(name, s.deprecated[name])
  }

  function Get(s: State, name: string, allow: (string, string) -> bool): Option<Factory> {
    if name in s.factories && Allowed(s, name, allow) then s.factories[name] else None
  }

  function Pick(index: Pointers, configType: string): Option<Factory> {
    if configType in index then index[configType] else None
  }

  // ---------------------------------------------------------------------------
  // Registration

  /** The state once `name` has been given to `f`; an empty `instead` links nothing. */
  function Added(s: State, f: Factory, name: string, version: Option<BuildVersion>, instead: string): State {
    s.(factories := s.factories[name := Some(f)],
       versions := if version.Some? && name !in s.versions then s.versions[name := version.value] else s.versions,
       deprecated := if instead != "" && name !in s.deprecated then s.deprecated[name := instead] else s.deprecated)
  }

  /** Registering `f` under each alias in turn, up to the first name already taken. */
  function AddedAliases(s: State, f: Factory, aliases: seq<string>, version: Option<BuildVersion>): State
    decreases aliases
  {
    if aliases == [] || aliases[0] in s.factories then s
    else AddedAliases(Added(s, f, aliases[0], version, f.name), f, aliases[1..], version)
  }

  /** The constructor without deprecated names: nothing happens when the name is taken. */
  function Registered(s: State, f: Factory): State {
    if f.name in s.factories then s else Added(s, f, f.name, None, "")
  }

  /** The constructors with deprecated names; a nameless factory starts at its aliases. */
  function RegisteredWithAliases(s: State, f: Factory, aliases: seq<string>, version: Option<BuildVersion>): State {
    if f.name == "" then AddedAliases(s, f, aliases, version)
    else if f.name in s.factories then s
    else AddedAliases(Added(s, f, f.name, version, ""), f, aliases, version)
  }

  /** Whether emplacing `names` one after the other finds one of them taken. */
  predicate Clashes(taken: set<string>, names: seq<string>)
    decreases names
  {
    names != [] && (names[0] in taken || Clashes(taken + {names[0]}, names[1..]))
  }

  /** A clash is a name taken before, or a name given twice. */
  lemma {:induction false} ClashMeaning(taken: set<string>, names: seq<string>)
    ensures Clashes(taken, names) <==>
              || (exists i :: 0 <= i < |names| && names[i] in taken)
              || (exists i, j :: 0 <= i < j < |names| && names[i] == names[j])
    decreases names
  {
    if names != [] {
      var rest := names[1..];
      ClashMeaning(taken + {names[0]}, rest);
      assert forall i :: 0 <= i < |rest| ==> rest[i] == names[i + 1];
      assert forall i :: 0 < i < |names| ==> names[i] == rest[i - 1];
    }
  }

  // ---------------------------------------------------------------------------
  // Disabling

  function Disabled(s: State, name: string): State {
    var c := Canonical(s, name);
    s.(factories := map n | n in s.factories ::
         if n == c || (n in s.deprecated && s.deprecated[n] == c) then None else s.factories[n])
  }

  // ---------------------------------------------------------------------------
  // The index by configuration type

  /** The distinct enabled factories of type `t` found under `names`. */
  ghost function Claimants(fs: Pointers, names: set<string>, t: string): set<Factory> {
    set n | n in names && n in fs && fs[n].Some? && fs[n].value.configType == t :: fs[n].value
  }

  /**
   * `index` holds exactly the non-empty types of the enabled factories among
   * `names`; a type maps to its factory when it has only one, else to null.
   */
  ghost predicate IsIndex(fs: Pointers, names: set<string>, index: Pointers) {
    forall t: string ::
      && (t in index <==> t != "" && Claimants(fs, names, t) != {})
      && (t in index ==>
            match index[t]
            case Some(f) => Claimants(fs, names, t) == {f}
            case None => forall f :: Claimants(fs, names, t) != {f})
  }

  lemma IndexUnique(fs: Pointers, names: set<string>, a: Pointers, b: Pointers)
    requires IsIndex(fs, names, a) && IsIndex(fs, names, b)
    ensures a == b
  {
    forall t | t in a ensures t in b && a[t] == b[t] {
      if a[t].Some? { assert Claimants(fs, names, t) == {a[t].value}; }
      if b[t].Some? { assert Claimants(fs, names, t) == {b[t].value}; }
      if a[t].Some? && b[t].Some? { assert a[t].value in {b[t].value}; }
    }
    assert a.Keys == b.Keys by {
      assert forall t :: t in a <==> t in b;
    }
  }

  /** The index after one more factory pointer has been visited. */
  function Visited(index: Pointers, p: Option<Factory>): Pointers {
    if p.None? || p.value.configType == "" then index
    else
      var t := p.value.configType;
      if t in index && index[t] != p then index[t := None]
      else if t in index then index else index[t := p]
  }

  /** One more name visited, whichever it is. */
  lemma IndexStep(fs: Pointers, names: set<string>, name: string, index: Pointers)
    requires name in fs && name !in names && IsIndex(fs, names, index)
    ensures IsIndex(fs, names + {name}, Visited(index, fs[name]))
  {
    var index' := Visited(index, fs[name]);
    forall t: string
      ensures t in index' <==> t != "" && Claimants(fs, names + {name}, t) != {}
      ensures t in index' ==>
                match index'[t]
                case Some(f) => Claimants(fs, names + {name}, t) == {f}
                case None => forall f :: Claimants(fs, names + {name}, t) != {f}
    {
      var before, after := Claimants(fs, names, t), Claimants(fs, names + {name}, t);
      if fs[name].Some? && fs[name].value.configType == t {
        assert after == before + {fs[name].value};
        assert forall g :: after == {g} && before != {} ==> before == {g};
      } else {
        assert after == before;
      }
    }
  }

  lemma {:induction false} IndexExists(fs: Pointers, names: set<string>)
    requires names <= fs.Keys
    ensures exists index :: IsIndex(fs, names, index)
  {
    if names == {} {
      assert IsIndex(fs, names, map[]);
    } else {
      var name :| name in names;
      IndexExists(fs, names - {name});
      var index :| IsIndex(fs, names - {name}, index);
      IndexStep(fs, names - {name}, name, index);
      assert names - {name} + {name} == names;
    }
  }

  /** The by-type map that a build over the factories `fs` gives. */
  ghost function IndexOf(fs: Pointers): (index: Pointers)
    ensures IsIndex(fs, fs.Keys, index)
  {
    IndexExists(fs, fs.Keys);
    var index :| IsIndex(fs, fs.Keys, index);
    index
  }

  // ---------------------------------------------------------------------------
  // Replacing a factory in a test

  /** What a deprecated name was mapped to before; an empty canonical name stands for nothing. */
  datatype Mapping = Mapping(name: string, canonical: string)

  /** The state once the test factory has also been given the deprecated name `d`. */
  function Renamed(s: State, f: Factory, d: string): State {
    s.(factories := if d in s.factories then s.factories else s.factories[d := Some(f)],
       deprecated := s.deprecated[d := f.name])
  }

  /** All deprecated names in turn; None if one of them is held by another factory, which aborts the process. */
  function RenamedAll(s: State, f: Factory, names: seq<string>): Option<State>
    decreases names
  {
    if names == [] then Some(s)
    else if names[0] in s.factories && s.factories[names[0]] != Some(f) then None
    else RenamedAll(Renamed(s, f, names[0]), f, names[1..])
  }

  /** What the deprecated names were mapped to, each at its turn. */
  function Mappings(s: State, f: Factory, names: seq<string>): seq<Mapping>
    decreases names
  {
    if names == [] then [] else
    [Mapping(names[0], if names[0] in s.deprecated then s.deprecated[names[0]] else "")] +
    Mappings(Renamed(s, f, names[0]), f, names[1..])
  }

  /** The state once `f` has displaced what its name held. */
  function Installed(s: State, f: Factory): State {
    s.(factories := s.factories[f.name := Some(f)])
  }

  /**
   * The state after a replacement, with a rebuilt index. There is none when a
   * null displaced pointer is dereferenced, which happens only to log it, or
   * when the new factory cannot be looked up again, which aborts the process.
   */
  ghost function Replaced(
    s: State, f: Factory, names: seq<string>, allow: (string, string) -> bool, infoLogged: bool): Option<State>
  {
    if infoLogged && f.name in s.factories && s.factories[f.name].None? then None
    else if !Allowed(s, f.name, allow) then None
    else
      var renamed := RenamedAll(Installed(s, f), f, names);
      if renamed.None? then None else Some(Reindexed(renamed.value))
  }

  ghost function Reindexed(s: State): State {
    s.(byType := Some(IndexOf(s.factories)))
  }

  /** The factory that a replacement under `name` displaces. */
  function Displaced(s: State, name: string): Option<Factory> {
    if name in s.factories then s.factories[name] else None
  }

  /** The first part of the restore closure: the displaced factory is put back under its own name. */
  function Ejected(s: State, f: Factory, displaced: Option<Factory>): State {
    var fs := s.factories - {f.name};
    s.(factories := if displaced.Some? && displaced.value.name !in fs
                    then fs[displaced.value.name := displaced] else fs)
  }

  /** The second part: the mappings are put back; None where a canonical name has no factory, which aborts. */
  function Remapped(s: State, mappings: seq<Mapping>, allow: (string, string) -> bool): Option<State>
    decreases mappings
  {
    if mappings == [] then Some(s) else
    var m := mappings[0];
    if m.canonical == "" then Remapped(s.(deprecated := s.deprecated - {m.name}), mappings[1..], allow) else
    var s1 := s.(deprecated := s.deprecated[m.name := m.canonical]);
    if Get(s1, m.canonical, allow).None? then None else Remapped(s1, mappings[1..], allow)
  }

  ghost function Restored(
    s: State, f: Factory, displaced: Option<Factory>, mappings: seq<Mapping>, allow: (string, string) -> bool)
    : Option<State>
  {
    var remapped := Remapped(Ejected(s, f, displaced), mappings, allow);
    if remapped.None? then None else Some(Reindexed(remapped.value))
  }

  // ---------------------------------------------------------------------------
  // The code

  class FactoryRegistry {
    var factories: Pointers
    var deprecatedFactoryNames: map<string, string>
    var versionedFactories: map<string, BuildVersion>
    var factoriesByType: Option<Pointers>

    ghost function View(): State
      reads this
    {
      State(factories, deprecatedFactoryNames, versionedFactories, factoriesByType)
    }

    constructor ()
      ensures View() == EMPTY
    {
      factories, deprecatedFactoryNames, versionedFactories, factoriesByType := map[], map[], map[], None;
    }

    /** Both overloads of registerFactory: `version` is absent in the first. */
    method RegisterFactory(f: Factory, name: string, version: Option<BuildVersion>, insteadValue: string)
      returns (threw: bool)
      modifies this
      ensures threw <==> name in old(factories)
      ensures View() == if threw then old(View()) else Added(old(View()), f, name, version, insteadValue)
    {
      if name in factories {
        return true;
      }
      factories := factories[name := Some(f)];
      if version.Some? && name !in versionedFactories {
        versionedFactories := versionedFactories[name := version.value];
      }
      if insteadValue != "" && name !in deprecatedFactoryNames {
        deprecatedFactoryNames := deprecatedFactoryNames[name := insteadValue];
      }
      return false;
    }

    /** The RegisterFactory constructor without deprecated names, and RegisterInternalFactory. */
    method Register(f: Factory) returns (threw: bool)
      modifies this
      ensures threw <==> Clashes(old(factories).Keys, [f.name])
      ensures View() == Registered(old(View()), f)
    {
      threw := RegisterFactory(f, f.name, None, "");
    }

    /** The RegisterFactory constructors with deprecated names, versioned or not. */
    method RegisterWithAliases(f: Factory, aliases: seq<string>, version: Option<BuildVersion>)
      returns (threw: bool)
      modifies this
      ensures threw <==> Clashes(old(factories).Keys, if f.name == "" then aliases else [f.name] + aliases)
      ensures View() == RegisteredWithAliases(old(View()), f, aliases, version)
    {
      assert ([f.name] + aliases)[1..] == aliases;
      if f.name != "" {
        threw := RegisterFactory(f, f.name, version, "");
        if threw {
          return;
        }
        assert factories.Keys == old(factories).Keys + {f.name};
      }
      threw := RegisterAliases(f, aliases, version);
    }

    /** The loop over the deprecated names. */
    method RegisterAliases(f: Factory, aliases: seq<string>, version: Option<BuildVersion>)
      returns (threw: bool)
      modifies this
      ensures threw <==> Clashes(old(factories).Keys, aliases)
      ensures View() == AddedAliases(old(View()), f, aliases, version)
    {
      for i := 0 to |aliases|
        invariant Clashes(old(factories).Keys, aliases) == Clashes(factories.Keys, aliases[i..])
        invariant AddedAliases(old(View()), f, aliases, version) == AddedAliases(View(), f, aliases[i..], version)
      {
        ghost var taken := factories.Keys;
        assert aliases[i..][1..] == aliases[i + 1..];
        threw := RegisterFactory(f, aliases[i], version, f.name);
        if threw {
          return;
        }
        assert factories.Keys == taken + {aliases[i]};
      }
      return false;
    }

    method DisableFactory(name: string) returns (found: bool)
      modifies this
      ensures View() == Disabled(old(View()), name)
      ensures found <==> Canonical(old(View()), name) in old(factories)
    {
      var canonicalName := CanonicalFactoryName(name);
      var todo := deprecatedFactoryNames.Keys;
      while todo != {}
        invariant todo <= deprecatedFactoryNames.Keys
        invariant unchanged(`deprecatedFactoryNames) && unchanged(`versionedFactories) && unchanged(`factoriesByType)
        invariant factories.Keys == old(factories).Keys
        invariant forall n :: n in factories ==>
                    factories[n] == (if n in deprecatedFactoryNames - todo && deprecatedFactoryNames[n] == canonicalName
                                     then None else old(factories)[n])
      {
        var deprecatedName :| deprecatedName in todo;
        todo := todo - {deprecatedName};
        if deprecatedFactoryNames[deprecatedName] == canonicalName {
          var _ := Disable(deprecatedName);
        }
      }
      found := Disable(canonicalName);
    }

    method Disable(name: string) returns (found: bool)
      modifies `factories
      ensures found <==> name in old(factories)
      ensures factories == if found then old(factories)[name := None] else old(factories)
    {
      found := name in factories;
      if found {
        factories := factories[name := None];
      }
    }

    method CanonicalFactoryName(name: string) returns (canonicalName: string)
      ensures canonicalName == Canonical(View(), name)
    {
      canonicalName := if name in deprecatedFactoryNames then deprecatedFactoryNames[name] else name;
    }

    method GetFactory(name: string, allow: (string, string) -> bool) returns (f: Option<Factory>)
      ensures f == Get(View(), name, allow)
    {
      if name !in factories {
        return None;
      }
      if name in deprecatedFactoryNames && !allow(name, deprecatedFactoryNames[name]) {
        return None;
      }
      return factories[name];
    }

    /** The first lookup by type builds the index; later ones read it as it is. */
    method GetFactoryByType(configType: string) returns (f: Option<Factory>)
      modifies `factoriesByType
      ensures factoriesByType ==
              Some(if old(factoriesByType).Some? then old(factoriesByType).value else IndexOf(factories))
      ensures f == Pick(factoriesByType.value, configType)
    {
      if factoriesByType.None? {
        var index := BuildFactoriesByType();
        factoriesByType := Some(index);
      }
      f := if configType in factoriesByType.value then factoriesByType.value[configType] else None;
    }

    /** Whatever order the hash map is walked in, the index is the one that IsIndex describes. */
    method BuildFactoriesByType() returns (mapping: Pointers)
      ensures IsIndex(factories, factories.Keys, mapping)
      ensures mapping == IndexOf(factories)
    {
      mapping := map[];
      var todo := factories.Keys;
      while todo != {}
        invariant todo <= factories.Keys
        invariant IsIndex(factories, factories.Keys - todo, mapping)
      {
        var name :| name in todo;
        var factory := factories[name];
        IndexStep(factories, factories.Keys - todo, name, mapping);
        assert factories.Keys - (todo - {name}) == factories.Keys - todo + {name};
        todo := todo - {name};
        if factory.None? {
          continue;
        }
        var configType := factory.value.configType;
        if configType == "" {
          continue;
        }
        if configType in mapping && mapping[configType] != factory {
          mapping := mapping[configType := None];
        } else if configType !in mapping {
          mapping := mapping[configType := factory];
        }
      }
      assert factories.Keys - todo == factories.Keys;
      IndexUnique(factories, factories.Keys, mapping, IndexOf(factories));
    }

    method RebuildFactoriesByTypeForTest()
      modifies `factoriesByType
      ensures factoriesByType == Some(IndexOf(factories))
    {
      var updated := BuildFactoriesByType();
      factoriesByType := Some(updated);
    }

    /** `ok` is false where the process dies; the other results are what the closure captures. */
    method ReplaceFactoryForTest(
      f: Factory, names: seq<string>, allow: (string, string) -> bool, infoLogged: bool)
      returns (ok: bool, prevByName: Option<Factory>, prevNames: seq<Mapping>)
      modifies this
      ensures ok <==> Replaced(old(View()), f, names, allow, infoLogged).Some?
      ensures ok ==> View() == Replaced(old(View()), f, names, allow, infoLogged).value
      ensures ok ==> prevByName == Displaced(old(View()), f.name)
      ensures ok ==> prevNames == Mappings(Installed(old(View()), f), f, names)
    {
      prevByName, prevNames := None, [];
      if f.name in factories {
        prevByName := factories[f.name];
        factories := factories - {f.name};
        if infoLogged && prevByName.None? {
          return false, None, [];
        }
      }
      factories := factories[f.name := Some(f)];
      assert View() == Installed(old(View()), f);
      var found := GetFactory(f.name, allow);
      if found != Some(f) {
        return false, None, [];
      }
      ok, prevNames := AddNamesForTest(f, names, allow);
      if ok {
        RebuildFactoriesByTypeForTest();
      }
    }

    /** The loop over the deprecated names of a test factory. */
    method AddNamesForTest(f: Factory, names: seq<string>, allow: (string, string) -> bool)
      returns (ok: bool, prevNames: seq<Mapping>)
      modifies `factories, `deprecatedFactoryNames
      ensures ok <==> RenamedAll(old(View()), f, names).Some?
      ensures ok ==> View() == RenamedAll(old(View()), f, names).value
      ensures ok ==> prevNames == Mappings(old(View()), f, names)
    {
      prevNames := [];
      var todo := names;
      while todo != []
        invariant unchanged(`versionedFactories) && unchanged(`factoriesByType)
        invariant RenamedAll(View(), f, todo) == RenamedAll(old(View()), f, names)
        invariant prevNames + Mappings(View(), f, todo) == Mappings(old(View()), f, names)
      {
        ok, prevNames := AddNameForTest(f, todo[0], allow, prevNames);
        if !ok {
          return false, [];
        }
        todo := todo[1..];
      }
      return true, prevNames;
    }

    method AddNameForTest(f: Factory, name: string, allow: (string, string) -> bool, prevNames: seq<Mapping>)
      returns (ok: bool, prevNames': seq<Mapping>)
      modifies `factories, `deprecatedFactoryNames
      ensures ok <==> (name in old(factories) ==> old(factories)[name] == Some(f))
      ensures ok ==> View() == Renamed(old(View()), f, name)
      ensures prevNames' == prevNames + [Mapping(name, if name in old(deprecatedFactoryNames)
                                                       then old(deprecatedFactoryNames)[name] else "")]
    {
      if name in deprecatedFactoryNames {
        prevNames' := prevNames + [Mapping(name, deprecatedFactoryNames[name])];
        deprecatedFactoryNames := deprecatedFactoryNames - {name};
      } else {
        prevNames' := prevNames + [Mapping(name, "")];
      }
      if name !in factories {
        factories := factories[name := Some(f)];
      }
      var found := GetFactory(name, allow);
      ok := found == Some(f);
      deprecatedFactoryNames := deprecatedFactoryNames[name := f.name];
    }

    /** The closure that replaceFactoryForTest returns. */
    method RestoreForTest(
      replacement: Factory, prevByName: Option<Factory>, prevNames: seq<Mapping>, allow: (string, string) -> bool)
      returns (ok: bool)
      modifies this
      ensures ok <==> Restored(old(View()), replacement, prevByName, prevNames, allow).Some?
      ensures ok ==> View() == Restored(old(View()), replacement, prevByName, prevNames, allow).value
    {
      factories := factories - {replacement.name};
      if prevByName.Some? && prevByName.value.name !in factories {
        factories := factories[prevByName.value.name := prevByName];
      }
      assert View() == Ejected(old(View()), replacement, prevByName);
      ok := RestoreNamesForTest(prevNames, allow);
      if ok {
        RebuildFactoriesByTypeForTest();
      }
    }

    /** The loop over the displaced mappings; registering a canonical name that was found changes nothing. */
    method RestoreNamesForTest(prevNames: seq<Mapping>, allow: (string, string) -> bool) returns (ok: bool)
      modifies `factories, `deprecatedFactoryNames
      ensures ok <==> Remapped(old(View()), prevNames, allow).Some?
      ensures ok ==> View() == Remapped(old(View()), prevNames, allow).value
    {
      var todo := prevNames;
      while todo != []
        invariant unchanged(`versionedFactories) && unchanged(`factoriesByType)
        invariant Remapped(View(), todo, allow) == Remapped(old(View()), prevNames, allow)
      {
        var m := todo[0];
        ghost var s := View();
        deprecatedFactoryNames := deprecatedFactoryNames - {m.name};
        if m.canonical != "" {
          deprecatedFactoryNames := deprecatedFactoryNames[m.name := m.canonical];
          assert View() == s.(deprecated := s.deprecated[m.name := m.canonical]);
          var deprecatedFactory := GetFactory(m.canonical, allow);
          if deprecatedFactory.None? {
            return false;
          }
          factories := if m.canonical in factories then factories else factories[m.canonical := deprecatedFactory];
        }
        todo := todo[1..];
      }
      return true;
    }
  }
}
