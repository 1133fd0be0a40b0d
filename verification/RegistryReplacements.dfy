/** Which replacements of a factory in a test are undone by the closure that is to undo them. */
module RegistryReplacements {
  import opened Options
  import opened Registry
  import opened RegistryRuns

  /** A well-nested series of replacements: `inside` runs before `f` is restored, `after` after it. */
  datatype Script = Done | Inject(f: Factory, inside: Script, after: Script)

  /** None when one of the replacements kills the process. */
  ghost function RunScript(
    s: State, script: Script, allow: (string, string) -> bool, infoLogged: bool): Option<State>
    decreases script
  {
    match script
    case Done => Some(s)
    case Inject(f, inside, after) =>
      var s1 := Replaced(s, f, [], allow, infoLogged);
      if s1.None? then None else
      var s2 := RunScript(s1.value, inside, allow, infoLogged);
      if s2.None? then None else
      var s3 := Restored(s2.value, f, Displaced(s, f.name), [], allow);
      if s3.None? then None else RunScript(s3.value, after, allow, infoLogged)
  }

  function Injected(script: Script): set<string> {
    match script
    case Done => {}
    case Inject(f, inside, after) => {f.name} + Injected(inside) + Injected(after)
  }

  /** A name is free, or held by an enabled factory of that very name; and it is no alias. */
  ghost predicate Replaceable(s: State, name: string) {
    name !in s.deprecated && OwnOrFree(s, name)
  }

  /** A name is free, or held by an enabled factory of that very name. */
  ghost predicate OwnOrFree(s: State, name: string) {
    name in s.factories ==> s.factories[name].Some? && s.factories[name].value.name == name
  }

  /** The state after replacing and restoring at once; None where one of them kills the process. */
  ghost function ReplacedAndRestored(
    s: State, f: Factory, names: seq<string>, allow: (string, string) -> bool, infoLogged: bool): Option<State>
  {
    var s1 := Replaced(s, f, names, allow, infoLogged);
    if s1.None? then None
    else Restored(s1.value, f, Displaced(s, f.name), Mappings(Installed(s, f), f, names), allow)
  }

  /** The deprecated names that were free now hold the test factory; no other name changed. */
  lemma {:induction false} RenamedFactories(s: State, f: Factory, names: seq<string>, n: string)
    requires RenamedAll(s, f, names).Some?
    ensures var fs := RenamedAll(s, f, names).value.factories;
            && (n in fs <==> n in s.factories || n in names)
            && (n in s.factories ==> fs[n] == s.factories[n])
            && (n in names ==> fs[n] == Some(f))
    decreases names
  {
    if names != [] {
      RenamedFactories(Renamed(s, f, names[0]), f, names[1..], n);
      assert n in names <==> n == names[0] || n in names[1..];
    }
  }

  lemma {:induction false} RemappedFactories(s: State, mappings: seq<Mapping>, allow: (string, string) -> bool)
    requires Remapped(s, mappings, allow).Some?
    ensures Remapped(s, mappings, allow).value.factories == s.factories
    decreases mappings
  {
    if mappings != [] {
      var m := mappings[0];
      if m.canonical == "" {
        RemappedFactories(s.(deprecated := s.deprecated - {m.name}), mappings[1..], allow);
      } else {
        RemappedFactories(s.(deprecated := s.deprecated[m.name := m.canonical]), mappings[1..], allow);
      }
    }
  }

  lemma {:induction false} RenamingSucceedsIff(s: State, f: Factory, names: seq<string>)
    ensures RenamedAll(s, f, names).Some? <==>
            forall d :: d in names && d in s.factories ==> s.factories[d] == Some(f)
    decreases names
  {
    if names != [] {
      RenamingSucceedsIff(Renamed(s, f, names[0]), f, names[1..]);
      assert forall d :: d in names <==> d == names[0] || d in names[1..];
    }
  }

  /**
   * A replacement goes through exactly if no null pointer is logged, the own name
   * passes the deprecation check, and no other factory holds a deprecated name.
   */
  lemma ReplaceSucceedsIff(
    s: State, f: Factory, names: seq<string>, allow: (string, string) -> bool, infoLogged: bool)
    ensures Replaced(s, f, names, allow, infoLogged).Some? <==>
            && !(infoLogged && f.name in s.factories && s.factories[f.name].None?)
            && (f.name in s.deprecated ==> allow(f.name, s.deprecated[f.name]))
            && forall d :: d in names && d != f.name && d in s.factories ==> s.factories[d] == Some(f)
  {
    RenamingSucceedsIff(Installed(s, f), f, names);
  }

  lemma {:induction false} RenamedMapsTo(s: State, f: Factory, names: seq<string>, n: string)
    requires RenamedAll(s, f, names).Some? && n in names
    ensures var s' := RenamedAll(s, f, names).value; n in s'.deprecated && s'.deprecated[n] == f.name
    decreases names
  {
    if n in names[1..] {
      RenamedMapsTo(Renamed(s, f, names[0]), f, names[1..], n);
    } else {
      RenamedMap(Renamed(s, f, names[0]), f, names[1..], n);
    }
  }

  lemma {:induction false} RenamedVersions(s: State, f: Factory, names: seq<string>)
    requires RenamedAll(s, f, names).Some?
    ensures RenamedAll(s, f, names).value.versions == s.versions
    decreases names
  {
    if names != [] { RenamedVersions(Renamed(s, f, names[0]), f, names[1..]); }
  }

  /**
   * After a replacement the test factory holds its own name and its deprecated
   * names, which are mapped to its own; every other name is as before, and the
   * index is that of the factories.
   */
  lemma ReplacementTakesEffect(
    s: State, f: Factory, names: seq<string>, allow: (string, string) -> bool, infoLogged: bool, n: string)
    requires Replaced(s, f, names, allow, infoLogged).Some?
    ensures var s' := Replaced(s, f, names, allow, infoLogged).value;
            && (n == f.name || n in names ==> n in s'.factories && s'.factories[n] == Some(f))
            && (n != f.name && n !in names ==> Displaced(s', n) == Displaced(s, n))
            && (n != f.name && n !in names ==> (n in s'.factories <==> n in s.factories))
            && MappingOf(s', n) == (if n in names then Mapping(n, f.name) else MappingOf(s, n))
            && s'.versions == s.versions
            && s'.byType.Some? && IsIndex(s'.factories, s'.factories.Keys, s'.byType.value)
  {
    var s0 := Installed(s, f);
    RenamedFactories(s0, f, names, n);
    RenamedVersions(s0, f, names);
    if n in names { RenamedMapsTo(s0, f, names, n); } else { RenamedMap(s0, f, names, n); }
  }

  /** What replacing and restoring leaves under a name. */
  lemma LeftAfterRestore(
    s: State, f: Factory, names: seq<string>, allow: (string, string) -> bool, infoLogged: bool, n: string)
    requires ReplacedAndRestored(s, f, names, allow, infoLogged).Some?
    ensures var fs := ReplacedAndRestored(s, f, names, allow, infoLogged).value.factories;
            && (n == f.name ==> (n in fs <==> n in s.factories && OwnOrFree(s, n)))
            && (n == f.name && n in fs ==> fs[n] == s.factories[n])
            && (n != f.name && n in s.factories ==> n in fs && fs[n] == s.factories[n])
            && (n != f.name && n in names && n !in s.factories ==> n in fs && fs[n] == Some(f))
            && (n in fs && OwnOrFree(s, f.name) ==> n in s.factories || n in names)
  {
    var s1 := Replaced(s, f, names, allow, infoLogged).value;
    RenamedFactories(Installed(s, f), f, names, n);
    RemappedFactories(Ejected(s1, f, Displaced(s, f.name)), Mappings(Installed(s, f), f, names), allow);
  }

  /**
   * Restoring right after replacing gives the factories back exactly if the own
   * name of the test factory was free or held by an enabled factory of that very
   * name, and each deprecated name is that name or was registered before. If not,
   * the own name is free afterwards, or the new deprecated names keep the test factory.
   */
  lemma RestoreUndoesReplaceIff(
    s: State, f: Factory, names: seq<string>, allow: (string, string) -> bool, infoLogged: bool)
    requires ReplacedAndRestored(s, f, names, allow, infoLogged).Some?
    ensures var fs := ReplacedAndRestored(s, f, names, allow, infoLogged).value.factories;
            && (fs == s.factories <==>
                  OwnOrFree(s, f.name) && forall d :: d in names && d != f.name ==> d in s.factories)
            && (!OwnOrFree(s, f.name) ==> f.name !in fs)
            && (forall d :: d in names && d != f.name && d !in s.factories ==> d in fs && fs[d] == Some(f))
  {
    var fs := ReplacedAndRestored(s, f, names, allow, infoLogged).value.factories;
    forall n
      ensures n == f.name ==> (n in fs <==> n in s.factories && OwnOrFree(s, n))
      ensures n == f.name && n in fs ==> fs[n] == s.factories[n]
      ensures n != f.name && n in s.factories ==> n in fs && fs[n] == s.factories[n]
      ensures n != f.name && n in names && n !in s.factories ==> n in fs && fs[n] == Some(f)
      ensures n in fs && OwnOrFree(s, f.name) ==> n in s.factories || n in names
    {
      LeftAfterRestore(s, f, names, allow, infoLogged, n);
    }
    if OwnOrFree(s, f.name) && forall d :: d in names && d != f.name ==> d in s.factories {
      assert fs.Keys == s.factories.Keys;
    }
  }

  /** An alias replaced in a test is gone once the test has restored it. */
  lemma ReplacedAliasIsLost()
    ensures var s := Run(EMPTY, [RegisterWithAliases(Factory(0, "g", "type"), ["a"], None)]);
            var s' := ReplacedAndRestored(s, Factory(1, "a", "type"), [], (name, canonical) => true, true);
            "a" in s.factories && s'.Some? && "a" !in s'.value.factories
  {
    var g, step := Factory(0, "g", "type"), RegisterWithAliases(Factory(0, "g", "type"), ["a"], None);
    OneAliasRegistered(g, "a", step);
    RestoreUndoesReplaceIff(Next(EMPTY, step), Factory(1, "a", "type"), [], (name, canonical) => true, true);
  }

  lemma OneAliasRegistered(g: Factory, alias: string, step: Step)
    requires g.name != "" && alias != g.name && step == RegisterWithAliases(g, [alias], None)
    ensures Run(EMPTY, [step]) == Next(EMPTY, step)
    ensures alias in Next(EMPTY, step).factories && Next(EMPTY, step).factories[alias] == Some(g)
  {
    var s1 := Added(EMPTY, g, g.name, None, "");
    assert [step][1..] == [] && [alias][1..] == [];
    assert AddedAliases(s1, g, [alias], None) == AddedAliases(Added(s1, g, alias, None, g.name), g, [], None);
  }

  /** A deprecated name installed by a test keeps the test factory once the test has restored everything. */
  lemma TestAliasStays()
    ensures var f := Factory(0, "f", "type");
            var s' := ReplacedAndRestored(EMPTY, f, ["d"], (name, canonical) => true, true);
            s'.Some? && "d" in s'.value.factories && s'.value.factories["d"] == Some(f) && "d" !in s'.value.deprecated
  {
    var f := Factory(0, "f", "type");
    var s1 := Installed(EMPTY, f);
    assert ["d"][1..] == [];
    assert RenamedAll(s1, f, ["d"]) == RenamedAll(Renamed(s1, f, "d"), f, []);
    assert Mappings(s1, f, ["d"]) == [Mapping("d", "")] + Mappings(Renamed(s1, f, "d"), f, []);
    assert [Mapping("d", "")][1..] == [];
    RestoreUndoesReplaceIff(EMPTY, f, ["d"], (name, canonical) => true, true);
  }

  ghost predicate Distinct(names: seq<string>) {
    forall i, j :: 0 <= i < j < |names| ==> names[i] != names[j]
  }

  /** The mapping of a name, as the restore closure sees it. */
  function MappingOf(s: State, n: string): Mapping {
    Mapping(n, if n in s.deprecated then s.deprecated[n] else "")
  }

  lemma {:induction false} MappingsOfDistinct(s: State, f: Factory, names: seq<string>)
    requires Distinct(names)
    ensures |Mappings(s, f, names)| == |names|
    ensures forall i :: 0 <= i < |names| ==> Mappings(s, f, names)[i] == MappingOf(s, names[i])
    decreases names
  {
    if names != [] {
      var s1, rest := Renamed(s, f, names[0]), names[1..];
      MappingsOfDistinct(s1, f, rest);
      forall i | 0 < i < |names| ensures Mappings(s, f, names)[i] == MappingOf(s, names[i]) {
        assert Mappings(s, f, names)[i] == Mappings(s1, f, rest)[i - 1] == MappingOf(s1, rest[i - 1]);
        assert names[0] != names[i];
      }
    }
  }

  lemma {:induction false} RenamedMap(s: State, f: Factory, names: seq<string>, n: string)
    requires RenamedAll(s, f, names).Some? && n !in names
    ensures var s' := RenamedAll(s, f, names).value;
            (n in s'.deprecated <==> n in s.deprecated) && (n in s.deprecated ==> s'.deprecated[n] == s.deprecated[n])
    decreases names
  {
    if names != [] { RenamedMap(Renamed(s, f, names[0]), f, names[1..], n); }
  }

  /** Whatever the map was, the mappings put back are what it holds. */
  lemma {:induction false} RemappedMap(s: State, mappings: seq<Mapping>, allow: (string, string) -> bool, n: string)
    requires Remapped(s, mappings, allow).Some?
    requires forall i, j :: 0 <= i < j < |mappings| ==> mappings[i].name != mappings[j].name
    ensures var s' := Remapped(s, mappings, allow).value;
            && (forall i :: 0 <= i < |mappings| && mappings[i].name == n ==> MappingOf(s', n) == mappings[i])
            && ((forall i :: 0 <= i < |mappings| ==> mappings[i].name != n) ==> MappingOf(s', n) == MappingOf(s, n))
    decreases mappings
  {
    if mappings != [] {
      var m, rest := mappings[0], mappings[1..];
      var s1 := s.(deprecated := if m.canonical == "" then s.deprecated - {m.name}
                                 else s.deprecated[m.name := m.canonical]);
      RemappedMap(s1, rest, allow, n);
      assert forall i :: 0 <= i < |rest| ==> rest[i] == mappings[i + 1];
      assert forall i :: 0 < i < |mappings| ==> mappings[i] == rest[i - 1];
    }
  }

  /** The map of deprecated names is given back, whatever becomes of the factories, if no name is given twice. */
  lemma MappingsAreRestored(
    s: State, f: Factory, names: seq<string>, allow: (string, string) -> bool, infoLogged: bool, n: string)
    requires Distinct(names) && ReplacedAndRestored(s, f, names, allow, infoLogged).Some?
    ensures MappingOf(ReplacedAndRestored(s, f, names, allow, infoLogged).value, n) == MappingOf(s, n)
  {
    var s0, s1 := Installed(s, f), Replaced(s, f, names, allow, infoLogged).value;
    var mappings := Mappings(s0, f, names);
    MappingsOfDistinct(s0, f, names);
    RemappedMap(Ejected(s1, f, Displaced(s, f.name)), mappings, allow, n);
    if n in names {
      var i :| 0 <= i < |names| && names[i] == n;
      assert mappings[i] == MappingOf(s0, n);
    } else {
      RenamedMap(s0, f, names, n);
    }
  }

  /** In a consistent state the displaced mappings are those of the factory itself, which is put back. */
  lemma DisplacedMapping(
    s: State, f: Factory, names: seq<string>, allow: (string, string) -> bool, infoLogged: bool, d: string)
    requires Consistent(s) && d in names && f.name !in names && Replaced(s, f, names, allow, infoLogged).Some?
    requires MappingOf(s, d).canonical != ""
    ensures MappingOf(s, d).canonical == f.name && f.name !in s.deprecated
    ensures f.name in s.factories && s.factories[f.name] == Some(f)
  {
    ReplaceSucceedsIff(s, f, names, allow, infoLogged);
    assert AliasAgrees(s, d) && OwnName(s, d);
  }

  lemma {:induction false} RemappingSucceeds(
    s: State, f: Factory, mappings: seq<Mapping>, allow: (string, string) -> bool)
    requires forall i :: 0 <= i < |mappings| ==>
               && mappings[i].name != f.name
               && (mappings[i].canonical != "" ==>
                     && mappings[i].canonical == f.name && f.name !in s.deprecated
                     && f.name in s.factories && s.factories[f.name] == Some(f))
    ensures Remapped(s, mappings, allow).Some?
    decreases mappings
  {
    if mappings != [] {
      var m, rest := mappings[0], mappings[1..];
      assert forall i :: 0 <= i < |rest| ==> rest[i] == mappings[i + 1];
      var s1 := s.(deprecated := if m.canonical == "" then s.deprecated - {m.name}
                                 else s.deprecated[m.name := m.canonical]);
      RemappingSucceeds(s1, f, rest, allow);
    }
  }

  /** In every consistent state the restore closure goes through, if no name is given twice. */
  lemma RestoreSucceeds(s: State, f: Factory, names: seq<string>, allow: (string, string) -> bool, infoLogged: bool)
    requires Consistent(s) && Replaced(s, f, names, allow, infoLogged).Some? && Distinct([f.name] + names)
    ensures ReplacedAndRestored(s, f, names, allow, infoLogged).Some?
  {
    var s0, s1 := Installed(s, f), Replaced(s, f, names, allow, infoLogged).value;
    var s2, mappings := Ejected(s1, f, Displaced(s, f.name)), Mappings(s0, f, names);
    DistinctTail(f.name, names);
    MappingsOfDistinct(s0, f, names);
    RenamedMap(s0, f, names, f.name);
    forall i | 0 <= i < |mappings| && mappings[i].canonical != ""
      ensures mappings[i].canonical == f.name && f.name !in s2.deprecated
      ensures f.name in s2.factories && s2.factories[f.name] == Some(f)
    {
      assert mappings[i] == MappingOf(s0, names[i]);
      DisplacedMapping(s, f, names, allow, infoLogged, names[i]);
    }
    RemappingSucceeds(s2, f, mappings, allow);
  }

  lemma DistinctTail(name: string, names: seq<string>)
    requires Distinct([name] + names)
    ensures Distinct(names) && name !in names
  {
    var all := [name] + names;
    forall i | 0 <= i < |names| ensures names[i] != name { assert all[0] != all[i + 1]; }
    forall i, j | 0 <= i < j < |names| ensures names[i] != names[j] { assert all[i + 1] != all[j + 1]; }
  }

  /** A deprecated name given twice: the restore closure aborts, as the second mapping leads to no factory. */
  lemma RepeatedNameAborts(f: Factory, d: string, allow: (string, string) -> bool)
    requires f.name != "" && d != f.name
    ensures Replaced(EMPTY, f, [d, d], allow, true).Some?
    ensures ReplacedAndRestored(EMPTY, f, [d, d], allow, true).None?
  {
    var s0 := Installed(EMPTY, f);
    var s1 := Renamed(s0, f, d);
    ReplaceSucceedsIff(EMPTY, f, [d, d], allow, true);
    assert [d, d][1..] == [d] && [d][1..] == [];
    assert Mappings(s0, f, [d, d]) == [Mapping(d, "")] + Mappings(s1, f, [d]);
    assert Mappings(s1, f, [d]) == [Mapping(d, f.name)] + Mappings(Renamed(s1, f, d), f, []);
    var mappings := [Mapping(d, ""), Mapping(d, f.name)];
    assert Mappings(s0, f, [d, d]) == mappings;
    assert mappings[1..] == [Mapping(d, f.name)];
    var s2 := Ejected(Replaced(EMPTY, f, [d, d], allow, true).value, f, None);
    assert f.name !in s2.factories;
    var s3 := s2.(deprecated := s2.deprecated - {d});
    assert Remapped(s2, mappings, allow) == Remapped(s3, [Mapping(d, f.name)], allow);
    assert Remapped(s3, [Mapping(d, f.name)], allow) == None;
  }

  lemma InstalledStaysReplaceable(s: State, f: Factory, name: string)
    requires Replaceable(s, f.name) && Replaceable(s, name)
    ensures Replaceable(Reindexed(Installed(s, f)), name)
  {}

  lemma ReplacedAlone(s: State, f: Factory, allow: (string, string) -> bool, infoLogged: bool)
    requires Replaceable(s, f.name)
    ensures Replaced(s, f, [], allow, infoLogged) == Some(Reindexed(Installed(s, f)))
  {}

  lemma RestoredAlone(s: State, f: Factory, allow: (string, string) -> bool)
    requires Replaceable(s, f.name)
    ensures Restored(Reindexed(Installed(s, f)), f, Displaced(s, f.name), [], allow) == Some(Reindexed(s))
  {
    var s1 := Reindexed(Installed(s, f));
    assert Ejected(s1, f, Displaced(s, f.name)).factories == s.factories;
  }

  /** A well-nested series of replacements leaves the registry as it was, with a fresh index. */
  lemma {:induction false} NestedReplacementsRestore(
    s: State, script: Script, allow: (string, string) -> bool, infoLogged: bool)
    requires forall name :: name in Injected(script) ==> Replaceable(s, name)
    ensures RunScript(s, script, allow, infoLogged) == Some(if script.Done? then s else Reindexed(s))
    decreases script
  {
    match script
    case Done =>
    case Inject(f, inside, after) =>
      assert Replaceable(s, f.name);
      var s1 := Reindexed(Installed(s, f));
      ReplacedAlone(s, f, allow, infoLogged);
      forall name | name in Injected(inside) ensures Replaceable(s1, name) {
        InstalledStaysReplaceable(s, f, name);
      }
      NestedReplacementsRestore(s1, inside, allow, infoLogged);
      RestoredAlone(s, f, allow);
      forall name | name in Injected(after) ensures Replaceable(Reindexed(s), name) {
        assert Replaceable(s, name);
      }
      NestedReplacementsRestore(Reindexed(s), after, allow, infoLogged);
  }
}
