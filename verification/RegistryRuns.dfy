/**
 * What the factory registry keeps over every run: any number of RegisterFactory
 * constructors, failed ones included, disableFactory calls and lookups by type.
 */
module RegistryRuns {
  import opened Options
  import opened Registry

  datatype Step =
    | Register(f: Factory)
    | RegisterWithAliases(f: Factory, aliases: seq<string>, version: Option<BuildVersion>)
    | Disable(name: string)
    | LookupByType

  /** The state left by a lookup by type, which builds the index if there is none. */
  ghost function Indexed(s: State): State {
    if s.byType.Some? then s else s.(byType := Some(IndexOf(s.factories)))
  }

  /** What a lookup of `configType` returns. */
  ghost function FoundByType(s: State, configType: string): Option<Factory> {
    Pick(Indexed(s).byType.value, configType)
  }

  ghost function Next(s: State, step: Step): State {
    match step
    case Register(f) => Registered(s, f)
    case RegisterWithAliases(f, aliases, version) => RegisteredWithAliases(s, f, aliases, version)
    case Disable(name) => Disabled(s, name)
    case LookupByType => Indexed(s)
  }

  ghost function Run(s: State, steps: seq<Step>): State
    decreases |steps|
  {
    if steps == [] then s else Run(Next(s, steps[0]), steps[1..])
  }

  // ---------------------------------------------------------------------------
  // The four maps agree

  /** An alias and its canonical name are interchangeable. */
  ghost predicate AliasAgrees(s: State, alias: string)
    requires alias in s.deprecated
  {
    var c := s.deprecated[alias];
    && alias in s.factories && c in s.factories
    && c !in s.deprecated
    && s.factories[alias] == s.factories[c]
    && VersionOf(s, alias) == VersionOf(s, c)
  }

  /** An enabled factory is found only under names whose canonical name is its own. */
  ghost predicate OwnName(s: State, name: string)
    requires name in s.factories && s.factories[name].Some?
  {
    var f := s.factories[name].value;
    if f.name == "" then name !in s.deprecated else Canonical(s, name) == f.name
  }

  ghost predicate Consistent(s: State) {
    && s.versions.Keys <= s.factories.Keys
    && (forall alias :: alias in s.deprecated ==> AliasAgrees(s, alias))
    && (forall name :: name in s.factories && s.factories[name].Some? ==> OwnName(s, name))
  }

  /** `f` holds its own name, which is not an alias, with this version. */
  ghost predicate Holds(s: State, f: Factory, version: Option<BuildVersion>) {
    && f.name in s.factories && s.factories[f.name] == Some(f)
    && f.name !in s.deprecated
    && VersionOf(s, f.name) == version
  }

  lemma AddedCanonical(s: State, f: Factory, version: Option<BuildVersion>)
    requires Consistent(s) && f.name !in s.factories
    ensures Consistent(Added(s, f, f.name, version, "")) && Holds(Added(s, f, f.name, version, ""), f, version)
  {
    var s' := Added(s, f, f.name, version, "");
    assert forall alias :: alias in s'.deprecated ==> AliasAgrees(s, alias);
    assert forall name :: name in s.factories && s.factories[name].Some? ==> OwnName(s, name);
  }

  lemma AddedAlias(s: State, f: Factory, alias: string, version: Option<BuildVersion>)
    requires Consistent(s) && alias !in s.factories
    requires f.name != "" ==> Holds(s, f, version)
    ensures var s' := Added(s, f, alias, version, f.name);
            Consistent(s') && (f.name != "" ==> Holds(s', f, version))
  {
    var s' := Added(s, f, alias, version, f.name);
    assert forall a :: a in s.deprecated ==> AliasAgrees(s, a);
    assert forall name :: name in s.factories && s.factories[name].Some? ==> OwnName(s, name);
    assert forall a :: a in s'.deprecated ==> AliasAgrees(s', a);
  }

  lemma {:induction false} AddedAliasesConsistent(
    s: State, f: Factory, aliases: seq<string>, version: Option<BuildVersion>)
    requires Consistent(s) && (f.name != "" ==> Holds(s, f, version))
    ensures Consistent(AddedAliases(s, f, aliases, version))
    decreases aliases
  {
    if aliases != [] && aliases[0] !in s.factories {
      AddedAlias(s, f, aliases[0], version);
      AddedAliasesConsistent(Added(s, f, aliases[0], version, f.name), f, aliases[1..], version);
    }
  }

  /**
   * disableFactory nulls exactly the names that share the argument's canonical
   * name, which is registered, as it reports, exactly if the argument is.
   */
  lemma DisableNullsExactly(s: State, name: string)
    requires Consistent(s)
    ensures Disabled(s, name).factories.Keys == s.factories.Keys
    ensures forall n :: n in s.factories ==>
              Disabled(s, name).factories[n] ==
              if Canonical(s, n) == Canonical(s, name) then None else s.factories[n]
    ensures Canonical(s, name) in s.factories <==> name in s.factories
    ensures Consistent(Disabled(s, name))
  {
    var c, s' := Canonical(s, name), Disabled(s, name);
    assert forall alias :: alias in s.deprecated ==> AliasAgrees(s, alias);
    assert c !in s.deprecated;
    assert forall alias :: alias in s'.deprecated ==> AliasAgrees(s', alias);
    forall n | n in s'.factories && s'.factories[n].Some? ensures OwnName(s', n) {
      assert OwnName(s, n);
    }
  }

  lemma NextConsistent(s: State, step: Step)
    requires Consistent(s)
    ensures Consistent(Next(s, step))
  {
    match step {
      case Register(f) =>
        if f.name !in s.factories { AddedCanonical(s, f, None); }
      case RegisterWithAliases(f, aliases, version) =>
        if f.name == "" {
          AddedAliasesConsistent(s, f, aliases, version);
        } else if f.name !in s.factories {
          AddedCanonical(s, f, version);
          AddedAliasesConsistent(Added(s, f, f.name, version, ""), f, aliases, version);
        }
      case Disable(name) =>
        DisableNullsExactly(s, name);
      case LookupByType =>
        assert forall alias :: alias in s.deprecated ==> AliasAgrees(s, alias);
        assert forall name :: name in s.factories && s.factories[name].Some? ==> OwnName(s, name);
    }
  }

  lemma {:induction false} RunConsistent(s: State, steps: seq<Step>)
    requires Consistent(s)
    ensures Consistent(Run(s, steps))
    decreases |steps|
  {
    if steps != [] {
      NextConsistent(s, steps[0]);
      RunConsistent(Next(s, steps[0]), steps[1..]);
    }
  }

  /** Over every run: aliases agree with their canonical names in all the maps. */
  lemma AliasesAgreeInEveryRun(steps: seq<Step>, name: string, allow: (string, string) -> bool)
    ensures var s := Run(EMPTY, steps);
            var c := Canonical(s, name);
            && Canonical(s, c) == c
            && (name in s.factories <==> c in s.factories)
            && (name in s.factories ==> s.factories[name] == s.factories[c])
            && VersionOf(s, name) == VersionOf(s, c)
            && (Allowed(s, name, allow) ==> Get(s, name, allow) == Get(s, c, allow))
  {
    RunConsistent(EMPTY, steps);
    var s := Run(EMPTY, steps);
    if name in s.deprecated { assert AliasAgrees(s, name); }
  }

  // ---------------------------------------------------------------------------
  // What a registration does

  /** `name` now belongs to `f`, with this version, and as an alias of its name if it has one. */
  ghost predicate Given(s: State, f: Factory, name: string, version: Option<BuildVersion>) {
    && name in s.factories && s.factories[name] == Some(f)
    && VersionOf(s, name) == version
    && Canonical(s, name) == if f.name == "" then name else f.name
  }

  ghost predicate SameAt(s: State, s': State, name: string) {
    && (name in s'.factories <==> name in s.factories)
    && (name in s.factories ==> s'.factories[name] == s.factories[name])
    && VersionOf(s', name) == VersionOf(s, name) && Canonical(s', name) == Canonical(s, name)
  }

  lemma AddedAliasGives(s: State, f: Factory, alias: string, version: Option<BuildVersion>)
    requires Consistent(s) && alias !in s.factories
    ensures var s' := Added(s, f, alias, version, f.name);
            Given(s', f, alias, version) && forall n :: n != alias ==> SameAt(s, s', n)
  {
    assert forall a :: a in s.deprecated ==> AliasAgrees(s, a);
  }

  /** Without a clash every alias is given to the factory, and nothing else changes. */
  lemma {:induction false} AliasesAreGiven(
    s: State, f: Factory, aliases: seq<string>, version: Option<BuildVersion>, n: string)
    requires Consistent(s) && (f.name != "" ==> Holds(s, f, version)) && !Clashes(s.factories.Keys, aliases)
    ensures var s' := AddedAliases(s, f, aliases, version);
            if n in aliases then Given(s', f, n, version) else SameAt(s, s', n)
    decreases aliases
  {
    if aliases != [] {
      var s1 := Added(s, f, aliases[0], version, f.name);
      AddedAlias(s, f, aliases[0], version);
      AddedAliasGives(s, f, aliases[0], version);
      assert s1.factories.Keys == s.factories.Keys + {aliases[0]};
      AliasesAreGiven(s1, f, aliases[1..], version, n);
      if n == aliases[0] {
        ClashMeaning(s1.factories.Keys, aliases[1..]);
        assert n !in aliases[1..];
      }
    }
  }

  /** The names under which the constructors register a factory, in this order. */
  function NamesOf(f: Factory, aliases: seq<string>): seq<string> {
    if f.name == "" then aliases else [f.name] + aliases
  }

  /** A registration that meets no clash makes the factory known by exactly its names. */
  lemma RegistrationTakesEffect(s: State, f: Factory, aliases: seq<string>, version: Option<BuildVersion>, n: string)
    requires Consistent(s) && !Clashes(s.factories.Keys, NamesOf(f, aliases))
    ensures var s' := RegisteredWithAliases(s, f, aliases, version);
            if n in NamesOf(f, aliases) then Given(s', f, n, version) else SameAt(s, s', n)
  {
    if f.name == "" {
      AliasesAreGiven(s, f, aliases, version, n);
    } else {
      assert ([f.name] + aliases)[1..] == aliases;
      var s1 := Added(s, f, f.name, version, "");
      assert s1.factories.Keys == s.factories.Keys + {f.name};
      AddedCanonical(s, f, version);
      AliasesAreGiven(s1, f, aliases, version, n);
      if n == f.name {
        ClashMeaning(s1.factories.Keys, aliases);
        assert n !in aliases;
      }
    }
  }

  /** `k` is the place of the first name that is taken, or given before. */
  ghost predicate FirstClash(taken: set<string>, names: seq<string>, k: nat) {
    k < |names| && !Clashes(taken, names[..k]) && (names[k] in taken || names[k] in names[..k])
  }

  lemma FirstClashCons(taken: set<string>, names: seq<string>, k: nat)
    requires names != [] && names[0] !in taken && FirstClash(taken + {names[0]}, names[1..], k)
    ensures FirstClash(taken, names, k + 1)
  {
    assert names[..k + 1][1..] == names[1..][..k] && names[..k + 1][0] == names[0];
    assert names[..k + 1] == [names[0]] + names[1..][..k];
  }

  lemma {:induction false} AliasesKeepThePrefix(
    s: State, f: Factory, aliases: seq<string>, version: Option<BuildVersion>) returns (k: nat)
    requires Clashes(s.factories.Keys, aliases)
    ensures FirstClash(s.factories.Keys, aliases, k)
    ensures AddedAliases(s, f, aliases, version) == AddedAliases(s, f, aliases[..k], version)
    decreases aliases
  {
    if aliases[0] in s.factories {
      k := 0;
    } else {
      var s1 := Added(s, f, aliases[0], version, f.name);
      assert s1.factories.Keys == s.factories.Keys + {aliases[0]};
      var j := AliasesKeepThePrefix(s1, f, aliases[1..], version);
      k := j + 1;
      FirstClashCons(s.factories.Keys, aliases, j);
      assert aliases[..k][1..] == aliases[1..][..j] && aliases[..k][0] == aliases[0];
    }
  }

  /**
   * A registration that fails does what registering the names before the first
   * clash does: nothing if that is its own name, else as if it had fewer aliases.
   */
  lemma FailureKeepsThePrefix(s: State, f: Factory, aliases: seq<string>, version: Option<BuildVersion>)
    returns (k: nat)
    requires Clashes(s.factories.Keys, NamesOf(f, aliases))
    ensures FirstClash(s.factories.Keys, NamesOf(f, aliases), k)
    ensures RegisteredWithAliases(s, f, aliases, version) ==
            if f.name == "" then RegisteredWithAliases(s, f, aliases[..k], version)
            else if k == 0 then s
            else RegisteredWithAliases(s, f, aliases[..k - 1], version)
  {
    if f.name == "" {
      k := AliasesKeepThePrefix(s, f, aliases, version);
    } else if f.name in s.factories {
      k := 0;
    } else {
      var s1 := Added(s, f, f.name, version, "");
      assert s1.factories.Keys == s.factories.Keys + {f.name};
      assert ([f.name] + aliases)[1..] == aliases;
      var j := AliasesKeepThePrefix(s1, f, aliases, version);
      FirstClashCons(s.factories.Keys, [f.name] + aliases, j);
      k := j + 1;
    }
  }

  // ---------------------------------------------------------------------------
  // Names are never freed, and what is disabled stays disabled

  /** Every name keeps its pointer, or has it replaced by null. */
  ghost predicate OnlyNulls(before: Pointers, after: Pointers) {
    forall n :: n in before ==> n in after && (after[n] == before[n] || after[n].None?)
  }

  lemma {:induction false} AddedAliasesKeeps(s: State, f: Factory, aliases: seq<string>, version: Option<BuildVersion>)
    ensures OnlyNulls(s.factories, AddedAliases(s, f, aliases, version).factories)
    ensures AddedAliases(s, f, aliases, version).byType == s.byType
    decreases aliases
  {
    if aliases != [] && aliases[0] !in s.factories {
      AddedAliasesKeeps(Added(s, f, aliases[0], version, f.name), f, aliases[1..], version);
    }
  }

  lemma NextKeeps(s: State, step: Step)
    ensures OnlyNulls(s.factories, Next(s, step).factories)
    ensures s.byType.Some? ==> Next(s, step).byType == s.byType
  {
    if step.RegisterWithAliases? {
      AddedAliasesKeeps(s, step.f, step.aliases, step.version);
      AddedAliasesKeeps(Added(s, step.f, step.f.name, step.version, ""), step.f, step.aliases, step.version);
    }
  }

  /** No run frees a name, swaps its factory or enables it again, nor touches an index once built. */
  lemma {:induction false} NothingComesBack(s: State, steps: seq<Step>)
    ensures OnlyNulls(s.factories, Run(s, steps).factories)
    ensures s.byType.Some? ==> Run(s, steps).byType == s.byType
    decreases |steps|
  {
    if steps != [] {
      NextKeeps(s, steps[0]);
      NothingComesBack(Next(s, steps[0]), steps[1..]);
    }
  }

  /** Some step of the run disables `n`, by whatever name. */
  ghost predicate DisabledIn(s: State, steps: seq<Step>, n: string)
    decreases |steps|
  {
    steps != [] &&
    ((steps[0].Disable? && Canonical(s, steps[0].name) == Canonical(s, n)) ||
     DisabledIn(Next(s, steps[0]), steps[1..], n))
  }

  lemma {:induction false} AddedAliasesSame(
    s: State, f: Factory, aliases: seq<string>, version: Option<BuildVersion>, n: string)
    requires n in s.factories
    ensures var s' := AddedAliases(s, f, aliases, version);
            n in s'.factories && s'.factories[n] == s.factories[n] && Canonical(s', n) == Canonical(s, n)
    decreases aliases
  {
    if aliases != [] && aliases[0] !in s.factories {
      AddedAliasesSame(Added(s, f, aliases[0], version, f.name), f, aliases[1..], version, n);
    }
  }

  lemma NextAt(s: State, step: Step, n: string)
    requires Consistent(s) && n in s.factories
    ensures var s' := Next(s, step);
            && n in s'.factories && Canonical(s', n) == Canonical(s, n)
            && s'.factories[n] == if DisabledIn(s, [step], n) then None else s.factories[n]
  {
    assert [step][1..] == [];
    match step {
      case Register(f) =>
      case RegisterWithAliases(f, aliases, version) =>
        AddedAliasesSame(s, f, aliases, version, n);
        if f.name !in s.factories { AddedAliasesSame(Added(s, f, f.name, version, ""), f, aliases, version, n); }
      case Disable(name) =>
        DisableNullsExactly(s, name);
      case LookupByType =>
    }
  }

  /**
   * Over every run, what is found under a registered name is what was found
   * before, until a step disables the name itself or another name of the same
   * canonical name; and then nothing.
   */
  lemma {:induction false} FoundUntilDisabled(s: State, steps: seq<Step>, n: string, allow: (string, string) -> bool)
    requires Consistent(s) && n in s.factories
    ensures var s' := Run(s, steps);
            && Canonical(s', n) == Canonical(s, n)
            && Get(s', n, allow) == if DisabledIn(s, steps, n) then None else Get(s, n, allow)
    decreases |steps|
  {
    if steps != [] {
      NextConsistent(s, steps[0]);
      NextAt(s, steps[0], n);
      assert [steps[0]][1..] == [];
      FoundUntilDisabled(Next(s, steps[0]), steps[1..], n, allow);
    }
  }

  // ---------------------------------------------------------------------------
  // Disabling against every name of a factory

  /** `f` is still enabled under some name. */
  ghost predicate Enabled(s: State, f: Factory) {
    exists n :: n in s.factories && s.factories[n] == Some(f)
  }

  /**
   * Disabling a factory by one of its names disables all of them exactly when
   * it has a name of its own, or when it was registered under that name only.
   */
  lemma DisableReachesEveryNameIff(steps: seq<Step>, name: string, f: Factory)
    requires var s := Run(EMPTY, steps); name in s.factories && s.factories[name] == Some(f)
    ensures var s := Run(EMPTY, steps);
            !Enabled(Disabled(s, name), f) <==>
            f.name != "" || forall n :: n in s.factories && s.factories[n] == Some(f) ==> n == name
  {
    var s := Run(EMPTY, steps);
    RunConsistent(EMPTY, steps);
    DisableNullsExactly(s, name);
    var s' := Disabled(s, name);
    assert OwnName(s, name);
    forall n | n in s.factories && s.factories[n] == Some(f)
      ensures s'.factories[n].None? <==> f.name != "" || n == name
    {
      assert OwnName(s, n);
    }
  }

  /** A nameless factory with two aliases survives the disabling of one of them, also by type. */
  lemma NamelessFactorySurvives()
    ensures var f := Factory(0, "", "type");
            var s := Run(EMPTY, [RegisterWithAliases(f, ["a", "b"], None), Disable("a")]);
            "b" in s.factories && s.factories["b"] == Some(f) && FoundByType(s, "type") == Some(f)
  {
    var f := Factory(0, "", "type");
    var steps := [RegisterWithAliases(f, ["a", "b"], None), Disable("a")];
    var s1 := Added(EMPTY, f, "a", None, "");
    assert ["a", "b"][1..] == ["b"];
    assert AddedAliases(EMPTY, f, ["a", "b"], None) == AddedAliases(s1, f, ["b"], None);
    assert AddedAliases(s1, f, ["b"], None) == Added(s1, f, "b", None, "");
    var s2 := Next(EMPTY, steps[0]);
    assert steps[1..] == [Disable("a")] && [Disable("a")][1..] == [];
    assert Run(s2, [Disable("a")]) == Run(Next(s2, Disable("a")), []);
    var s := Disabled(Added(s1, f, "b", None, ""), "a");
    assert Run(EMPTY, steps) == s;
    OnlyOneIsSole(s, f, "b");
  }

  // ---------------------------------------------------------------------------
  // Disabling against the index by type

  /** The state in which the index is built: at the first lookup by type, or at the end. */
  ghost function AtBuild(s: State, steps: seq<Step>): State
    decreases |steps|
  {
    if s.byType.Some? || steps == [] || steps[0].LookupByType? then s else AtBuild(Next(s, steps[0]), steps[1..])
  }

  lemma {:induction false} IndexIsBuiltOnce(s: State, steps: seq<Step>)
    requires s.byType.None?
    ensures Indexed(Run(s, steps)).byType == Some(IndexOf(AtBuild(s, steps).factories))
    decreases |steps|
  {
    if steps != [] {
      if steps[0].LookupByType? {
        NothingComesBack(Indexed(s), steps[1..]);
      } else {
        NextByType(s, steps[0]);
        IndexIsBuiltOnce(Next(s, steps[0]), steps[1..]);
      }
    }
  }

  /** `f` is enabled under some name, and no other enabled factory has its type, which is not empty. */
  ghost predicate SoleOfItsType(s: State, f: Factory) {
    f.configType != "" && Claimants(s.factories, s.factories.Keys, f.configType) == {f}
  }

  lemma IndexedIffSole(s: State, f: Factory)
    ensures (exists t :: Pick(IndexOf(s.factories), t) == Some(f)) <==> SoleOfItsType(s, f)
  {
    var index := IndexOf(s.factories);
    if t :| Pick(index, t) == Some(f) {
      assert Claimants(s.factories, s.factories.Keys, t) == {f};
      assert f in Claimants(s.factories, s.factories.Keys, t);
    }
    if SoleOfItsType(s, f) {
      var t := f.configType;
      assert f in Claimants(s.factories, s.factories.Keys, t);
      assert index[t].Some?;
      assert index[t].value in {f};
      assert Pick(index, t) == Some(f);
    }
  }

  /** `f` is disabled for good under its own name. */
  ghost predicate Gone(s: State, f: Factory) {
    && Consistent(s) && f.name != ""
    && f.name in s.factories && s.factories[f.name].None?
    && f.name !in s.deprecated
  }

  lemma GoneIsNotSole(s: State, f: Factory)
    requires Gone(s, f)
    ensures !SoleOfItsType(s, f)
  {
    forall n | n in s.factories ensures s.factories[n] != Some(f) {
      if s.factories[n].Some? { assert OwnName(s, n); }
      if n in s.deprecated { assert AliasAgrees(s, n); }
    }
    assert f !in Claimants(s.factories, s.factories.Keys, f.configType);
  }

  lemma {:induction false} GoneAtBuild(s: State, f: Factory, steps: seq<Step>)
    requires Gone(s, f)
    ensures Gone(AtBuild(s, steps), f)
    decreases |steps|
  {
    if steps != [] {
      NextConsistent(s, steps[0]);
      NextKeeps(s, steps[0]);
      NewAliases(s, steps[0]);
      GoneAtBuild(Next(s, steps[0]), f, steps[1..]);
    }
  }

  /** Only names that were free become aliases. */
  lemma NewAliases(s: State, step: Step)
    requires Consistent(s)
    ensures forall n :: n in Next(s, step).deprecated ==> n in s.deprecated || n !in s.factories
  {
    if step.RegisterWithAliases? {
      NewAliasesAdded(s, step.f, step.aliases, step.version);
      NewAliasesAdded(Added(s, step.f, step.f.name, step.version, ""), step.f, step.aliases, step.version);
    }
  }

  lemma {:induction false} NewAliasesAdded(s: State, f: Factory, aliases: seq<string>, version: Option<BuildVersion>)
    ensures forall n :: n in AddedAliases(s, f, aliases, version).deprecated ==> n in s.deprecated || n !in s.factories
    decreases aliases
  {
    if aliases != [] && aliases[0] !in s.factories {
      NewAliasesAdded(Added(s, f, aliases[0], version, f.name), f, aliases[1..], version);
    }
  }

  lemma NextByType(s: State, step: Step)
    ensures || Next(s, step).byType == s.byType
            || (step.LookupByType? && Next(s, step).byType == Some(IndexOf(s.factories)))
  {
    if step.RegisterWithAliases? {
      AddedAliasesKeeps(s, step.f, step.aliases, step.version);
      AddedAliasesKeeps(Added(s, step.f, step.f.name, step.version, ""), step.f, step.aliases, step.version);
    }
  }

  /**
   * After a factory has been disabled, and whatever follows, a lookup by type
   * can return it if and only if the index had been built before and knew it,
   * or the index was built later, when the factory, having no name of its own,
   * was still enabled under another name as the only one of its type.
   */
  lemma FoundByTypeAfterDisableIff(before: seq<Step>, name: string, f: Factory, after: seq<Step>)
    requires var s := Run(EMPTY, before); name in s.factories && s.factories[name] == Some(f)
    ensures var s := Run(EMPTY, before);
            var d := Disabled(s, name);
            (exists t :: FoundByType(Run(d, after), t) == Some(f)) <==>
            if s.byType.Some? then exists t :: Pick(s.byType.value, t) == Some(f)
            else f.name == "" && SoleOfItsType(AtBuild(d, after), f)
  {
    var s := Run(EMPTY, before);
    var d := Disabled(s, name);
    var s' := Run(d, after);
    RunConsistent(EMPTY, before);
    NothingComesBack(d, after);
    if s.byType.Some? {
      assert forall t :: FoundByType(s', t) == Pick(s.byType.value, t);
    } else {
      IndexIsBuiltOnce(d, after);
      assert forall t :: FoundByType(s', t) == Pick(IndexOf(AtBuild(d, after).factories), t);
      IndexedIffSole(AtBuild(d, after), f);
      if f.name != "" {
        DisabledIsGone(s, name, f);
        GoneAtBuild(d, f, after);
        GoneIsNotSole(AtBuild(d, after), f);
      }
    }
  }

  lemma DisabledIsGone(s: State, name: string, f: Factory)
    requires Consistent(s) && f.name != "" && name in s.factories && s.factories[name] == Some(f)
    ensures Gone(Disabled(s, name), f)
  {
    DisableNullsExactly(s, name);
    assert OwnName(s, name);
    if name in s.deprecated { assert AliasAgrees(s, name); }
  }

  /** A factory disabled after the first lookup by type is still found by its type. */
  lemma DisabledFactoryIsFound()
    ensures var f := Factory(0, "f", "type");
            var s := Run(EMPTY, [Register(f), LookupByType, Disable("f")]);
            "f" in s.factories && s.factories["f"].None? && FoundByType(s, "type") == Some(f)
  {
    var f := Factory(0, "f", "type");
    var steps := [Register(f), LookupByType, Disable("f")];
    var s1 := Added(EMPTY, f, "f", None, "");
    var s2 := Indexed(s1);
    assert steps[1..] == [LookupByType, Disable("f")] && steps[1..][1..] == [Disable("f")];
    assert [Disable("f")][1..] == [];
    assert Run(EMPTY, steps) == Run(s1, steps[1..]) == Run(s2, [Disable("f")]) == Run(Disabled(s2, "f"), []);
    OnlyOneIsSole(s1, f, "f");
  }

  lemma OnlyOneIsSole(s: State, f: Factory, name: string)
    requires f.configType != "" && name in s.factories && s.factories[name] == Some(f)
    requires forall n :: n in s.factories && n != name ==> s.factories[n].None?
    ensures Pick(IndexOf(s.factories), f.configType) == Some(f)
  {
    var index := IndexOf(s.factories);
    assert f in Claimants(s.factories, s.factories.Keys, f.configType);
    assert Claimants(s.factories, s.factories.Keys, f.configType) == {f};
    assert index[f.configType].Some? && index[f.configType].value in {f};
  }
}
