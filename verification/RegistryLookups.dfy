/** What a lookup by name returns, in terms of the registrations and disablings that came before. */
module RegistryLookups {
  import opened Options
  import opened Registry
  import opened RegistryRuns

  /** The constructor without deprecated names: its name is given to the factory with no version, if it is free. */
  lemma PlainRegistrationTakesEffect(s: State, f: Factory, n: string)
    requires Consistent(s)
    ensures var s' := Registered(s, f);
            && Consistent(s')
            && (f.name in s.factories ==> s' == s)
            && (f.name !in s.factories ==>
                  if n == f.name then Given(s', f, n, None) && n !in s'.deprecated && n !in s'.versions
                  else SameAt(s, s', n))
  {
    if f.name !in s.factories {
      AddedCanonical(s, f, None);
      assert n in s.deprecated ==> AliasAgrees(s, n);
    }
  }

  /** Only a name that is not the factory's own is subject to the deprecation check. */
  lemma GivenIsAllowed(s: State, f: Factory, n: string, version: Option<BuildVersion>, allow: (string, string) -> bool)
    requires Consistent(s) && Given(s, f, n, version)
    ensures Get(s, n, allow) == if n == f.name || f.name == "" || allow(n, f.name) then Some(f) else None
  {
    if n in s.deprecated { assert AliasAgrees(s, n); }
  }

  /**
   * After a registration without a clash, and whatever follows, the factory is
   * found under each of its names until one is disabled; under a deprecated name
   * only if the runtime allows that name for the factory's own.
   */
  lemma LookupFindsRegistered(
    s: State, f: Factory, aliases: seq<string>, version: Option<BuildVersion>, after: seq<Step>, n: string,
    allow: (string, string) -> bool)
    requires Consistent(s) && !Clashes(s.factories.Keys, NamesOf(f, aliases)) && n in NamesOf(f, aliases)
    ensures var s' := RegisteredWithAliases(s, f, aliases, version);
            Get(Run(s', after), n, allow) ==
            if !DisabledIn(s', after, n) && (n == f.name || f.name == "" || allow(n, f.name)) then Some(f) else None
  {
    var s' := RegisteredWithAliases(s, f, aliases, version);
    RegistrationTakesEffect(s, f, aliases, version, n);
    NextConsistent(s, RegisterWithAliases(f, aliases, version));
    GivenIsAllowed(s', f, n, version, allow);
    FoundUntilDisabled(s', after, n, allow);
  }

  /** The names that the registrations of a run try to give. */
  function NamesIn(steps: seq<Step>): set<string> {
    if steps == [] then {} else
    (match steps[0]
     case Register(f) => {f.name}
     case RegisterWithAliases(f, aliases, _) => set n | n in NamesOf(f, aliases)
     case Disable(_) => {}
     case LookupByType => {}) + NamesIn(steps[1..])
  }

  lemma {:induction false} AliasesGiveOnly(
    s: State, f: Factory, aliases: seq<string>, version: Option<BuildVersion>, n: string)
    requires n !in s.factories && n !in aliases
    ensures n !in AddedAliases(s, f, aliases, version).factories
    decreases aliases
  {
    if aliases != [] && aliases[0] !in s.factories {
      AliasesGiveOnly(Added(s, f, aliases[0], version, f.name), f, aliases[1..], version, n);
    }
  }

  /** A name that no registration of the run gives is not found. */
  lemma {:induction false} NeverRegistered(s: State, steps: seq<Step>, n: string, allow: (string, string) -> bool)
    requires n !in s.factories && n !in NamesIn(steps)
    ensures n !in Run(s, steps).factories && Get(Run(s, steps), n, allow) == None
    decreases |steps|
  {
    if steps != [] {
      if steps[0].RegisterWithAliases? {
        var f, aliases, version := steps[0].f, steps[0].aliases, steps[0].version;
        assert n !in NamesOf(f, aliases);
        AliasesGiveOnly(s, f, aliases, version, n);
        if f.name != "" { AliasesGiveOnly(Added(s, f, f.name, version, ""), f, aliases, version, n); }
      }
      NeverRegistered(Next(s, steps[0]), steps[1..], n, allow);
    }
  }
}
